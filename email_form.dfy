/**
 * The email form: the length rules of its schema, the country list its
 * container offers, the submit button's `disabled` rule and the country
 * selector's change handler.
 */
module EmailForm {
  import opened Seqs
  import opened Types
  import opened RecipientsPage

  const SubjectMin: nat := 3
  const MessageMin: nat := 10

  /** A schema violation: the field concerned and its message. */
  datatype FormError = FormError(field: string, message: string)

  const SubjectError := FormError("subject", "Subject must be at least 3 characters")
  const MessageError := FormError("message", "Message must be at least 10 characters")

  /** The schema check: each field too short contributes its own error,
      in the order the schema declares the fields. */
  function Validate(subject: string, message: string): seq<FormError> {
    (if |subject| < SubjectMin then [SubjectError] else [])
    + (if |message| < MessageMin then [MessageError] else [])
  }

  /** A form is accepted exactly when both lengths reach their minimum,
      and each error is reported exactly when its own field is too short. */
  lemma ValidateIff(subject: string, message: string)
    ensures Validate(subject, message) == [] <==> |subject| >= 3 && |message| >= 10
    ensures SubjectError in Validate(subject, message) <==> |subject| < 3
    ensures MessageError in Validate(subject, message) <==> |message| < 10
    ensures |Validate(subject, message)| <= 2
  {
    assert SubjectError != MessageError;
  }

  /** `[...new Set(recipients.map(r => r.country))].filter(Boolean)`. */
  function AvailableCountries(rs: seq<Recipient>): seq<string> {
    Filter(Distinct(Map(rs, (r: Recipient) => r.country)), (c: string) => c != [])
  }

  /** The list holds each non-empty country of the records once, in order
      of first occurrence: the list the directory page counts. */
  lemma AvailableCountriesNamed(rs: seq<Recipient>)
    ensures AvailableCountries(rs) == NamedCountries(rs)
    ensures NoDup(AvailableCountries(rs))
    ensures forall c :: c in AvailableCountries(rs) <==> c != [] && exists m :: 0 <= m < |rs| && rs[m].country == c
  {
    FilterDistinct(Map(rs, (r: Recipient) => r.country), (c: string) => c != []);
    DistinctNoDup(Filter(Map(rs, (r: Recipient) => r.country), (c: string) => c != []));
    forall c ensures c in AvailableCountries(rs) <==> c != [] && exists m :: 0 <= m < |rs| && rs[m].country == c {
      NamedCountriesIff(rs, c);
    }
  }

  /** The container's `disabled`: no recipient. */
  predicate Disabled(rs: seq<Recipient>) {
    |rs| == 0
  }

  /** The container keeps its recipients in a state it never sets, so it
      always offers no country and its button is always disabled. */
  lemma ContainerAlwaysDisabled()
    ensures AvailableCountries([]) == [] && Disabled([])
  {
  }

  /** A selector option: its `value` and its `label`, shown as the caption. */
  datatype SelectOption = SelectOption(value: string, caption: string)

  /** `countries.map(country => ({value: country, label: country}))`. */
  function Options(countries: seq<string>): seq<SelectOption> {
    Map(countries, (c: string) => SelectOption(c, c))
  }

  /** The `onChange`: the new selection is the chosen options' values, in their order. */
  function Selection(chosen: seq<SelectOption>): seq<string> {
    Map(chosen, (o: SelectOption) => o.value)
  }

  /** Choosing the options built from a list of countries selects exactly
      that list, in that order. */
  lemma SelectionOfOptions(countries: seq<string>)
    ensures Selection(Options(countries)) == countries
  {
  }
}
