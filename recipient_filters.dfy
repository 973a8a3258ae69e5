/**
 * The recipient filter panel: one checkbox per country over the
 * selected-countries list, and the recipient limit typed as a number.
 * Each change builds a new options value; the other member is copied.
 */
module RecipientFilters {
  import opened Wrappers
  import opened Text
  import opened Seqs

  /** The `FilterOptions` value the panel edits. */
  datatype FilterOptions = FilterOptions(selectedCountries: seq<string>, limit: int)

  /** `filters.selectedCountries.includes(country)`. */
  predicate IsChecked(f: FilterOptions, country: string) {
    country in f.selectedCountries
  }

  /** A checkbox's `onChange`: checking appends the country, unchecking
      drops every copy of it. */
  function ToggleCountry(f: FilterOptions, country: string, checked: bool): FilterOptions {
    var countries :=
      if checked then f.selectedCountries + [country]
      else Filter(f.selectedCountries, (c: string) => c != country);
    f.(selectedCountries := countries)
  }

  /** After a change the box shows the value it was set to, every other
      box keeps its state, and the limit is untouched. */
  lemma ToggleCountryChecks(f: FilterOptions, country: string, checked: bool, other: string)
    ensures IsChecked(ToggleCountry(f, country, checked), country) == checked
    ensures other != country ==> (IsChecked(ToggleCountry(f, country, checked), other) <==> IsChecked(f, other))
    ensures ToggleCountry(f, country, checked).limit == f.limit
  {
    var p := (c: string) => c != country;
    if !checked && other != country && other in f.selectedCountries {
      var i :| 0 <= i < |f.selectedCountries| && f.selectedCountries[i] == other;
      assert p(f.selectedCountries[i]);
    }
  }

  /** Checking puts the country last; unchecking keeps the other countries
      in order, each as often as before. */
  lemma ToggleCountryOrder(f: FilterOptions, country: string, other: string)
    ensures ToggleCountry(f, country, true).selectedCountries == f.selectedCountries + [country]
    ensures IsSubsequence(ToggleCountry(f, country, false).selectedCountries, f.selectedCountries)
    ensures other != country ==>
      multiset(ToggleCountry(f, country, false).selectedCountries)[other] == multiset(f.selectedCountries)[other]
    ensures multiset(ToggleCountry(f, country, false).selectedCountries)[country] == 0
  {
    FilterSubsequence(f.selectedCountries, (c: string) => c != country);
    FilterMultiset(f.selectedCountries, (c: string) => c != country, other);
    FilterMultiset(f.selectedCountries, (c: string) => c != country, country);
  }

  /** `parseInt(value) || 0`: NaN, 0 and -0 all give 0. */
  function LimitOf(input: string): int {
    match ParseInt(input)
    case None => 0
    case Some(v) => v
  }

  /** The limit input's `onChange`. */
  function SetLimit(f: FilterOptions, input: string): FilterOptions {
    f.(limit := LimitOf(input))
  }

  /** A limit change leaves the countries alone; a number typed in decimal
      becomes the limit, and input without digits gives 0. */
  lemma SetLimitReads(f: FilterOptions, n: nat, input: string)
    ensures SetLimit(f, input).selectedCountries == f.selectedCountries
    ensures SetLimit(f, NatToDecimal(n)).limit == n
    ensures ParseInt(input) == None ==> SetLimit(f, input).limit == 0
  {
    DecimalParses(n, "");
    assert NatToDecimal(n) + "" == NatToDecimal(n);
  }

  /** The limit is not held positive: a minus sign gives a negative limit. */
  lemma NegativeLimit(f: FilterOptions, n: nat)
    ensures SetLimit(f, "-" + NatToDecimal(n)).limit == -(n as int)
  {
    NegativeDecimalParses(n);
  }
}
