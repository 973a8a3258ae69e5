/**
 * The statistics cards: the number of recipients, the number of distinct
 * country values, and the number of emails sent.
 */
module Stats {
  import opened Seqs
  import opened Types
  import opened RecipientsPage

  function Countries(rs: seq<Recipient>): seq<string> {
    Map(rs, (r: Recipient) => r.country)
  }

  /** `new Set(recipients.map(r => r.country)).size`. */
  function UniqueCountries(rs: seq<Recipient>): nat {
    |Distinct(Countries(rs))|
  }

  /** The values of the three cards. */
  datatype StatCards = StatCards(total: nat, countries: nat, sent: nat)

  function Cards(rs: seq<Recipient>): StatCards {
    StatCards(|rs|, UniqueCountries(rs), 0)
  }

  /** There are at most as many countries as records, none exactly when
      there is no record, and no email is ever reported sent. */
  lemma CardsBounds(rs: seq<Recipient>)
    ensures Cards(rs).total == |rs|
    ensures Cards(rs).countries <= Cards(rs).total
    ensures Cards(rs).countries == 0 <==> rs == []
    ensures Cards(rs).sent == 0
  {
    DistinctEmpty(Countries(rs));
  }

  /** The countries other than the empty one are the named countries of the directory page. */
  lemma NonEmptyCountries(rs: seq<Recipient>)
    ensures Distinct(Filter(Countries(rs), (c: string) => c != [])) == NamedCountries(rs)
  {
    assert Countries(rs) == Map(rs, (r: Recipient) => r.country);
  }

  lemma EmptyCountryPresent(rs: seq<Recipient>)
    ensures [] in Countries(rs) <==> exists m :: 0 <= m < |rs| && rs[m].country == []
  {
    if exists m :: 0 <= m < |rs| && rs[m].country == [] {
      var m :| 0 <= m < |rs| && rs[m].country == [];
      assert Countries(rs)[m] == [];
    }
  }

  /** Unlike the directory page, this count includes the empty country as
      a value of its own. */
  lemma EmptyCountryCounts(rs: seq<Recipient>)
    ensures UniqueCountries(rs) == |NamedCountries(rs)| + (if exists m :: 0 <= m < |rs| && rs[m].country == [] then 1 else 0)
  {
    DistinctWithout(Countries(rs), [], (c: string) => c != []);
    NonEmptyCountries(rs);
    EmptyCountryPresent(rs);
  }
}
