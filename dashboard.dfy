/**
 * The dashboard: the per-country breakdown of the recipients (a count per
 * country label, sorted by count, with a rounded percentage), the
 * recipients a send would target for the selected countries, and the
 * inputs handed to the email form and the preview.
 */
module Dashboard {
  import opened Seqs
  import opened Types

  /** The label a record with no country is counted under. */
  const Undefined: string := "Non défini"

  /** `recipient.country || "Non défini"`. */
  function Label(r: Recipient): (l: string)
    ensures l != []
    ensures r.country != [] ==> l == r.country
    ensures r.country == [] ==> l == Undefined
  {
    if r.country == [] then Undefined else r.country
  }

  function Labels(rs: seq<Recipient>): seq<string> {
    Map(rs, Label)
  }

  /** How many records carry the label `l`. */
  function LabelCount(rs: seq<Recipient>, l: string): nat {
    multiset(Labels(rs))[l]
  }

  /** A `[country, count]` entry of the counting map. */
  datatype Entry = Entry(country: string, count: int)

  /** `Array.from(stats.entries())`: one entry per label, in the order the
      labels were first met. */
  function Entries(rs: seq<Recipient>): seq<Entry> {
    Map(Distinct(Labels(rs)), (l: string) => Entry(l, LabelCount(rs, l)))
  }

  /** The sort key: the comparator `b[1] - a[1]` orders by count, largest first. */
  function Rank(e: Entry): int {
    -e.count
  }

  /** A row of the breakdown. */
  datatype CountryStat = CountryStat(country: string, count: int, percentage: int)

  /** `Math.round(count / total * 100) || 0`: the share in percent, rounded
      half up, and 0 when there is no record (where the division gives NaN). */
  function Percentage(count: int, total: int): int {
    if total <= 0 then 0 else (200 * count + total) / (2 * total)
  }

  function ToStat(e: Entry, total: int): CountryStat {
    CountryStat(e.country, e.count, Percentage(e.count, total))
  }

  /** `countryStats`: the entries sorted by descending count (stably), with percentages. */
  function CountryStats(rs: seq<Recipient>): seq<CountryStat> {
    Map(SortBy(Entries(rs), Rank), (e: Entry) => ToStat(e, |rs|))
  }

  /** The labels of the breakdown, as handed to the email form. */
  function AvailableCountries(rs: seq<Recipient>): seq<string> {
    Map(CountryStats(rs), (s: CountryStat) => s.country)
  }

  // ---------------------------------------------------------------------
  // The counting loop

  /** `stats.get(l) || 0`: an absent label reads as 0. */
  function Get(stats: map<string, int>, l: string): int {
    if l in stats then stats[l] else 0
  }

  /** `stats.set(l, (stats.get(l) || 0) + 1)`. */
  function Bump(stats: map<string, int>, l: string): map<string, int> {
    stats[l := Get(stats, l) + 1]
  }

  /** The counting map after the records `seen`, counted from the front. */
  ghost function Counts(seen: seq<Recipient>): map<string, int> {
    if seen == [] then map[] else Bump(Counts(seen[..|seen| - 1]), Label(seen[|seen| - 1]))
  }

  lemma LabelsSnoc(seen: seq<Recipient>, r: Recipient, l: string)
    ensures Labels(seen + [r]) == Labels(seen) + [Label(r)]
    ensures LabelCount(seen + [r], l) == LabelCount(seen, l) + (if l == Label(r) then 1 else 0)
  {
    assert Labels(seen + [r]) == Labels(seen) + [Label(r)];
  }

  lemma {:induction false} CountsKeys(seen: seq<Recipient>)
    ensures forall l :: l in Counts(seen) <==> l in Labels(seen)
  {
    if seen != [] {
      var front, r := seen[..|seen| - 1], seen[|seen| - 1];
      assert seen == front + [r];
      CountsKeys(front);
      LabelsSnoc(front, r, Label(r));
    }
  }

  lemma {:induction false} CountsValue(seen: seq<Recipient>, l: string)
    requires l in Counts(seen)
    ensures Counts(seen)[l] == LabelCount(seen, l)
  {
    var front, r := seen[..|seen| - 1], seen[|seen| - 1];
    assert seen == front + [r];
    LabelsSnoc(front, r, l);
    CountsKeys(front);
    if l in Counts(front) {
      CountsValue(front, l);
    } else {
      assert l !in multiset(Labels(front));
    }
  }

  /** One step of the `forEach`: the record at position `i` adds its label
      to the key order when the label is new, and bumps its count. */
  lemma CountStep(rs: seq<Recipient>, i: nat, order: seq<string>, stats: map<string, int>,
                  order': seq<string>, stats': map<string, int>)
    requires i < |rs| && order == Distinct(Labels(rs[..i])) && stats == Counts(rs[..i])
    requires order' == if Label(rs[i]) in stats then order else order + [Label(rs[i])]
    requires stats' == Bump(stats, Label(rs[i]))
    ensures order' == Distinct(Labels(rs[..i + 1])) && stats' == Counts(rs[..i + 1])
  {
    PrefixSnoc(rs, i);
    LabelsSnoc(rs[..i], rs[i], Label(rs[i]));
    CountsKeys(rs[..i]);
    DistinctSnoc(Labels(rs[..i]), Label(rs[i]));
  }

  /** After the last record, the map holds every label's count. */
  lemma CountedAll(rs: seq<Recipient>, order: seq<string>, stats: map<string, int>)
    requires order == Distinct(Labels(rs[..|rs|])) && stats == Counts(rs[..|rs|])
    ensures order == Distinct(Labels(rs))
    ensures forall l :: l in stats <==> l in order
    ensures forall l :: l in stats ==> stats[l] == LabelCount(rs, l)
  {
    assert rs[..|rs|] == rs;
    CountsKeys(rs);
    forall l | l in stats ensures stats[l] == LabelCount(rs, l) {
      CountsValue(rs, l);
    }
  }

  /** The `forEach` over the records: `stats.set(l, (stats.get(l) || 0) + 1)`.
      A `Map` lists its keys in insertion order, returned as `order`. */
  method CountByLabel(rs: seq<Recipient>) returns (order: seq<string>, stats: map<string, int>)
    ensures order == Distinct(Labels(rs))
    ensures forall l :: l in stats <==> l in order
    ensures forall l :: l in stats ==> stats[l] == LabelCount(rs, l)
  {
    order, stats := [], map[];
    var i := 0;
    while i < |rs|
      invariant 0 <= i <= |rs|
      invariant order == Distinct(Labels(rs[..i])) && stats == Counts(rs[..i])
    {
      var l := Label(rs[i]);
      ghost var order0, stats0 := order, stats;
      if l !in stats {
        order := order + [l];
      }
      stats := stats[l := Get(stats, l) + 1];
      CountStep(rs, i, order0, stats0, order, stats);
      i := i + 1;
    }
    CountedAll(rs, order, stats);
  }

  /** The `countryStats` memo: count, list the entries, sort, add percentages. */
  method ComputeCountryStats(rs: seq<Recipient>) returns (result: seq<CountryStat>)
    ensures result == CountryStats(rs)
  {
    var order, stats := CountByLabel(rs);
    var entries := Map(order, (l: string) => Entry(l, if l in stats then stats[l] else 0));
    assert entries == Entries(rs);
    var sorted := SortBy(entries, Rank);
    result := Map(sorted, (e: Entry) => ToStat(e, |rs|));
  }

  // ---------------------------------------------------------------------
  // Properties of the breakdown

  /** A label's count is the number of records carrying it. */
  lemma LabelCountRecords(rs: seq<Recipient>, l: string)
    ensures LabelCount(rs, l) == |Filter(rs, (r: Recipient) => Label(r) == l)|
    ensures LabelCount(rs, l) <= |rs|
  {
    FilterKeyCount(rs, Label, l, (r: Recipient) => Label(r) == l);
  }

  /** Every sorted entry is one of the entries. */
  lemma SortedEntry(rs: seq<Recipient>, i: nat)
    requires i < |SortBy(Entries(rs), Rank)|
    ensures SortBy(Entries(rs), Rank)[i] in Entries(rs)
  {
    assert SortBy(Entries(rs), Rank)[i] in multiset(Entries(rs));
  }

  /** A row of the breakdown is a label of some record, with the number of
      records carrying it. */
  lemma StatRow(rs: seq<Recipient>, i: nat)
    requires i < |CountryStats(rs)|
    ensures CountryStats(rs)[i].country in Labels(rs)
    ensures CountryStats(rs)[i].count == LabelCount(rs, CountryStats(rs)[i].country)
    ensures 1 <= CountryStats(rs)[i].count <= |rs|
    ensures CountryStats(rs)[i].percentage == Percentage(CountryStats(rs)[i].count, |rs|)
  {
    SortedEntry(rs, i);
    var s := CountryStats(rs)[i];
    assert s.country in multiset(Labels(rs));
    LabelCountRecords(rs, s.country);
  }

  /** An entry holds a label of some record and that label's count. */
  lemma EntryIsLabel(rs: seq<Recipient>, e: Entry)
    requires e in Entries(rs)
    ensures e.country in Labels(rs)
    ensures e.count == LabelCount(rs, e.country)
  {
  }

  lemma EntriesNoDup(rs: seq<Recipient>)
    ensures NoDup(Entries(rs))
  {
    DistinctNoDup(Labels(rs));
  }

  /** The breakdown has one row per label. */
  lemma StatsLength(rs: seq<Recipient>)
    ensures |CountryStats(rs)| == |Distinct(Labels(rs))|
    ensures CountryStats(rs) == [] <==> rs == []
  {
    var sorted := SortBy(Entries(rs), Rank);
    assert |multiset(sorted)| == |multiset(Entries(rs))|;
    if rs != [] {
      assert Labels(rs)[0] in Distinct(Labels(rs));
    }
  }

  /** Each label of a record is offered. */
  lemma LabelOffered(rs: seq<Recipient>, l: string) returns (i: nat)
    requires l in Labels(rs)
    ensures i < |CountryStats(rs)| && CountryStats(rs)[i].country == l
  {
    var sorted := SortBy(Entries(rs), Rank);
    var e := Entry(l, LabelCount(rs, l));
    var k :| 0 <= k < |Distinct(Labels(rs))| && Distinct(Labels(rs))[k] == l;
    assert Entries(rs)[k] == e;
    assert e in multiset(sorted);
    i :| 0 <= i < |sorted| && sorted[i] == e;
  }

  /** The form is offered exactly the labels of the records; an empty
      country is offered as "Non défini", never as "". */
  lemma AvailableCountriesAreLabels(rs: seq<Recipient>, l: string)
    ensures l in AvailableCountries(rs) <==> l in Labels(rs)
    ensures "" !in AvailableCountries(rs)
  {
    var offered := AvailableCountries(rs);
    if l in offered {
      var i :| 0 <= i < |offered| && offered[i] == l;
      StatRow(rs, i);
    }
    if l in Labels(rs) {
      var i := LabelOffered(rs, l);
      assert offered[i] == l;
    }
    if "" in offered {
      var i :| 0 <= i < |offered| && offered[i] == "";
      StatRow(rs, i);
    }
  }

  lemma SortedNoDup(rs: seq<Recipient>)
    ensures NoDup(SortBy(Entries(rs), Rank))
  {
    EntriesNoDup(rs);
    NoDupPermutation(Entries(rs), SortBy(Entries(rs), Rank));
  }

  /** Two rows of the breakdown with the same label are the same row. */
  lemma SameLabelSameRow(rs: seq<Recipient>, i: nat, j: nat)
    requires i < |CountryStats(rs)| && j < |CountryStats(rs)|
    requires CountryStats(rs)[i].country == CountryStats(rs)[j].country
    ensures i == j
  {
    var sorted := SortBy(Entries(rs), Rank);
    SortedNoDup(rs);
    SortedEntry(rs, i);
    SortedEntry(rs, j);
    EntryIsLabel(rs, sorted[i]);
    EntryIsLabel(rs, sorted[j]);
    assert sorted[i] == sorted[j];
  }

  /** Each label is offered once. */
  lemma AvailableCountriesNoDup(rs: seq<Recipient>)
    ensures NoDup(AvailableCountries(rs))
  {
    var offered := AvailableCountries(rs);
    forall i, j | 0 <= i < j < |offered| ensures offered[i] != offered[j] {
      if offered[i] == offered[j] {
        SameLabelSameRow(rs, i, j);
      }
    }
  }

  /** The counts add up to the number of records. */
  lemma CountsSum(rs: seq<Recipient>)
    ensures SumBy(CountryStats(rs), (s: CountryStat) => s.count) == |rs|
  {
    var sorted := SortBy(Entries(rs), Rank);
    var labels := Distinct(Labels(rs));
    SumByPointwise(CountryStats(rs), (s: CountryStat) => s.count, sorted, (e: Entry) => e.count);
    SumByPermutation(sorted, Entries(rs), (e: Entry) => e.count);
    SumByPointwise(Entries(rs), (e: Entry) => e.count, labels, (l: string) => multiset(Labels(rs))[l]);
    DistinctCountsSum(Labels(rs));
  }

  /** Rows are listed by descending count. */
  lemma StatsDescending(rs: seq<Recipient>, i: nat, j: nat)
    requires i < j < |CountryStats(rs)|
    ensures CountryStats(rs)[i].count >= CountryStats(rs)[j].count
  {
    var sorted := SortBy(Entries(rs), Rank);
    assert Rank(sorted[i]) <= Rank(sorted[j]);
  }

  /** The sort is stable: rows with the same count keep the order in which
      their labels first occur among the records. */
  lemma StatsTiesInFirstOccurrenceOrder(rs: seq<Recipient>, i: nat, j: nat)
    requires i < j < |CountryStats(rs)|
    requires CountryStats(rs)[i].count == CountryStats(rs)[j].count
    ensures CountryStats(rs)[i].country in Labels(rs) && CountryStats(rs)[j].country in Labels(rs)
    ensures IndexOf(Labels(rs), CountryStats(rs)[i].country) < IndexOf(Labels(rs), CountryStats(rs)[j].country)
  {
    var sorted := SortBy(Entries(rs), Rank);
    var a, b := SortByStableOrder(Entries(rs), Rank, i, j);
    DistinctOrder(Labels(rs), a, b);
  }

  /** Euclidean division by a positive divisor brackets the dividend. */
  lemma DivBrackets(n: int, d: int)
    requires d > 0
    ensures d * (n / d) <= n < d * (n / d) + d
  {
    assert n == d * (n / d) + n % d;
  }

  lemma ScaleBelow(d: int, p: int, q: int)
    requires d > 0 && d * p < d * q
    ensures p < q
  {
  }

  /** `Math.round` of the share: the nearest whole percent, halves rounded
      up, between 0 and 100. */
  lemma PercentageRounds(count: int, total: int)
    requires 0 <= count <= total && total > 0
    ensures 0 <= Percentage(count, total) <= 100
    ensures 200 * count - total < 2 * total * Percentage(count, total) <= 200 * count + total
    ensures count == 0 ==> Percentage(count, total) == 0
    ensures count == total ==> Percentage(count, total) == 100
  {
    var n, d := 200 * count + total, 2 * total;
    var p := n / d;
    DivBrackets(n, d);
    assert Percentage(count, total) == p;
    ScaleBelow(d, p, 101);
    ScaleBelow(d, -1, p);
    if count == 0 {
      ScaleBelow(d, p, 1);
    }
    if count == total {
      assert d * 100 <= n < d * 101;
      ScaleBelow(d, 99, p);
    }
  }

  /** Every row's percentage is a share of the records between 0 and 100. */
  lemma StatsPercentages(rs: seq<Recipient>, i: nat)
    requires i < |CountryStats(rs)|
    ensures 0 <= CountryStats(rs)[i].percentage <= 100
    ensures 200 * CountryStats(rs)[i].count - |rs| < 2 * |rs| * CountryStats(rs)[i].percentage <= 200 * CountryStats(rs)[i].count + |rs|
  {
    StatRow(rs, i);
    PercentageRounds(CountryStats(rs)[i].count, |rs|);
  }

  // ---------------------------------------------------------------------
  // The send targets

  /** `targetRecipients` in `handleSubmit`: with a selection, the records
      whose `country || ""` (that is, whose country) is selected; without
      one, every record. */
  function Targets(rs: seq<Recipient>, selected: seq<string>): seq<Recipient> {
    if |selected| > 0 then Filter(rs, (r: Recipient) => r.country in selected) else rs
  }

  /** A record is targeted exactly when no country is selected or its own
      country string is, and the targets keep the list order. */
  lemma TargetsIff(rs: seq<Recipient>, selected: seq<string>, x: Recipient)
    ensures x in Targets(rs, selected) <==> x in rs && (selected == [] || x.country in selected)
    ensures IsSubsequence(Targets(rs, selected), rs)
    ensures multiset(Targets(rs, selected))[x] ==
      if selected == [] || x.country in selected then multiset(rs)[x] else 0
  {
    FilterSubsequence(rs, (r: Recipient) => r.country in selected);
    FilterMultiset(rs, (r: Recipient) => r.country in selected, x);
    SubsequenceRefl(rs);
    if x in rs && x.country in selected {
      var i :| 0 <= i < |rs| && rs[i] == x;
    }
  }

  /** The filter compares the raw country while the form offers labels:
      whatever offered labels are selected, "Non défini" included, no
      record without a country is targeted. */
  lemma UnnamedNeverTargeted(rs: seq<Recipient>, selected: seq<string>, x: Recipient)
    requires selected != []
    requires forall i :: 0 <= i < |selected| ==> selected[i] in AvailableCountries(rs)
    requires x in Targets(rs, selected)
    ensures x.country != []
  {
    AvailableCountriesAreLabels(rs, "");
    TargetsIff(rs, selected, x);
  }

  /** Selecting every offered label targets exactly the records with a country. */
  lemma TargetsAllOffered(rs: seq<Recipient>)
    requires rs != []
    ensures Targets(rs, AvailableCountries(rs)) == Filter(rs, (r: Recipient) => r.country != [])
  {
    var offered := AvailableCountries(rs);
    StatsLength(rs);
    forall x | x in rs ensures (x.country in offered) == (x.country != []) {
      AvailableCountriesAreLabels(rs, Label(x));
      AvailableCountriesAreLabels(rs, "");
    }
    FilterCongruent(rs, (r: Recipient) => r.country in offered, (r: Recipient) => r.country != []);
  }

  /** A list with one record without a country: "Non défini" is offered,
      and selecting it targets nobody. */
  lemma UndefinedSelectionExample()
    ensures var rs := [Recipient("Ana", "ana@example.com", "")];
      Undefined in AvailableCountries(rs) && Targets(rs, [Undefined]) == []
  {
    var rs := [Recipient("Ana", "ana@example.com", "")];
    AvailableCountriesAreLabels(rs, Undefined);
    assert Labels(rs)[0] == Undefined;
    assert rs[1..] == [];
  }

  // ---------------------------------------------------------------------
  // The form and the preview

  /** The form is disabled when there is no record. */
  function Disabled(rs: seq<Recipient>): bool {
    |rs| == 0
  }

  /** The form is disabled exactly when it is offered no country. */
  lemma DisabledIffNothingOffered(rs: seq<Recipient>)
    ensures Disabled(rs) <==> AvailableCountries(rs) == []
  {
    StatsLength(rs);
  }

  /** The record shown when the list is empty. */
  const Example: Recipient := Recipient("Example", "example@email.com", "France")

  /** `recipients[0] || {...}`: a record object is always truthy, so the
      fallback is used only for an empty list. */
  function Preview(rs: seq<Recipient>): Recipient {
    if |rs| > 0 then rs[0] else Example
  }

  /** The preview shows one of the records, whose label the breakdown
      lists, or the example record when there is none. */
  lemma PreviewIsRecipient(rs: seq<Recipient>)
    ensures rs != [] ==> Preview(rs) in rs && Label(Preview(rs)) in AvailableCountries(rs)
    ensures rs == [] ==> Preview(rs) == Example
  {
    if rs != [] {
      AvailableCountriesAreLabels(rs, Label(rs[0]));
    }
  }
}
