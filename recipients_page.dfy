/**
 * The recipient directory page: records grouped by lower-cased email to
 * find duplicates, the count of named countries, the list shown (optionally
 * restricted to duplicates, then searched), and the email lists handed to
 * the merge callback.
 */
module RecipientsPage {
  import opened Text
  import opened Seqs
  import opened Types
  import opened ObjectKeys
  import opened RecipientsList

  /** The grouping key: the email, lower-cased. */
  function EmailKey(r: Recipient): string {
    Lower(r.email)
  }

  function EmailKeys(rs: seq<Recipient>): seq<string> {
    Map(rs, EmailKey)
  }

  /** How many records have the key `k`. */
  function KeyCount(rs: seq<Recipient>, k: string): nat {
    multiset(EmailKeys(rs))[k]
  }

  /** The records with key `k`, in list order: what the reduce pushes into `acc[k]`. */
  function Members(rs: seq<Recipient>, k: string): seq<Recipient> {
    Filter(rs, (r: Recipient) => EmailKey(r) == k)
  }

  lemma MembersCount(rs: seq<Recipient>, k: string)
    ensures |Members(rs, k)| == KeyCount(rs, k)
  {
    FilterKeyCount(rs, EmailKey, k, (r: Recipient) => EmailKey(r) == k);
  }

  lemma KeysSnoc(rs: seq<Recipient>, r: Recipient)
    ensures EmailKeys(rs + [r]) == EmailKeys(rs) + [EmailKey(r)]
  {
  }

  lemma MembersSnoc(rs: seq<Recipient>, r: Recipient, k: string)
    ensures Members(rs + [r], k) == Members(rs, k) + (if EmailKey(r) == k then [r] else [])
  {
    FilterAppend(rs, [r], (x: Recipient) => EmailKey(x) == k);
  }

  /** The accumulator after one more record: `acc[key]` created empty
      when missing, then the record pushed onto it. */
  function Push(groups: map<string, seq<Recipient>>, key: string, r: Recipient): map<string, seq<Recipient>> {
    groups[key := (if key in groups then groups[key] else []) + [r]]
  }

  /** The accumulator after the records `seen`: the reduce, from the front. */
  ghost function Grouped(seen: seq<Recipient>): map<string, seq<Recipient>> {
    if seen == [] then map[] else Push(Grouped(seen[..|seen| - 1]), EmailKey(seen[|seen| - 1]), seen[|seen| - 1])
  }

  lemma {:induction false} GroupedKeys(seen: seq<Recipient>)
    ensures forall k :: k in Grouped(seen) <==> k in EmailKeys(seen)
  {
    if seen != [] {
      var front, r := seen[..|seen| - 1], seen[|seen| - 1];
      assert seen == front + [r];
      GroupedKeys(front);
      KeysSnoc(front, r);
    }
  }

  lemma {:induction false} GroupedMembers(seen: seq<Recipient>, k: string)
    requires k in Grouped(seen)
    ensures Grouped(seen)[k] == Members(seen, k)
  {
    var front, r := seen[..|seen| - 1], seen[|seen| - 1];
    assert seen == front + [r];
    MembersSnoc(front, r, k);
    GroupedKeys(front);
    if k in Grouped(front) {
      GroupedMembers(front, k);
    } else {
      FilterNone(front, (x: Recipient) => EmailKey(x) == k);
    }
  }

  /** One step of the reduce: the record at position `i` creates its key
      when the key is new, and is pushed onto its array. */
  lemma GroupStep(rs: seq<Recipient>, i: nat, created: seq<string>, groups: map<string, seq<Recipient>>,
                  created': seq<string>, groups': map<string, seq<Recipient>>)
    requires i < |rs| && created == Distinct(EmailKeys(rs[..i])) && groups == Grouped(rs[..i])
    requires created' == if EmailKey(rs[i]) in groups then created else created + [EmailKey(rs[i])]
    requires groups' == Push(groups, EmailKey(rs[i]), rs[i])
    ensures created' == Distinct(EmailKeys(rs[..i + 1])) && groups' == Grouped(rs[..i + 1])
  {
    PrefixSnoc(rs, i);
    KeysSnoc(rs[..i], rs[i]);
    GroupedKeys(rs[..i]);
    DistinctSnoc(EmailKeys(rs[..i]), EmailKey(rs[i]));
  }

  /** The `reduce` into a plain object: the keys in the order they were
      created, and for each key the array of its records. Both memoised
      blocks of the page run this same reduction. */
  method GroupByEmail(rs: seq<Recipient>) returns (created: seq<string>, groups: map<string, seq<Recipient>>)
    ensures created == Distinct(EmailKeys(rs))
    ensures forall k :: k in groups <==> k in created
    ensures forall k :: k in groups ==> groups[k] == Members(rs, k)
  {
    created, groups := [], map[];
    var i := 0;
    while i < |rs|
      invariant 0 <= i <= |rs|
      invariant created == Distinct(EmailKeys(rs[..i])) && groups == Grouped(rs[..i])
    {
      var key := EmailKey(rs[i]);
      ghost var created0, groups0 := created, groups;
      if key !in groups {
        created := created + [key];
      }
      groups := groups[key := (if key in groups then groups[key] else []) + [rs[i]]];
      GroupStep(rs, i, created0, groups0, created, groups);
      i := i + 1;
    }
    GroupedAll(rs, created, groups);
  }

  lemma GroupedAll(rs: seq<Recipient>, created: seq<string>, groups: map<string, seq<Recipient>>)
    requires created == Distinct(EmailKeys(rs[..|rs|])) && groups == Grouped(rs[..|rs|])
    ensures created == Distinct(EmailKeys(rs))
    ensures forall k :: k in groups <==> k in created
    ensures forall k :: k in groups ==> groups[k] == Members(rs, k)
  {
    assert rs[..|rs|] == rs;
    GroupedKeys(rs);
    forall k | k in groups ensures groups[k] == Members(rs, k) {
      GroupedMembers(rs, k);
    }
  }

  /** A group: a lower-cased email and its records. */
  datatype DuplicateGroup = DuplicateGroup(email: string, recipients: seq<Recipient>)

  /** `Object.entries(groups)`, in the order the object lists its keys. */
  function Entries(rs: seq<Recipient>): seq<DuplicateGroup> {
    Map(PropertyOrder(Distinct(EmailKeys(rs))), (k: string) => DuplicateGroup(k, Members(rs, k)))
  }

  predicate Repeated(g: DuplicateGroup) {
    |g.recipients| > 1
  }

  /** `duplicateGroups`: the entries with more than one record. */
  function DuplicateGroups(rs: seq<Recipient>): seq<DuplicateGroup> {
    Filter(Entries(rs), Repeated)
  }

  /** `duplicates`: `Object.values(groups)` restricted to arrays of more than one record. */
  function Duplicates(rs: seq<Recipient>): seq<seq<Recipient>> {
    Filter(Map(Entries(rs), (g: DuplicateGroup) => g.recipients), (g: seq<Recipient>) => |g| > 1)
  }

  /** The `duplicateGroups` memo: the reduce, then the entries of size above one. */
  method ComputeDuplicateGroups(rs: seq<Recipient>) returns (gs: seq<DuplicateGroup>)
    ensures gs == DuplicateGroups(rs)
  {
    var created, groups := GroupByEmail(rs);
    var order := PropertyOrder(created);
    var entries := Map(order, (k: string) => DuplicateGroup(k, if k in groups then groups[k] else []));
    forall i | 0 <= i < |order| ensures entries[i] == Entries(rs)[i] {
      PropertyOrderHas(created, order[i]);
    }
    assert entries == Entries(rs);
    gs := Filter(entries, Repeated);
  }

  /** The `duplicates` memo: the reduce, then the values of size above one. */
  method ComputeDuplicates(rs: seq<Recipient>) returns (ds: seq<seq<Recipient>>)
    ensures ds == Duplicates(rs)
  {
    var created, groups := GroupByEmail(rs);
    var order := PropertyOrder(created);
    var values := Map(order, (k: string) => if k in groups then groups[k] else []);
    forall i | 0 <= i < |order| ensures values[i] == Map(Entries(rs), (g: DuplicateGroup) => g.recipients)[i] {
      PropertyOrderHas(created, order[i]);
    }
    assert values == Map(Entries(rs), (g: DuplicateGroup) => g.recipients);
    ds := Filter(values, (g: seq<Recipient>) => |g| > 1);
  }

  /** The two memos agree: `duplicates` holds the records of `duplicateGroups`, group by group. */
  lemma DuplicatesAreGroupRecipients(rs: seq<Recipient>)
    ensures Duplicates(rs) == Map(DuplicateGroups(rs), (g: DuplicateGroup) => g.recipients)
  {
    FilterMap(Entries(rs), (g: DuplicateGroup) => g.recipients, (g: seq<Recipient>) => |g| > 1, Repeated);
  }

  function DuplicateKeys(rs: seq<Recipient>): seq<string> {
    Map(DuplicateGroups(rs), (g: DuplicateGroup) => g.email)
  }

  /** An entry is a key of the object with all of its records. */
  lemma EntryShape(rs: seq<Recipient>, g: DuplicateGroup)
    requires g in Entries(rs)
    ensures g.recipients == Members(rs, g.email) && g.email in EmailKeys(rs)
  {
    var order := PropertyOrder(Distinct(EmailKeys(rs)));
    var i :| 0 <= i < |Entries(rs)| && Entries(rs)[i] == g;
    PropertyOrderHas(Distinct(EmailKeys(rs)), order[i]);
    var j :| 0 <= j < |Distinct(EmailKeys(rs))| && Distinct(EmailKeys(rs))[j] == order[i];
  }

  /** Every key of the list has its entry. */
  lemma KeyEntry(rs: seq<Recipient>, k: string) returns (j: nat)
    requires k in EmailKeys(rs)
    ensures j < |Entries(rs)| && Entries(rs)[j] == DuplicateGroup(k, Members(rs, k))
  {
    var order := PropertyOrder(Distinct(EmailKeys(rs)));
    PropertyOrderHas(Distinct(EmailKeys(rs)), k);
    j :| 0 <= j < |order| && order[j] == k;
  }

  /** A key occurring twice or more has a group. */
  lemma RepeatedKeyGrouped(rs: seq<Recipient>, k: string) returns (i: nat)
    requires KeyCount(rs, k) >= 2
    ensures i < |DuplicateGroups(rs)| && DuplicateGroups(rs)[i] == DuplicateGroup(k, Members(rs, k))
  {
    assert k in multiset(EmailKeys(rs));
    var j := KeyEntry(rs, k);
    MembersCount(rs, k);
    var g := DuplicateGroup(k, Members(rs, k));
    assert Repeated(Entries(rs)[j]);
    i :| 0 <= i < |DuplicateGroups(rs)| && DuplicateGroups(rs)[i] == g;
  }

  /** There is a group for a key exactly when at least two records have it. */
  lemma DuplicateGroupIff(rs: seq<Recipient>, k: string)
    ensures k in DuplicateKeys(rs) <==> KeyCount(rs, k) >= 2
  {
    var dg := DuplicateGroups(rs);
    if k in DuplicateKeys(rs) {
      var i :| 0 <= i < |dg| && dg[i].email == k;
      EntryShape(rs, dg[i]);
      MembersCount(rs, k);
    }
    if KeyCount(rs, k) >= 2 {
      var i := RepeatedKeyGrouped(rs, k);
      assert DuplicateKeys(rs)[i] == k;
    }
  }

  /** A group has as many records as its key occurs, at least two; they
      all have the group's key, every record with that key is among them,
      and they keep their list order. */
  lemma DuplicateGroupMembers(rs: seq<Recipient>, i: nat)
    requires i < |DuplicateGroups(rs)|
    ensures var g := DuplicateGroups(rs)[i];
      |g.recipients| == KeyCount(rs, g.email) >= 2
      && IsSubsequence(g.recipients, rs)
      && (forall j :: 0 <= j < |g.recipients| ==> EmailKey(g.recipients[j]) == g.email)
      && (forall j :: 0 <= j < |rs| && EmailKey(rs[j]) == g.email ==> rs[j] in g.recipients)
  {
    var g := DuplicateGroups(rs)[i];
    EntryShape(rs, g);
    MembersCount(rs, g.email);
    FilterSubsequence(rs, (r: Recipient) => EmailKey(r) == g.email);
  }

  /** Groups have distinct keys and share no record. */
  lemma DuplicateGroupsDisjoint(rs: seq<Recipient>, i: nat, j: nat, x: Recipient)
    requires i < j < |DuplicateGroups(rs)|
    ensures DuplicateGroups(rs)[i].email != DuplicateGroups(rs)[j].email
    ensures !(x in DuplicateGroups(rs)[i].recipients && x in DuplicateGroups(rs)[j].recipients)
  {
    var order := PropertyOrder(Distinct(EmailKeys(rs)));
    DistinctNoDup(EmailKeys(rs));
    PropertyOrderNoDup(Distinct(EmailKeys(rs)));
    var a, b := FilterPositions(Entries(rs), Repeated, i, j);
    assert order[a] != order[b];
    var gi, gj := DuplicateGroups(rs)[i], DuplicateGroups(rs)[j];
    EntryShape(rs, gi);
    EntryShape(rs, gj);
  }

  /** Groups whose key is an array index come first, in ascending numeric order. */
  lemma DuplicateGroupsIndexKeysFirst(rs: seq<Recipient>, i: nat, j: nat)
    requires i < j < |DuplicateGroups(rs)|
    requires IsArrayIndex(DuplicateGroups(rs)[j].email)
    ensures IsArrayIndex(DuplicateGroups(rs)[i].email)
    ensures IndexValue(DuplicateGroups(rs)[i].email) <= IndexValue(DuplicateGroups(rs)[j].email)
  {
    var a, b := FilterPositions(Entries(rs), Repeated, i, j);
    PropertyOrderIndicesFirst(Distinct(EmailKeys(rs)), a, b);
  }

  /** Without array-index keys, the object lists its keys in creation order. */
  lemma NoIndexKeysOrder(rs: seq<Recipient>)
    requires forall m :: 0 <= m < |rs| ==> !IsArrayIndex(EmailKey(rs[m]))
    ensures PropertyOrder(Distinct(EmailKeys(rs))) == Distinct(EmailKeys(rs))
  {
    var keys := EmailKeys(rs);
    var d := Distinct(keys);
    forall m | 0 <= m < |d| ensures !IsArrayIndex(d[m]) {
      var n :| 0 <= n < |keys| && keys[n] == d[m];
    }
    PropertyOrderNoIndices(d);
  }

  /** When no key is an array index, groups come in the order their key
      first occurs in the list. */
  lemma DuplicateGroupsFirstOccurrence(rs: seq<Recipient>, i: nat, j: nat)
    requires forall m :: 0 <= m < |rs| ==> !IsArrayIndex(EmailKey(rs[m]))
    requires i < j < |DuplicateGroups(rs)|
    ensures DuplicateGroups(rs)[i].email in EmailKeys(rs) && DuplicateGroups(rs)[j].email in EmailKeys(rs)
    ensures IndexOf(EmailKeys(rs), DuplicateGroups(rs)[i].email) < IndexOf(EmailKeys(rs), DuplicateGroups(rs)[j].email)
  {
    var d := Distinct(EmailKeys(rs));
    NoIndexKeysOrder(rs);
    var a, b := FilterPositions(Entries(rs), Repeated, i, j);
    assert DuplicateGroups(rs)[i].email == d[a] && DuplicateGroups(rs)[j].email == d[b];
    DistinctOrder(EmailKeys(rs), a, b);
  }

  /** The emails handed to the merge callback by "merge all": every group's
      member emails, group after group. */
  function MergeAllEmails(rs: seq<Recipient>): seq<string> {
    Flatten(Map(Duplicates(rs), (g: seq<Recipient>) => Map(g, (r: Recipient) => r.email)))
  }

  /** The emails handed to the merge callback for one group. */
  function MergeGroupEmails(g: DuplicateGroup): seq<string> {
    Map(g.recipients, (r: Recipient) => r.email)
  }

  /** The confirmed merge of one duplicate group sends one e-mail per
      member, in the group's order: at least two, each with the group's key. */
  lemma MergeGroupPayload(rs: seq<Recipient>, i: nat)
    requires i < |DuplicateGroups(rs)|
    ensures var g := DuplicateGroups(rs)[i];
      |MergeGroupEmails(g)| == |g.recipients| == KeyCount(rs, g.email) >= 2
      && (forall k :: 0 <= k < |g.recipients| ==>
            MergeGroupEmails(g)[k] == g.recipients[k].email && Lower(MergeGroupEmails(g)[k]) == g.email)
  {
    DuplicateGroupMembers(rs, i);
  }

  /** "Merge all" sends the per-group payloads one after the other, in group order. */
  lemma MergeAllIsGroupPayloads(rs: seq<Recipient>)
    ensures MergeAllEmails(rs) == Flatten(Map(DuplicateGroups(rs), MergeGroupEmails))
  {
    DuplicatesAreGroupRecipients(rs);
    var emails := (g: seq<Recipient>) => Map(g, (r: Recipient) => r.email);
    var ds := Map(DuplicateGroups(rs), (g: DuplicateGroup) => g.recipients);
    assert Map(ds, emails) == Map(DuplicateGroups(rs), MergeGroupEmails);
  }

  /** Every email "merge all" sends belongs to a record whose key occurs at least twice. */
  lemma MergeAllSource(rs: seq<Recipient>, e: string) returns (m: nat)
    requires e in MergeAllEmails(rs)
    ensures m < |rs| && rs[m].email == e && KeyCount(rs, EmailKey(rs[m])) >= 2
  {
    MergeAllIsGroupPayloads(rs);
    var dg := DuplicateGroups(rs);
    var payloads := Map(dg, MergeGroupEmails);
    var i := FlattenSource(payloads, e);
    var n :| 0 <= n < |dg[i].recipients| && dg[i].recipients[n].email == e;
    DuplicateGroupMembers(rs, i);
    var x := dg[i].recipients[n];
    EntryShape(rs, dg[i]);
    assert x in Members(rs, dg[i].email);
    m :| 0 <= m < |rs| && rs[m] == x;
  }

  lemma GroupHasRecord(rs: seq<Recipient>, i: nat, m: nat)
    requires i < |DuplicateGroups(rs)| && m < |rs|
    requires EmailKey(rs[m]) == DuplicateGroups(rs)[i].email
    ensures rs[m] in DuplicateGroups(rs)[i].recipients
  {
    EntryShape(rs, DuplicateGroups(rs)[i]);
  }

  /** Every member of a group has its email sent by "merge all". */
  lemma GroupEmailSent(rs: seq<Recipient>, i: nat, x: Recipient)
    requires i < |DuplicateGroups(rs)| && x in DuplicateGroups(rs)[i].recipients
    ensures x.email in MergeAllEmails(rs)
  {
    MergeAllIsGroupPayloads(rs);
    var dg := DuplicateGroups(rs);
    var payloads := Map(dg, MergeGroupEmails);
    var n :| 0 <= n < |dg[i].recipients| && dg[i].recipients[n] == x;
    assert payloads[i][n] == x.email;
    FlattenHas(payloads, i, x.email);
  }

  /** Every record whose key occurs at least twice has its email sent by "merge all". */
  lemma MergeAllCovers(rs: seq<Recipient>, m: nat)
    requires m < |rs| && KeyCount(rs, EmailKey(rs[m])) >= 2
    ensures rs[m].email in MergeAllEmails(rs)
  {
    var dg := DuplicateGroups(rs);
    var k := EmailKey(rs[m]);
    DuplicateGroupIff(rs, k);
    var i :| 0 <= i < |dg| && dg[i].email == k;
    GroupHasRecord(rs, i, m);
    GroupEmailSent(rs, i, rs[m]);
  }

  /** An email is sent by "merge all" exactly when some record has it and
      that record's key occurs at least twice. */
  lemma MergeAllHas(rs: seq<Recipient>, e: string)
    ensures e in MergeAllEmails(rs) <==>
      exists m :: 0 <= m < |rs| && rs[m].email == e && KeyCount(rs, EmailKey(rs[m])) >= 2
  {
    if e in MergeAllEmails(rs) {
      var m := MergeAllSource(rs, e);
    }
    if exists m :: 0 <= m < |rs| && rs[m].email == e && KeyCount(rs, EmailKey(rs[m])) >= 2 {
      var m :| 0 <= m < |rs| && rs[m].email == e && KeyCount(rs, EmailKey(rs[m])) >= 2;
      MergeAllCovers(rs, m);
    }
  }

  /** "Show duplicates": the records whose exact email is one of the duplicate members' emails. */
  function DuplicatesOnly(rs: seq<Recipient>): seq<Recipient> {
    Filter(rs, (r: Recipient) => r.email in MergeAllEmails(rs))
  }

  /** The restriction keeps exactly the records whose key occurs at least
      twice, so every duplicate member survives it. */
  lemma DuplicatesOnlyKeepsRepeatedKeys(rs: seq<Recipient>)
    ensures DuplicatesOnly(rs) == Filter(rs, (r: Recipient) => KeyCount(rs, EmailKey(r)) >= 2)
  {
    forall x | x in rs ensures (x.email in MergeAllEmails(rs)) == (KeyCount(rs, EmailKey(x)) >= 2) {
      MergeAllHas(rs, x.email);
      var m :| 0 <= m < |rs| && rs[m] == x;
    }
    FilterCongruent(rs, (r: Recipient) => r.email in MergeAllEmails(rs),
      (r: Recipient) => KeyCount(rs, EmailKey(r)) >= 2);
  }

  lemma DuplicateMembersShown(rs: seq<Recipient>, i: nat, x: Recipient)
    requires i < |DuplicateGroups(rs)| && x in DuplicateGroups(rs)[i].recipients
    ensures x in DuplicatesOnly(rs)
  {
    var g := DuplicateGroups(rs)[i];
    DuplicateGroupMembers(rs, i);
    EntryShape(rs, g);
    var m :| 0 <= m < |rs| && rs[m] == x;
    DuplicatesOnlyKeepsRepeatedKeys(rs);
  }

  /** `filteredRecipients`: the duplicate restriction when it is on, then the search. */
  function Shown(rs: seq<Recipient>, term: string, showDuplicates: bool): seq<Recipient> {
    Search(if showDuplicates then DuplicatesOnly(rs) else rs, term)
  }

  /** The list shown keeps list order; a record is shown exactly when it
      matches the term and, with duplicates on, its key occurs twice or more. */
  lemma ShownIff(rs: seq<Recipient>, term: string, showDuplicates: bool, x: Recipient)
    ensures IsSubsequence(Shown(rs, term, showDuplicates), rs)
    ensures x in Shown(rs, term, showDuplicates) <==>
      x in rs && Matches(x, term) && (showDuplicates ==> KeyCount(rs, EmailKey(x)) >= 2)
    ensures multiset(Shown(rs, term, showDuplicates))[x] ==
      if Matches(x, term) && (showDuplicates ==> KeyCount(rs, EmailKey(x)) >= 2) then multiset(rs)[x] else 0
  {
    var base := if showDuplicates then DuplicatesOnly(rs) else rs;
    if showDuplicates {
      DuplicatesOnlyKeepsRepeatedKeys(rs);
      FilterMultiset(rs, (r: Recipient) => KeyCount(rs, EmailKey(r)) >= 2, x);
    }
    SearchIff(base, term, x);
    if showDuplicates {
      DuplicatesOnlyKeepsRepeatedKeys(rs);
      FilterSubsequence(rs, (r: Recipient) => r.email in MergeAllEmails(rs));
      SubsequenceTransitive(Shown(rs, term, showDuplicates), base, rs);
      if x in rs && KeyCount(rs, EmailKey(x)) >= 2 {
        var m :| 0 <= m < |rs| && rs[m] == x;
      }
      if x in base {
        var m :| 0 <= m < |base| && base[m] == x;
      }
    } else {
      SubsequenceRefl(rs);
    }
  }

  /** The countries named by the records, each once (the page's `countryStats` counts them). */
  function NamedCountries(rs: seq<Recipient>): seq<string> {
    Distinct(Filter(Map(rs, (r: Recipient) => r.country), (c: string) => c != []))
  }

  /** A country is counted exactly when it is not empty and some record has it. */
  lemma NamedCountriesIff(rs: seq<Recipient>, c: string)
    ensures c in NamedCountries(rs) <==> c != [] && exists m :: 0 <= m < |rs| && rs[m].country == c
    ensures |NamedCountries(rs)| <= |rs|
  {
    var countries := Map(rs, (r: Recipient) => r.country);
    var named := Filter(countries, (c: string) => c != []);
    if c in NamedCountries(rs) {
      var i :| 0 <= i < |NamedCountries(rs)| && NamedCountries(rs)[i] == c;
      var j :| 0 <= j < |countries| && countries[j] == c;
    }
    if c != [] && exists m :: 0 <= m < |rs| && rs[m].country == c {
      var m :| 0 <= m < |rs| && rs[m].country == c;
      assert countries[m] == c;
      var j :| 0 <= j < |named| && named[j] == c;
    }
  }
}
