/**
 * The substring search over the recipient list, shared by the recipient
 * list and the recipient directory page.
 */
module RecipientsList {
  import opened Text
  import opened Seqs
  import opened Types

  /** A record matches when the lower-cased term occurs in its lower-cased
      name, email or country. */
  predicate Matches(r: Recipient, term: string) {
    var t := Lower(term);
    Contains(Lower(r.name), t) || Contains(Lower(r.email), t) || Contains(Lower(r.country), t)
  }

  /** The records kept for a search term, in list order. */
  function Search(rs: seq<Recipient>, term: string): (r: seq<Recipient>)
    ensures IsSubsequence(r, rs)
    ensures forall i :: 0 <= i < |r| ==> Matches(r[i], term)
    ensures forall i :: 0 <= i < |rs| && Matches(rs[i], term) ==> rs[i] in r
    ensures forall x :: multiset(r)[x] == if Matches(x, term) then multiset(rs)[x] else 0
  {
    FilterSubsequence(rs, (x: Recipient) => Matches(x, term));
    FilterMultisetAll(rs, (x: Recipient) => Matches(x, term));
    Filter(rs, (x: Recipient) => Matches(x, term))
  }

  /** A record is in the result exactly when it is in the list and matches. */
  lemma SearchIff(rs: seq<Recipient>, term: string, x: Recipient)
    ensures x in Search(rs, term) <==> x in rs && Matches(x, term)
  {
    if x in rs && Matches(x, term) {
      var i :| 0 <= i < |rs| && rs[i] == x;
    }
    if x in Search(rs, term) {
      var j :| 0 <= j < |Search(rs, term)| && Search(rs, term)[j] == x;
    }
  }

  /** The empty term keeps every record. */
  lemma SearchEmptyTerm(rs: seq<Recipient>)
    ensures Search(rs, "") == rs
  {
    forall x | x in rs ensures Matches(x, "") {
      ContainsEmpty(Lower(x.name));
    }
    FilterKeepsAll(rs, (x: Recipient) => Matches(x, ""));
  }

  /** Upper and lower case in the term make no difference. */
  lemma SearchCaseInsensitive(rs: seq<Recipient>, term: string)
    ensures Search(rs, Lower(term)) == Search(rs, term)
  {
    LowerIdempotent(term);
    FilterCongruent(rs, (x: Recipient) => Matches(x, Lower(term)), (x: Recipient) => Matches(x, term));
  }

  /** A record matching a longer term matches every term inside it. */
  lemma MatchesShorter(r: Recipient, longer: string, shorter: string)
    requires Contains(longer, shorter) && Matches(r, longer)
    ensures Matches(r, shorter)
  {
    var t, u := Lower(longer), Lower(shorter);
    ContainsLower(longer, shorter);
    if Contains(Lower(r.name), t) {
      ContainsTransitive(Lower(r.name), t, u);
    } else if Contains(Lower(r.email), t) {
      ContainsTransitive(Lower(r.email), t, u);
    } else {
      ContainsTransitive(Lower(r.country), t, u);
    }
  }

  /** Typing more narrows the search: a term that extends another keeps a
      subsequence of what the shorter one keeps. */
  lemma SearchMonotone(rs: seq<Recipient>, longer: string, shorter: string)
    requires Contains(longer, shorter)
    ensures IsSubsequence(Search(rs, longer), Search(rs, shorter))
    ensures |Search(rs, longer)| <= |Search(rs, shorter)|
  {
    forall x | x in rs && Matches(x, longer) ensures Matches(x, shorter) {
      MatchesShorter(x, longer, shorter);
    }
    FilterMonotone(rs, (x: Recipient) => Matches(x, shorter), (x: Recipient) => Matches(x, longer));
    SubsequenceLength(Search(rs, longer), Search(rs, shorter));
  }
}
