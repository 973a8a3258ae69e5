/**
 * The help page: the category list, the questions kept by the category
 * and search filters, and the set of open answers.
 */
module Faq {
  import opened Wrappers
  import opened Text
  import opened Seqs

  datatype FaqItem = FaqItem(question: string, answer: string, category: string)

  function Categories(data: seq<FaqItem>): seq<string> {
    Distinct(Map(data, (item: FaqItem) => item.category))
  }

  /** `Array.from(new Set(faqData.map(item => item.category)))`: each
      category once, in order of first occurrence. */
  lemma CategoriesOnce(data: seq<FaqItem>, c: string)
    ensures NoDup(Categories(data))
    ensures c in Categories(data) <==> exists m :: 0 <= m < |data| && data[m].category == c
  {
    var cats := Map(data, (item: FaqItem) => item.category);
    DistinctNoDup(cats);
    if exists m :: 0 <= m < |data| && data[m].category == c {
      var m :| 0 <= m < |data| && data[m].category == c;
      assert cats[m] == c;
    }
    if c in Categories(data) {
      var j :| 0 <= j < |cats| && cats[j] == c;
      assert data[j].category == c;
    }
  }

  /** The category test: a missing or empty selection lets every item through. */
  predicate InCategory(item: FaqItem, selected: Option<string>) {
    selected.None? || selected.value == "" || item.category == selected.value
  }

  /** The search test: an empty term lets every item through; otherwise
      the question or the answer contains it, ignoring case. */
  predicate MatchesTerm(item: FaqItem, term: string) {
    term == "" || Contains(Lower(item.question), Lower(term)) || Contains(Lower(item.answer), Lower(term))
  }

  predicate Passes(item: FaqItem, selected: Option<string>, term: string) {
    InCategory(item, selected) && MatchesTerm(item, term)
  }

  /** `filteredFAQ`. */
  function Filtered(data: seq<FaqItem>, selected: Option<string>, term: string): (r: seq<FaqItem>)
    ensures IsSubsequence(r, data)
    ensures forall i :: 0 <= i < |r| ==> Passes(r[i], selected, term)
    ensures forall i :: 0 <= i < |data| && Passes(data[i], selected, term) ==> data[i] in r
    ensures forall x :: multiset(r)[x] == if Passes(x, selected, term) then multiset(data)[x] else 0
  {
    FilterSubsequence(data, (item: FaqItem) => Passes(item, selected, term));
    FilterMultisetAll(data, (item: FaqItem) => Passes(item, selected, term));
    Filter(data, (item: FaqItem) => Passes(item, selected, term))
  }

  /** An item is listed exactly when it passes both tests. */
  lemma FilteredIff(data: seq<FaqItem>, selected: Option<string>, term: string, x: FaqItem)
    ensures x in Filtered(data, selected, term) <==> x in data && Passes(x, selected, term)
  {
    var r := Filtered(data, selected, term);
    if x in data && Passes(x, selected, term) {
      var i :| 0 <= i < |data| && data[i] == x;
    }
    if x in r {
      var j :| 0 <= j < |r| && r[j] == x;
    }
  }

  /** With no category and no term, every question is listed. */
  lemma FilteredAll(data: seq<FaqItem>)
    ensures Filtered(data, None, "") == data
  {
    FilterKeepsAll(data, (item: FaqItem) => Passes(item, None, ""));
  }

  /** A selected category keeps only its own items. */
  lemma FilteredCategory(data: seq<FaqItem>, c: string, term: string, i: nat)
    requires c != "" && i < |Filtered(data, Some(c), term)|
    ensures Filtered(data, Some(c), term)[i].category == c
  {
  }

  /** Upper and lower case in the term make no difference. */
  lemma FilteredCaseInsensitive(data: seq<FaqItem>, selected: Option<string>, term: string)
    ensures Filtered(data, selected, Lower(term)) == Filtered(data, selected, term)
  {
    LowerIdempotent(term);
    assert Lower(term) == "" <==> term == "";
    FilterCongruent(data, (item: FaqItem) => Passes(item, selected, Lower(term)),
      (item: FaqItem) => Passes(item, selected, term));
  }

  /** `toggleItem`: an open index is closed, a closed one is opened at the end. */
  function ToggleItem(open: seq<int>, index: int): seq<int> {
    if index in open then Filter(open, (i: int) => i != index) else open + [index]
  }

  /** Toggling flips the index and leaves every other index as it was;
      toggling twice restores which items are open. */
  lemma ToggleItemFlips(open: seq<int>, index: int, other: int)
    ensures index in ToggleItem(open, index) <==> index !in open
    ensures other != index ==> (other in ToggleItem(open, index) <==> other in open)
    ensures other in ToggleItem(ToggleItem(open, index), index) <==> other in open
  {
    ToggleMembership(open, index, other);
    ToggleMembership(open, index, index);
    ToggleMembership(ToggleItem(open, index), index, other);
  }

  lemma ToggleMembership(open: seq<int>, index: int, other: int)
    ensures other in ToggleItem(open, index) <==> if other == index then index !in open else other in open
  {
    if index in open && other != index && other in open {
      var i :| 0 <= i < |open| && open[i] == other;
    }
  }

  /** An index appears at most once in the open list, if it did before. */
  lemma ToggleItemNoDup(open: seq<int>, index: int)
    requires NoDup(open)
    ensures NoDup(ToggleItem(open, index))
  {
    if index in open {
      FilterNoDup(open, (i: int) => i != index);
    }
  }
}
