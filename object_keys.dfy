/**
 * The order in which `Object.keys`, `Object.values` and `Object.entries`
 * list the string keys of a plain object (section 10.1.11.1,
 * OrdinaryOwnPropertyKeys, of ECMA-262): first the keys that are array
 * indices, in ascending numeric order, then the other keys in the order
 * they were first created.
 */
module ObjectKeys {
  import opened Text
  import opened Seqs

  /** The largest array index, 2^32 - 2. */
  const MaxArrayIndex: nat := 4294967294

  /** A key that is an array index: the canonical decimal spelling of a
      number below 2^32 - 1 (no sign, no leading zero except "0" itself). */
  predicate IsArrayIndex(k: string) {
    k != [] && AllDigits(k, 10) && (k == "0" || k[0] != '0') && RadixValue(k, 10) <= MaxArrayIndex
  }

  predicate NotArrayIndex(k: string) {
    !IsArrayIndex(k)
  }

  predicate AllArrayIndices(s: seq<string>) {
    forall i :: 0 <= i < |s| ==> IsArrayIndex(s[i])
  }

  /** The number an array-index key stands for (0 for other keys). */
  function IndexValue(k: string): int {
    if IsArrayIndex(k) then RadixValue(k, 10) else 0
  }

  /** The array-index keys, in ascending numeric order. */
  function IndexKeys(created: seq<string>): seq<string> {
    SortBy(Filter(created, IsArrayIndex), IndexValue)
  }

  /** The other keys, in creation order. */
  function OtherKeys(created: seq<string>): seq<string> {
    Filter(created, NotArrayIndex)
  }

  /** The keys of an object whose properties were created in the order
      `created`, in the order the object lists them. */
  function PropertyOrder(created: seq<string>): seq<string> {
    IndexKeys(created) + OtherKeys(created)
  }

  /** The object lists each created key, and only those, as often as it was created. */
  lemma PropertyOrderPermutation(created: seq<string>)
    ensures multiset(PropertyOrder(created)) == multiset(created)
  {
    FilterPartition(created, IsArrayIndex, NotArrayIndex);
  }

  lemma PropertyOrderHas(created: seq<string>, k: string)
    ensures k in PropertyOrder(created) <==> k in created
  {
    PropertyOrderPermutation(created);
    assert k in multiset(PropertyOrder(created)) <==> k in multiset(created);
  }

  /** Keys created once each are listed once each. */
  lemma PropertyOrderNoDup(created: seq<string>)
    requires NoDup(created)
    ensures NoDup(PropertyOrder(created))
  {
    PropertyOrderPermutation(created);
    NoDupPermutation(created, PropertyOrder(created));
  }

  /** The keys listed first are exactly the array-index keys. */
  lemma SortedIndices(created: seq<string>)
    ensures forall i :: 0 <= i < |IndexKeys(created)| ==> IsArrayIndex(IndexKeys(created)[i])
  {
    SortByAll(Filter(created, IsArrayIndex), IndexValue, IsArrayIndex);
  }

  /** A key listed after the array-index keys is not one. */
  lemma BackOfOrder(created: seq<string>, i: nat)
    requires |IndexKeys(created)| <= i < |PropertyOrder(created)|
    ensures !IsArrayIndex(PropertyOrder(created)[i])
  {
    FilterAfter(IndexKeys(created), created, NotArrayIndex, i);
  }

  /** Array-index keys come first, in ascending numeric order. */
  lemma PropertyOrderIndicesFirst(created: seq<string>, i: nat, j: nat)
    requires i < j < |PropertyOrder(created)|
    requires IsArrayIndex(PropertyOrder(created)[j])
    ensures IsArrayIndex(PropertyOrder(created)[i])
    ensures IndexValue(PropertyOrder(created)[i]) <= IndexValue(PropertyOrder(created)[j])
  {
    var front := IndexKeys(created);
    if j >= |front| {
      BackOfOrder(created, j);
    }
    assert PropertyOrder(created)[i] == front[i] && PropertyOrder(created)[j] == front[j];
    SortedIndices(created);
  }

  /** The other keys keep their creation order. */
  lemma PropertyOrderOthers(created: seq<string>)
    ensures IsSubsequence(Filter(PropertyOrder(created), NotArrayIndex), created)
  {
    SortedIndices(created);
    FilterBack(IndexKeys(created), OtherKeys(created), NotArrayIndex);
    FilterSubsequence(created, NotArrayIndex);
  }

  /** Without array-index keys, an object lists its keys in creation order. */
  lemma PropertyOrderNoIndices(created: seq<string>)
    requires forall i :: 0 <= i < |created| ==> !IsArrayIndex(created[i])
    ensures PropertyOrder(created) == created
  {
    FilterNone(created, IsArrayIndex);
    FilterKeepsAll(created, NotArrayIndex);
  }

  lemma ExampleIndexKeys()
    ensures IsArrayIndex("9") && IndexValue("9") == 9
    ensures IsArrayIndex("10") && IndexValue("10") == 10
  {
    assert "10"[..1] == "1";
  }

  lemma ExampleOtherKeys()
    ensures NotArrayIndex("a") && NotArrayIndex("b")
  {
  }

  lemma ExampleIndexNot()
    ensures !NotArrayIndex("9") && !NotArrayIndex("10")
  {
    ExampleIndexKeys();
  }

  lemma ExampleIndexTail()
    ensures Filter(["a", "9"], IsArrayIndex) == ["9"]
  {
    ExampleIndexKeys();
    ExampleOtherKeys();
    FilterCons("9", [], IsArrayIndex);
    FilterCons("a", ["9"], IsArrayIndex);
  }

  lemma ExampleIndexFilter()
    ensures Filter(["b", "10", "a", "9"], IsArrayIndex) == ["10", "9"]
  {
    ExampleIndexKeys();
    ExampleOtherKeys();
    ExampleIndexTail();
    FilterCons("10", ["a", "9"], IsArrayIndex);
    FilterCons("b", ["10", "a", "9"], IsArrayIndex);
  }

  lemma ExampleOtherTail()
    ensures Filter(["a", "9"], NotArrayIndex) == ["a"]
  {
    ExampleIndexNot();
    ExampleOtherKeys();
    FilterCons("9", [], NotArrayIndex);
    FilterCons("a", ["9"], NotArrayIndex);
  }

  lemma ExampleOtherFilter()
    ensures Filter(["b", "10", "a", "9"], NotArrayIndex) == ["b", "a"]
  {
    ExampleIndexNot();
    ExampleOtherKeys();
    ExampleOtherTail();
    FilterCons("10", ["a", "9"], NotArrayIndex);
    FilterCons("b", ["10", "a", "9"], NotArrayIndex);
  }

  lemma ExampleSort()
    ensures SortBy(["10", "9"], IndexValue) == ["9", "10"]
  {
    ExampleIndexKeys();
    assert ["10", "9"][1..] == ["9"];
    assert SortBy(["9"], IndexValue) == ["9"];
  }

  /** The array-index keys come first in numeric order, "9" before "10",
      although "10" was created first; the other keys follow in creation order. */
  lemma PropertyOrderExample()
    ensures PropertyOrder(["b", "10", "a", "9"]) == ["9", "10", "b", "a"]
  {
    PropertyOrderExampleOf(["b", "10", "a", "9"]);
  }

  lemma PropertyOrderExampleOf(created: seq<string>)
    requires created == ["b", "10", "a", "9"]
    ensures PropertyOrder(created) == ["9", "10", "b", "a"]
  {
    assert IndexKeys(created) == ["9", "10"] by {
      ExampleIndexFilter();
      ExampleSort();
    }
    assert OtherKeys(created) == ["b", "a"] by {
      ExampleOtherFilter();
    }
    PairsConcat("9", "10", "b", "a");
  }

  lemma PairsConcat<T>(a: T, b: T, c: T, d: T)
    ensures [a, b] + [c, d] == [a, b, c, d]
  {
  }
}
