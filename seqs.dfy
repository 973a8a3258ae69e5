/**
 * The array combinators of JavaScript that the application uses on lists
 * (`map`, `filter`, `flatMap`, and de-duplication through a `Set`), as
 * functions on sequences, with the facts about them that the views need.
 */
module Seqs {

  /** `xs.map(f)`. */
  function Map<T, U>(s: seq<T>, f: T -> U): (r: seq<U>)
    ensures |r| == |s|
    ensures forall i :: 0 <= i < |s| ==> r[i] == f(s[i])
  {
    seq(|s|, i requires 0 <= i < |s| => f(s[i]))
  }

  /** `xs.filter(p)`: the elements satisfying `p`, in their original order. */
  function Filter<T>(s: seq<T>, p: T -> bool): (r: seq<T>)
    ensures |r| <= |s|
    ensures forall i :: 0 <= i < |r| ==> r[i] in s && p(r[i])
    ensures forall i :: 0 <= i < |s| && p(s[i]) ==> s[i] in r
  {
    if s == [] then [] else (if p(s[0]) then [s[0]] else []) + Filter(s[1..], p)
  }

  /** `a` can be obtained from `b` by deleting elements: `b` keeps the
      relative order of what `a` keeps. */
  predicate IsSubsequence<T(==)>(a: seq<T>, b: seq<T>)
    decreases |b|
  {
    a == [] || (b != [] && ((a[0] == b[0] && IsSubsequence(a[1..], b[1..])) || IsSubsequence(a, b[1..])))
  }

  lemma {:induction false} SubsequenceRefl<T>(s: seq<T>)
    ensures IsSubsequence(s, s)
  {
    if s != [] {
      SubsequenceRefl(s[1..]);
    }
  }

  /** A subsequence is never longer than the sequence. */
  lemma {:induction false} SubsequenceLength<T>(a: seq<T>, b: seq<T>)
    requires IsSubsequence(a, b)
    ensures |a| <= |b|
    decreases |b|
  {
    if a != [] {
      if a[0] == b[0] && IsSubsequence(a[1..], b[1..]) {
        SubsequenceLength(a[1..], b[1..]);
      } else {
        SubsequenceLength(a, b[1..]);
      }
    }
  }

  lemma {:induction false} FilterAppend<T>(a: seq<T>, b: seq<T>, p: T -> bool)
    ensures Filter(a + b, p) == Filter(a, p) + Filter(b, p)
  {
    if a != [] {
      assert (a + b)[1..] == a[1..] + b;
      FilterAppend(a[1..], b, p);
    } else {
      assert a + b == b;
    }
  }

  /** The result of a filter is a subsequence of its input. */
  lemma {:induction false} FilterSubsequence<T>(s: seq<T>, p: T -> bool)
    ensures IsSubsequence(Filter(s, p), s)
  {
    if s != [] {
      FilterSubsequence(s[1..], p);
      var f := Filter(s, p);
      if p(s[0]) {
        assert f == [s[0]] + Filter(s[1..], p);
        assert f[0] == s[0] && f[1..] == Filter(s[1..], p);
      } else {
        assert f == Filter(s[1..], p);
      }
    }
  }

  /** A stronger predicate keeps a subsequence of what a weaker one keeps. */
  lemma {:induction false} FilterMonotone<T>(s: seq<T>, p: T -> bool, q: T -> bool)
    requires forall x :: x in s && q(x) ==> p(x)
    ensures IsSubsequence(Filter(s, q), Filter(s, p))
  {
    if s == [] {
    } else {
      FilterMonotone(s[1..], p, q);
      var fq, fp := Filter(s[1..], q), Filter(s[1..], p);
      if q(s[0]) {
        assert Filter(s, q) == [s[0]] + fq && Filter(s, p) == [s[0]] + fp;
        assert Filter(s, q)[1..] == fq && Filter(s, p)[1..] == fp;
      } else if p(s[0]) {
        assert Filter(s, q) == fq && Filter(s, p) == [s[0]] + fp;
        assert Filter(s, p)[1..] == fp;
      } else {
        assert Filter(s, q) == fq && Filter(s, p) == fp;
      }
    }
  }

  /** A filter that keeps every element is the identity. */
  lemma {:induction false} FilterKeepsAll<T>(s: seq<T>, p: T -> bool)
    requires forall x :: x in s ==> p(x)
    ensures Filter(s, p) == s
  {
    if s != [] {
      FilterKeepsAll(s[1..], p);
    }
  }

  /** Predicates that agree on the elements keep the same elements. */
  lemma {:induction false} FilterCongruent<T>(s: seq<T>, p: T -> bool, q: T -> bool)
    requires forall x :: x in s ==> p(x) == q(x)
    ensures Filter(s, p) == Filter(s, q)
  {
    if s != [] {
      FilterCongruent(s[1..], p, q);
    }
  }

  /** A filter that keeps nothing gives the empty list. */
  lemma {:induction false} FilterNone<T>(s: seq<T>, p: T -> bool)
    requires forall i :: 0 <= i < |s| ==> !p(s[i])
    ensures Filter(s, p) == []
  {
    if s != [] {
      FilterNone(s[1..], p);
    }
  }

  /** Filtering a list whose front the predicate rejects and whose back it
      accepts gives the back. */
  lemma FilterBack<T>(a: seq<T>, b: seq<T>, p: T -> bool)
    requires forall i :: 0 <= i < |a| ==> !p(a[i])
    requires forall i :: 0 <= i < |b| ==> p(b[i])
    ensures Filter(a + b, p) == b
  {
    FilterAppend(a, b, p);
    FilterNone(a, p);
    FilterKeepsAll(b, p);
  }

  /** Filtering twice by the same predicate is filtering once. */
  lemma FilterIdempotent<T>(s: seq<T>, p: T -> bool)
    ensures Filter(Filter(s, p), p) == Filter(s, p)
  {
    FilterKeepsAll(Filter(s, p), p);
  }

  /** The number of copies of `x` a filter keeps. */
  lemma {:induction false} FilterMultiset<T>(s: seq<T>, p: T -> bool, x: T)
    ensures multiset(Filter(s, p))[x] == if p(x) then multiset(s)[x] else 0
  {
    if s != [] {
      var h, t := s[0], s[1..];
      assert s == [h] + t;
      FilterMultiset(t, p, x);
      FilterCons(h, t, p);
      CountStep(h, t, Filter(t, p), p(h), x, p(x));
    }
  }

  /** A filter keeps every copy of each element that passes and no copy of the others. */
  lemma FilterMultisetAll<T>(s: seq<T>, p: T -> bool)
    ensures forall x :: multiset(Filter(s, p))[x] == if p(x) then multiset(s)[x] else 0
  {
    forall x ensures multiset(Filter(s, p))[x] == if p(x) then multiset(s)[x] else 0 {
      FilterMultiset(s, p, x);
    }
  }

  /** One element more in front of a list and, when kept, of its filter. */
  lemma CountStep<T>(h: T, t: seq<T>, a: seq<T>, keep: bool, x: T, px: bool)
    requires multiset(a)[x] == if px then multiset(t)[x] else 0
    requires h == x ==> keep == px
    ensures multiset((if keep then [h] else []) + a)[x] == if px then multiset([h] + t)[x] else 0
  {
  }

  /** Filtering by "has key `k`" keeps as many elements as `k` occurs among the keys. */
  lemma {:induction false} FilterKeyCount<T, K>(s: seq<T>, key: T -> K, k: K, p: T -> bool)
    requires forall x :: p(x) == (key(x) == k)
    ensures |Filter(s, p)| == multiset(Map(s, key))[k]
  {
    if s != [] {
      FilterKeyCount(s[1..], key, k, p);
      assert Map(s, key) == [key(s[0])] + Map(s[1..], key);
    }
  }

  /** `xs.flatMap(x => x)` on a list of lists: the concatenation. */
  function Flatten<T>(ss: seq<seq<T>>): seq<T> {
    if ss == [] then [] else ss[0] + Flatten(ss[1..])
  }

  /** What any of the lists holds, the concatenation holds. */
  lemma {:induction false} FlattenHas<T>(ss: seq<seq<T>>, i: nat, x: T)
    requires i < |ss| && x in ss[i]
    ensures x in Flatten(ss)
  {
    if i > 0 {
      FlattenHas(ss[1..], i - 1, x);
    }
  }

  /** What the concatenation holds comes from one of the lists. */
  lemma {:induction false} FlattenSource<T>(ss: seq<seq<T>>, x: T) returns (i: nat)
    requires x in Flatten(ss)
    ensures i < |ss| && x in ss[i]
  {
    if x in ss[0] {
      i := 0;
    } else {
      var j := FlattenSource(ss[1..], x);
      i := j + 1;
    }
  }

  /** The length of a concatenation is the sum of the lengths. */
  function SumLengths<T>(ss: seq<seq<T>>): nat {
    if ss == [] then 0 else |ss[0]| + SumLengths(ss[1..])
  }

  lemma {:induction false} FlattenLength<T>(ss: seq<seq<T>>)
    ensures |Flatten(ss)| == SumLengths(ss)
  {
    if ss != [] {
      FlattenLength(ss[1..]);
    }
  }

  lemma {:induction false} FlattenMap<T, U>(ss: seq<seq<T>>, f: T -> U)
    ensures Map(Flatten(ss), f) == Flatten(Map(ss, (g: seq<T>) => Map(g, f)))
  {
    if ss != [] {
      FlattenMap(ss[1..], f);
      assert Map(ss, (g: seq<T>) => Map(g, f))[1..] == Map(ss[1..], (g: seq<T>) => Map(g, f));
    }
  }

  /** No element occurs twice. */
  predicate NoDup<T(==)>(s: seq<T>) {
    forall i, j :: 0 <= i < j < |s| ==> s[i] != s[j]
  }

  /** The prefix one longer is the prefix with the next element added. */
  lemma PrefixSnoc<T>(s: seq<T>, i: nat)
    requires i < |s|
    ensures s[..i + 1] == s[..i] + [s[i]]
  {
  }

  /** `xs.indexOf(x)` for an element that is present: its first position. */
  function IndexOf<T(==)>(s: seq<T>, x: T): (i: nat)
    requires x in s
    ensures i < |s| && s[i] == x && x !in s[..i]
  {
    if s[0] == x then 0 else 1 + IndexOf(s[1..], x)
  }

  lemma {:induction false} IndexOfSnoc<T>(s: seq<T>, y: T, x: T)
    requires x in s
    ensures IndexOf(s + [y], x) == IndexOf(s, x)
  {
    var i := IndexOf(s, x);
    var j := IndexOf(s + [y], x);
    assert (s + [y])[i] == x;
  }

  /** `[...new Set(xs)]`: one copy of each element, in order of first occurrence.
      The recursion consumes the list from its end, as a `Set` is filled. */
  function Distinct<T(==)>(s: seq<T>): (r: seq<T>)
    ensures forall i :: 0 <= i < |r| ==> r[i] in s
    ensures forall i :: 0 <= i < |s| ==> s[i] in r
    ensures |r| <= |s|
  {
    if s == [] then []
    else
      var d := Distinct(s[..|s| - 1]);
      var last := s[|s| - 1];
      assert s == s[..|s| - 1] + [last];
      if last in d then d else d + [last]
  }

  /** `Distinct` keeps one copy of each element. */
  lemma {:induction false} DistinctNoDup<T>(s: seq<T>)
    ensures NoDup(Distinct(s))
  {
    if s != [] {
      var s', y := s[..|s| - 1], s[|s| - 1];
      DistinctNoDup(s');
      var d := Distinct(s');
      if y !in d {
        assert Distinct(s) == d + [y];
        forall i, j | 0 <= i < j < |d + [y]| ensures (d + [y])[i] != (d + [y])[j] {
          if j == |d| {
            assert (d + [y])[i] == d[i];
          }
        }
      }
    }
  }

  lemma DistinctSnoc<T>(s: seq<T>, y: T)
    ensures Distinct(s + [y]) == if y in s then Distinct(s) else Distinct(s) + [y]
  {
    assert (s + [y])[..|s|] == s;
  }

  /** `Distinct` lists the elements in order of their first occurrence. */
  lemma {:induction false} DistinctOrder<T>(s: seq<T>, i: nat, j: nat)
    requires i < j < |Distinct(s)|
    ensures IndexOf(s, Distinct(s)[i]) < IndexOf(s, Distinct(s)[j])
    decreases |s|
  {
    var s', y := s[..|s| - 1], s[|s| - 1];
    assert s == s' + [y];
    DistinctSnoc(s', y);
    var d', d := Distinct(s'), Distinct(s);
    IndexOfSnoc(s', y, d[i]);
    if y in s' || j < |d'| {
      DistinctOrder(s', i, j);
      IndexOfSnoc(s', y, d[j]);
    } else {
      assert d[j] == y && y !in s';
      assert IndexOf(s, y) == |s'|;
    }
  }

  /** A list without repetitions is its own de-duplication. */
  lemma {:induction false} DistinctOfNoDup<T>(s: seq<T>)
    requires NoDup(s)
    ensures Distinct(s) == s
  {
    if s != [] {
      var s', y := s[..|s| - 1], s[|s| - 1];
      assert s == s' + [y];
      DistinctOfNoDup(s');
      DistinctSnoc(s', y);
      assert y !in s';
    }
  }

  /** A subsequence of a subsequence is a subsequence. */
  lemma {:induction false} SubsequenceTransitive<T>(a: seq<T>, b: seq<T>, c: seq<T>)
    requires IsSubsequence(a, b) && IsSubsequence(b, c)
    ensures IsSubsequence(a, c)
    decreases |c|
  {
    if a != [] {
      if b[0] == c[0] && IsSubsequence(b[1..], c[1..]) {
        if a[0] == b[0] && IsSubsequence(a[1..], b[1..]) {
          SubsequenceTransitive(a[1..], b[1..], c[1..]);
        } else {
          SubsequenceTransitive(a, b[1..], c[1..]);
        }
      } else {
        SubsequenceTransitive(a, b, c[1..]);
      }
    }
  }

  /** Two kept elements come from positions of the input in the same order. */
  lemma {:induction false} FilterPositions<T>(s: seq<T>, p: T -> bool, i: nat, j: nat) returns (a: nat, b: nat)
    requires i < j < |Filter(s, p)|
    ensures a < b < |s| && s[a] == Filter(s, p)[i] && s[b] == Filter(s, p)[j]
    decreases |s|
  {
    if p(s[0]) && i == 0 {
      a, b := FilterPositionsFirst(s, p, j);
    } else if p(s[0]) {
      a, b := FilterPositionsKept(s, p, i, j);
    } else {
      a, b := FilterPositionsDropped(s, p, i, j);
    }
  }

  lemma {:induction false} FilterPositionsFirst<T>(s: seq<T>, p: T -> bool, j: nat) returns (a: nat, b: nat)
    requires 0 < j < |Filter(s, p)| && p(s[0])
    ensures a < b < |s| && s[a] == Filter(s, p)[0] && s[b] == Filter(s, p)[j]
  {
    var x, t := s[0], s[1..];
    assert s == [x] + t;
    FilterCons(x, t, p);
    assert Filter(s, p) == [x] + Filter(t, p);
    var y := FilterPosition(t, p, j - 1);
    a, b := 0, y + 1;
  }

  lemma {:induction false} FilterPositionsDropped<T>(s: seq<T>, p: T -> bool, i: nat, j: nat) returns (a: nat, b: nat)
    requires i < j < |Filter(s, p)| && !p(s[0])
    ensures a < b < |s| && s[a] == Filter(s, p)[i] && s[b] == Filter(s, p)[j]
    decreases |s|, 0
  {
    var x, t := s[0], s[1..];
    assert s == [x] + t;
    FilterCons(x, t, p);
    assert Filter(s, p) == Filter(t, p);
    var u, v := FilterPositions(t, p, i, j);
    a, b := u + 1, v + 1;
  }

  lemma {:induction false} FilterPositionsKept<T>(s: seq<T>, p: T -> bool, i: nat, j: nat) returns (a: nat, b: nat)
    requires 0 < i < j < |Filter(s, p)| && p(s[0])
    ensures a < b < |s| && s[a] == Filter(s, p)[i] && s[b] == Filter(s, p)[j]
    decreases |s|, 0
  {
    FilterKeptHead(s, p);
    var u, v := FilterPositions(s[1..], p, i - 1, j - 1);
    ShiftPositions(s, Filter(s, p), Filter(s[1..], p), i, j, u, v);
    a, b := u + 1, v + 1;
  }

  lemma FilterKeptHead<T>(s: seq<T>, p: T -> bool)
    requires s != [] && p(s[0])
    ensures Filter(s, p) == [s[0]] + Filter(s[1..], p)
  {
  }

  /** Positions in the tails of two lists with the same head, one further on in the whole lists. */
  lemma ShiftPositions<T>(s: seq<T>, f: seq<T>, g: seq<T>, i: nat, j: nat, u: nat, v: nat)
    requires s != [] && f == [s[0]] + g
    requires 0 < i < j < |f| && u < v < |s| - 1 && s[1..][u] == g[i - 1] && s[1..][v] == g[j - 1]
    ensures u + 1 < v + 1 < |s| && s[u + 1] == f[i] && s[v + 1] == f[j]
  {
  }

  lemma {:induction false} FilterPosition<T>(s: seq<T>, p: T -> bool, i: nat) returns (a: nat)
    requires i < |Filter(s, p)|
    ensures a < |s| && s[a] == Filter(s, p)[i]
  {
    var rest := Filter(s[1..], p);
    if p(s[0]) {
      assert Filter(s, p) == [s[0]] + rest;
      if i == 0 {
        a := 0;
      } else {
        var x := FilterPosition(s[1..], p, i - 1);
        a := x + 1;
      }
    } else {
      var x := FilterPosition(s[1..], p, i);
      a := x + 1;
    }
  }

  /** What a predicate keeps and what it drops make up the whole input. */
  lemma {:induction false} FilterPartition<T>(s: seq<T>, p: T -> bool, q: T -> bool)
    requires forall x :: q(x) == !p(x)
    ensures multiset(Filter(s, p)) + multiset(Filter(s, q)) == multiset(s)
  {
    if s != [] {
      var h, t := s[0], s[1..];
      assert s == [h] + t;
      FilterPartition(t, p, q);
      FilterCons(h, t, p);
      FilterCons(h, t, q);
      assert q(h) == !p(h);
      PartitionStep(h, t, Filter(t, p), Filter(t, q), p(h));
    }
  }

  /** One element more on either side of a partition. */
  lemma PartitionStep<T>(h: T, t: seq<T>, a: seq<T>, b: seq<T>, left: bool)
    requires multiset(a) + multiset(b) == multiset(t)
    ensures multiset((if left then [h] else []) + a) + multiset((if !left then [h] else []) + b)
      == multiset([h] + t)
  {
  }

  /** A filter of a list without repetitions has none either. */
  lemma {:induction false} FilterNoDup<T>(s: seq<T>, p: T -> bool)
    requires NoDup(s)
    ensures NoDup(Filter(s, p))
  {
    if s != [] {
      assert NoDup(s[1..]) by {
        forall i, j | 0 <= i < j < |s[1..]| ensures s[1..][i] != s[1..][j] {
          assert s[1..][i] == s[i + 1] && s[1..][j] == s[j + 1];
        }
      }
      FilterNoDup(s[1..], p);
      var rest := Filter(s[1..], p);
      if p(s[0]) {
        assert s[0] !in s[1..];
        assert s[0] !in rest;
        var f := Filter(s, p);
        assert f == [s[0]] + rest;
        forall i, j | 0 <= i < j < |f| ensures f[i] != f[j] {
          if i > 0 {
            assert f[i] == rest[i - 1] && f[j] == rest[j - 1];
          } else {
            assert f[j] == rest[j - 1];
          }
        }
      }
    }
  }

  /** No repetitions means every element is counted once at most. */
  lemma {:induction false} NoDupCount<T>(s: seq<T>, x: T)
    requires NoDup(s)
    ensures multiset(s)[x] <= 1
  {
    if s != [] {
      assert s == [s[0]] + s[1..];
      assert NoDup(s[1..]) by {
        forall i, j | 0 <= i < j < |s[1..]| ensures s[1..][i] != s[1..][j] {
          assert s[1..][i] == s[i + 1] && s[1..][j] == s[j + 1];
        }
      }
      NoDupCount(s[1..], x);
      if s[0] == x {
        assert x !in s[1..];
      }
    }
  }

  /** An element at two positions is counted twice. */
  lemma RepeatCount<T>(s: seq<T>, i: nat, j: nat)
    requires i < j < |s| && s[i] == s[j]
    ensures multiset(s)[s[i]] >= 2
  {
    assert s == s[..j] + s[j..];
    assert s[i] in s[..j] && s[j] in s[j..];
    assert multiset(s) == multiset(s[..j]) + multiset(s[j..]);
  }

  /** Rearranging a list without repetitions gives one without repetitions. */
  lemma NoDupPermutation<T>(a: seq<T>, b: seq<T>)
    requires NoDup(a) && multiset(a) == multiset(b)
    ensures NoDup(b)
  {
    forall i, j | 0 <= i < j < |b| ensures b[i] != b[j] {
      if b[i] == b[j] {
        RepeatCount(b, i, j);
        NoDupCount(a, b[i]);
        assert false;
      }
    }
  }

  /** Filtering commutes with mapping. */
  lemma {:induction false} FilterMap<T, U>(s: seq<T>, f: T -> U, q: U -> bool, p: T -> bool)
    requires forall x :: p(x) == q(f(x))
    ensures Filter(Map(s, f), q) == Map(Filter(s, p), f)
  {
    if s != [] {
      var m := Map(s, f);
      var x, t := s[0], s[1..];
      FilterMap(t, f, q, p);
      assert m == [f(x)] + Map(t, f);
      assert s == [x] + t;
      FilterCons(f(x), Map(t, f), q);
      FilterCons(x, t, p);
      if p(x) {
        MapAppend([x], Filter(t, p), f);
        assert Filter(m, q) == [f(x)] + Filter(Map(t, f), q);
      } else {
        assert Filter(m, q) == Filter(Map(t, f), q);
      }
    }
  }

  lemma MapAppend<T, U>(a: seq<T>, b: seq<T>, f: T -> U)
    ensures Map(a + b, f) == Map(a, f) + Map(b, f)
  {
  }

  /** Ascending by a numeric key (not necessarily strictly). */
  predicate AscendingBy<T>(s: seq<T>, key: T -> int) {
    forall i, j :: 0 <= i < j < |s| ==> key(s[i]) <= key(s[j])
  }

  /** Places an element in front of the first element with a larger or equal key. */
  function InsertBy<T>(x: T, s: seq<T>, key: T -> int): (r: seq<T>)
    ensures multiset(r) == multiset(s) + multiset{x}
  {
    if s == [] then [x]
    else if key(x) <= key(s[0]) then [x] + s
    else
      assert s == [s[0]] + s[1..];
      [s[0]] + InsertBy(x, s[1..], key)
  }

  /** Inserting keeps a lower bound on the keys. */
  lemma {:induction false} InsertByBound<T>(x: T, s: seq<T>, key: T -> int, b: int)
    requires key(x) >= b
    requires forall i :: 0 <= i < |s| ==> key(s[i]) >= b
    ensures forall i :: 0 <= i < |InsertBy(x, s, key)| ==> key(InsertBy(x, s, key)[i]) >= b
  {
    if s != [] && key(x) > key(s[0]) {
      InsertByBound(x, s[1..], key, b);
    }
  }

  lemma {:induction false} InsertByAscending<T>(x: T, s: seq<T>, key: T -> int)
    requires AscendingBy(s, key)
    ensures AscendingBy(InsertBy(x, s, key), key)
  {
    var r := InsertBy(x, s, key);
    if s != [] {
      if key(x) <= key(s[0]) {
        assert r == [x] + s;
      } else {
        var rest := InsertBy(x, s[1..], key);
        InsertByAscending(x, s[1..], key);
        InsertByBound(x, s[1..], key, key(s[0]));
        assert r == [s[0]] + rest;
      }
    }
  }

  /** Insertion sort by a numeric key: ascending, and a rearrangement of the input. */
  function SortBy<T>(s: seq<T>, key: T -> int): (r: seq<T>)
    ensures AscendingBy(r, key)
    ensures multiset(r) == multiset(s)
  {
    if s == [] then []
    else
      assert s == [s[0]] + s[1..];
      InsertByAscending(s[0], SortBy(s[1..], key), key);
      InsertBy(s[0], SortBy(s[1..], key), key)
  }

  /** Past a prefix `a`, a concatenation lists kept elements. */
  lemma FilterAfter<T>(a: seq<T>, s: seq<T>, p: T -> bool, i: nat)
    requires |a| <= i < |a| + |Filter(s, p)|
    ensures p((a + Filter(s, p))[i])
  {
    assert (a + Filter(s, p))[i] == Filter(s, p)[i - |a|];
  }

  /** A sequence from `p` on is its three stretches cut at `q` and `e`. */
  lemma SliceThree<T>(s: seq<T>, p: nat, q: nat, e: nat)
    requires p <= q <= e <= |s|
    ensures s[p..] == s[p..q] + s[q..e] + s[e..]
  {
    assert s[p..] == s[p..q] + s[q..];
    assert s[q..] == s[q..e] + s[e..];
  }

  lemma FilterCons<T>(x: T, t: seq<T>, p: T -> bool)
    ensures Filter([x] + t, p) == (if p(x) then [x] else []) + Filter(t, p)
  {
    assert ([x] + t)[1..] == t;
  }

  /** Inserting into an ascending list puts the new element after the
      elements with a smaller key and before those with an equal one. */
  lemma {:induction false} InsertByFilter<T>(x: T, s: seq<T>, key: T -> int, v: int)
    requires AscendingBy(s, key)
    ensures Filter(InsertBy(x, s, key), (y: T) => key(y) == v)
         == (if key(x) == v then [x] else []) + Filter(s, (y: T) => key(y) == v)
  {
    var p := (y: T) => key(y) == v;
    if s == [] {
    } else if key(x) <= key(s[0]) {
      FilterCons(x, s, p);
    } else {
      assert AscendingBy(s[1..], key);
      InsertByFilter(x, s[1..], key, v);
      InsertPastFilter(x, s[0], InsertBy(x, s[1..], key), s[1..], p, key(x) == v);
      assert [s[0]] + s[1..] == s;
    }
  }

  /** The step of `InsertByFilter` where the new element goes past the head. */
  lemma InsertPastFilter<T>(x: T, h: T, rest: seq<T>, t: seq<T>, p: T -> bool, same: bool)
    requires p(h) ==> !p(x)
    requires same == p(x)
    requires Filter(rest, p) == (if same then [x] else []) + Filter(t, p)
    ensures Filter([h] + rest, p) == (if same then [x] else []) + Filter([h] + t, p)
  {
    FilterCons(h, rest, p);
    FilterCons(h, t, p);
    PrefixSwap(if p(h) then [h] else [], if same then [x] else [], Filter(t, p));
  }

  /** Two prefixes commute in front of a sequence when one of them is empty. */
  lemma PrefixSwap<T>(head: seq<T>, pre: seq<T>, f: seq<T>)
    requires head == [] || pre == []
    ensures head + (pre + f) == pre + (head + f)
  {
    if head == [] {
      assert head + (pre + f) == pre + f && head + f == f;
    } else {
      assert pre + (head + f) == head + f && pre + f == f;
    }
  }

  /** The sort is stable: the elements sharing a key keep their input order. */
  lemma {:induction false} SortByStable<T>(s: seq<T>, key: T -> int, v: int)
    ensures Filter(SortBy(s, key), (y: T) => key(y) == v) == Filter(s, (y: T) => key(y) == v)
  {
    if s != [] {
      SortByStable(s[1..], key, v);
      InsertByFilter(s[0], SortBy(s[1..], key), key, v);
    }
  }

  /** The sum of `f` over the elements of a list. */
  function SumBy<T>(s: seq<T>, f: T -> int): int {
    if s == [] then 0 else f(s[0]) + SumBy(s[1..], f)
  }

  lemma {:induction false} SumByAppend<T>(a: seq<T>, b: seq<T>, f: T -> int)
    ensures SumBy(a + b, f) == SumBy(a, f) + SumBy(b, f)
  {
    if a == [] {
      assert a + b == b;
    } else {
      assert (a + b)[1..] == a[1..] + b;
      SumByAppend(a[1..], b, f);
    }
  }

  /** A sum does not depend on the order of the elements. */
  lemma {:induction false} SumByPermutation<T>(a: seq<T>, b: seq<T>, f: T -> int)
    requires multiset(a) == multiset(b)
    ensures SumBy(a, f) == SumBy(b, f)
    decreases |a|
  {
    if a == [] {
      assert |b| == |multiset(b)| == 0;
    } else {
      var x := a[0];
      assert x in multiset(b);
      var j :| 0 <= j < |b| && b[j] == x;
      var b' := b[..j] + b[j + 1..];
      RemoveFromBoth(a, b, j);
      SumByPermutation(a[1..], b', f);
      SumByRemove(b, j, f);
    }
  }

  /** Taking the head of `a` and an equal element of `b` out of two
      permutations of each other leaves two permutations of each other. */
  lemma RemoveFromBoth<T>(a: seq<T>, b: seq<T>, j: nat)
    requires multiset(a) == multiset(b) && a != [] && j < |b| && b[j] == a[0]
    ensures multiset(a[1..]) == multiset(b[..j] + b[j + 1..])
  {
    var x := a[0];
    var b' := b[..j] + b[j + 1..];
    assert b == b[..j] + [x] + b[j + 1..];
    assert multiset(b) == multiset(b[..j]) + multiset{x} + multiset(b[j + 1..]);
    assert a == [x] + a[1..];
    assert multiset(a) == multiset{x} + multiset(a[1..]);
    assert multiset(b') == multiset(b[..j]) + multiset(b[j + 1..]);
    forall z ensures multiset(a[1..])[z] == multiset(b')[z] {
      assert multiset(a)[z] == multiset{x}[z] + multiset(a[1..])[z];
      assert multiset(b)[z] == multiset(b[..j])[z] + multiset{x}[z] + multiset(b[j + 1..])[z];
    }
  }

  /** The sum over a list is one element plus the sum over the others. */
  lemma SumByRemove<T>(b: seq<T>, j: nat, f: T -> int)
    requires j < |b|
    ensures SumBy(b, f) == f(b[j]) + SumBy(b[..j] + b[j + 1..], f)
  {
    assert b == b[..j] + [b[j]] + b[j + 1..];
    SumByAppend(b[..j] + [b[j]], b[j + 1..], f);
    SumByAppend(b[..j], [b[j]], f);
    SumByAppend(b[..j], b[j + 1..], f);
    assert SumBy([b[j]], f) == f(b[j]) + SumBy([b[j]][1..], f);
  }

  /** Raising `f` by one on the element `y` raises the sum by the number of copies of `y`. */
  lemma {:induction false} SumByShift<T>(d: seq<T>, f: T -> int, g: T -> int, y: T)
    requires forall l :: f(l) == g(l) + (if l == y then 1 else 0)
    ensures SumBy(d, f) == SumBy(d, g) + multiset(d)[y]
  {
    if d != [] {
      SumByShift(d[1..], f, g, y);
      assert d == [d[0]] + d[1..];
    }
  }

  /** Counting every distinct element of a list counts the whole list. */
  lemma {:induction false} DistinctCountsSum<T>(s: seq<T>)
    ensures SumBy(Distinct(s), (l: T) => multiset(s)[l]) == |s|
  {
    if s != [] {
      var s', y := s[..|s| - 1], s[|s| - 1];
      assert s == s' + [y];
      var d' := Distinct(s');
      var f, g := (l: T) => multiset(s)[l], (l: T) => multiset(s')[l];
      DistinctCountsSum(s');
      DistinctSnoc(s', y);
      assert forall l :: f(l) == g(l) + (if l == y then 1 else 0);
      SumByShift(d', f, g, y);
      if y in s' {
        DistinctNoDup(s');
        NoDupCount(d', y);
        assert y in multiset(d');
      } else {
        assert y !in multiset(d');
        SumByAppend(d', [y], f);
        assert SumBy([y], f) == f(y);
      }
    }
  }

  /** Lists that agree term by term have the same sum. */
  lemma {:induction false} SumByPointwise<T, U>(a: seq<T>, f: T -> int, b: seq<U>, g: U -> int)
    requires |a| == |b|
    requires forall i :: 0 <= i < |a| ==> f(a[i]) == g(b[i])
    ensures SumBy(a, f) == SumBy(b, g)
  {
    if a != [] {
      SumByPointwise(a[1..], f, b[1..], g);
    }
  }

  /** Functions that agree on the elements have the same sum. */
  lemma {:induction false} SumByCongruent<T>(s: seq<T>, f: T -> int, g: T -> int)
    requires forall i :: 0 <= i < |s| ==> f(s[i]) == g(s[i])
    ensures SumBy(s, f) == SumBy(s, g)
  {
    if s != [] {
      SumByCongruent(s[1..], f, g);
    }
  }

  /** A kept element's position in the result: the number of kept elements before it. */
  lemma FilterIndex<T>(s: seq<T>, p: T -> bool, i: nat)
    requires i < |s| && p(s[i])
    ensures |Filter(s[..i], p)| < |Filter(s, p)|
    ensures Filter(s, p)[|Filter(s[..i], p)|] == s[i]
  {
    assert s == s[..i] + s[i..];
    FilterAppend(s[..i], s[i..], p);
    assert s[i..] == [s[i]] + s[i + 1..];
    FilterCons(s[i], s[i + 1..], p);
  }

  /** Kept elements keep their relative order. */
  lemma FilterIndexOrder<T>(s: seq<T>, p: T -> bool, i: nat, j: nat)
    requires i < j < |s| && p(s[i]) && p(s[j])
    ensures |Filter(s[..i], p)| < |Filter(s[..j], p)|
  {
    assert s[..j] == s[..i] + s[i..j];
    FilterAppend(s[..i], s[i..j], p);
    assert s[i..j] == [s[i]] + s[i + 1..j];
    FilterCons(s[i], s[i + 1..j], p);
  }

  /** Sorting is stable: two elements with the same key come out in the
      order they went in. */
  lemma SortByStableOrder<T>(s: seq<T>, key: T -> int, i: nat, j: nat) returns (a: nat, b: nat)
    requires i < j < |SortBy(s, key)|
    requires key(SortBy(s, key)[i]) == key(SortBy(s, key)[j])
    ensures a < b < |s|
    ensures s[a] == SortBy(s, key)[i] && s[b] == SortBy(s, key)[j]
  {
    var r := SortBy(s, key);
    var v := key(r[i]);
    var p := (y: T) => key(y) == v;
    SortByStable(s, key, v);
    FilterIndex(r, p, i);
    FilterIndex(r, p, j);
    FilterIndexOrder(r, p, i, j);
    a, b := FilterPositions(s, p, |Filter(r[..i], p)|, |Filter(r[..j], p)|);
  }

  /** Leaving out one value removes exactly one element from the de-duplication,
      if the value occurs at all. */
  lemma {:induction false} DistinctWithout<T>(s: seq<T>, x: T, p: T -> bool)
    requires forall y :: p(y) == (y != x)
    ensures |Distinct(s)| == |Distinct(Filter(s, p))| + (if x in s then 1 else 0)
  {
    if s != [] {
      var s', z := s[..|s| - 1], s[|s| - 1];
      assert s == s' + [z];
      DistinctWithout(s', x, p);
      if z == x {
        DropLast(s', x, p);
      } else {
        KeepLast(s', z, x, p);
      }
    }
  }

  lemma DropLast<T>(s: seq<T>, x: T, p: T -> bool)
    requires forall y :: p(y) == (y != x)
    requires |Distinct(s)| == |Distinct(Filter(s, p))| + (if x in s then 1 else 0)
    ensures |Distinct(s + [x])| == |Distinct(Filter(s + [x], p))| + 1
  {
    assert !p(x);
    FilterSnoc(s, x, p);
    assert Filter(s + [x], p) == Filter(s, p);
    DistinctSnoc(s, x);
    if x in s {
      assert Distinct(s + [x]) == Distinct(s);
    } else {
      assert Distinct(s + [x]) == Distinct(s) + [x];
    }
  }

  lemma KeepLast<T>(s: seq<T>, z: T, x: T, p: T -> bool)
    requires forall y :: p(y) == (y != x)
    requires z != x
    requires |Distinct(s)| == |Distinct(Filter(s, p))| + (if x in s then 1 else 0)
    ensures |Distinct(s + [z])| == |Distinct(Filter(s + [z], p))| + (if x in s + [z] then 1 else 0)
  {
    DistinctSnoc(s, z);
    FilterSnoc(s, z, p);
    DistinctSnoc(Filter(s, p), z);
    assert z in Filter(s, p) <==> z in s;
    assert x in s + [z] <==> x in s;
  }

  lemma FilterSnoc<T>(s: seq<T>, z: T, p: T -> bool)
    ensures Filter(s + [z], p) == Filter(s, p) + (if p(z) then [z] else [])
  {
    FilterAppend(s, [z], p);
  }

  /** A list and its de-duplication are empty together. */
  lemma DistinctEmpty<T>(s: seq<T>)
    ensures Distinct(s) == [] <==> s == []
  {
    if s != [] {
      assert s[0] in Distinct(s);
    }
  }

  /** An element of the sorted list is an element of the input. */
  lemma SortByMember<T>(s: seq<T>, key: T -> int, i: nat)
    requires i < |SortBy(s, key)|
    ensures SortBy(s, key)[i] in s
  {
    assert SortBy(s, key)[i] in multiset(s);
  }

  /** Sorting keeps a property every element has. */
  lemma SortByAll<T>(s: seq<T>, key: T -> int, p: T -> bool)
    requires forall i :: 0 <= i < |s| ==> p(s[i])
    ensures forall i :: 0 <= i < |SortBy(s, key)| ==> p(SortBy(s, key)[i])
  {
    forall i | 0 <= i < |SortBy(s, key)| ensures p(SortBy(s, key)[i]) {
      SortByMember(s, key, i);
    }
  }

  /** Dropping elements before or after de-duplication gives the same list. */
  lemma {:induction false} FilterDistinct<T>(s: seq<T>, p: T -> bool)
    ensures Filter(Distinct(s), p) == Distinct(Filter(s, p))
    decreases |s|
  {
    if s != [] {
      var front, y := s[..|s| - 1], s[|s| - 1];
      assert s == front + [y];
      FilterDistinct(front, p);
      FilterDistinctStep(front, y, p);
    }
  }

  lemma FilterDistinctStep<T>(front: seq<T>, y: T, p: T -> bool)
    requires Filter(Distinct(front), p) == Distinct(Filter(front, p))
    ensures Filter(Distinct(front + [y]), p) == Distinct(Filter(front + [y], p))
  {
    var d, f := Distinct(front), Filter(front, p);
    DistinctSnoc(front, y);
    FilterSnoc(front, y, p);
    if p(y) {
      assert Filter(front + [y], p) == f + [y];
      DistinctSnoc(f, y);
      assert y in f <==> y in front;
      if y !in front {
        FilterSnoc(d, y, p);
        assert Filter(d + [y], p) == Filter(d, p) + [y];
      }
    } else {
      assert Filter(front + [y], p) == f;
      if y !in front {
        FilterSnoc(d, y, p);
        assert Filter(d + [y], p) == Filter(d, p);
      }
    }
  }
}
