/** Sequence operations the TypeScript code gets from Array.prototype:
    filter, find, findIndex/indexOf, slice, and the (stable) sort. */
module Seqs {

  import Wrappers

  /** `r` is an order-preserving sub-sequence of `s`. */
  predicate IsSubseq<T(==)>(r: seq<T>, s: seq<T>)
    decreases |s|
  {
    if r == [] then true
    else if s == [] then false
    else if r[0] == s[0] then IsSubseq(r[1..], s[1..])
    else IsSubseq(r, s[1..])
  }

  lemma {:induction false} SubseqRefl<T>(s: seq<T>)
    ensures IsSubseq(s, s)
  {
    if s != [] { SubseqRefl(s[1..]); }
  }

  /** A sub-sequence loses nothing of its order when its first element is dropped. */
  lemma {:induction false} SubseqTail<T>(r: seq<T>, s: seq<T>)
    requires r != [] && IsSubseq(r, s)
    ensures IsSubseq(r[1..], s)
    decreases |s|, 0
  {
    assert [s[0]] + s[1..] == s;
    if r[0] == s[0] {
      SubseqFromTail(r[1..], s[1..], s[0]);
    } else {
      SubseqTail(r, s[1..]);
      SubseqFromTail(r[1..], s[1..], s[0]);
    }
  }

  /** Adding an element in front of the longer sequence keeps a sub-sequence one. */
  lemma {:induction false} SubseqFromTail<T>(r: seq<T>, s: seq<T>, x: T)
    requires IsSubseq(r, s)
    ensures IsSubseq(r, [x] + s)
    decreases |s|, 1
  {
    assert ([x] + s)[1..] == s;
    if r != [] && r[0] == x {
      SubseqTail(r, s);
    }
  }

  /** Array.prototype.filter: the elements satisfying `p`, in their original order. */
  function Filter<T(==,!new)>(s: seq<T>, p: T -> bool): (r: seq<T>)
    ensures IsSubseq(r, s)
    ensures forall x :: x in r <==> x in s && p(x)
    ensures |r| <= |s|
  {
    if s == [] then []
    else
      var rest := Filter(s[1..], p);
      assert s == [s[0]] + s[1..];
      if p(s[0]) then
        assert ([s[0]] + rest)[1..] == rest;
        [s[0]] + rest
      else
        SubseqFromTail(rest, s[1..], s[0]);
        rest
  }

  lemma {:induction false} FilterAll<T(!new)>(s: seq<T>, p: T -> bool)
    requires forall x :: x in s ==> p(x)
    ensures Filter(s, p) == s
  {
    if s != [] {
      FilterAll(s[1..], p);
    }
  }

  lemma {:induction false} FilterNone<T(!new)>(s: seq<T>, p: T -> bool)
    requires forall x :: x in s ==> !p(x)
    ensures Filter(s, p) == []
  {
    if s != [] {
      FilterNone(s[1..], p);
    }
  }

  lemma {:induction false} FilterAppend<T(!new)>(s: seq<T>, t: seq<T>, p: T -> bool)
    ensures Filter(s + t, p) == Filter(s, p) + Filter(t, p)
  {
    if s == [] {
      assert s + t == t;
    } else {
      assert (s + t)[1..] == s[1..] + t;
      FilterAppend(s[1..], t, p);
    }
  }

  /** Two predicates that agree on every element give the same filter. */
  lemma {:induction false} FilterExt<T(!new)>(s: seq<T>, p: T -> bool, q: T -> bool)
    requires forall x :: x in s ==> p(x) == q(x)
    ensures Filter(s, p) == Filter(s, q)
  {
    if s != [] {
      FilterExt(s[1..], p, q);
    }
  }

  /** Filtering with `p` and with its negation splits the sequence: the two lengths add up. */
  lemma {:induction false} FilterPartition<T(!new)>(s: seq<T>, p: T -> bool, q: T -> bool)
    requires forall x :: q(x) == !p(x)
    ensures |Filter(s, p)| + |Filter(s, q)| == |s|
  {
    if s != [] {
      FilterPartition(s[1..], p, q);
    }
  }

  /** Filtering twice with the same predicate changes nothing. */
  lemma {:induction false} FilterIdempotent<T(!new)>(s: seq<T>, p: T -> bool)
    ensures Filter(Filter(s, p), p) == Filter(s, p)
  {
    FilterAll(Filter(s, p), p);
  }

  /** Filtering keeps every copy of a kept element and drops every copy of another. */
  lemma {:induction false} FilterCount<T(!new)>(s: seq<T>, p: T -> bool, x: T)
    ensures multiset(Filter(s, p))[x] == if p(x) then multiset(s)[x] else 0
  {
    if s != [] {
      FilterCount(s[1..], p, x);
      assert s == [s[0]] + s[1..];
    }
  }

  /** No element occurs twice. */
  predicate Distinct<T(==)>(s: seq<T>)
  {
    forall i, j :: 0 <= i < j < |s| ==> s[i] != s[j]
  }

  /** Filtering a sequence without repetitions gives one without repetitions. */
  lemma {:induction false} FilterDistinct<T(!new)>(s: seq<T>, p: T -> bool)
    requires Distinct(s)
    ensures Distinct(Filter(s, p))
  {
    if s != [] {
      FilterDistinct(s[1..], p);
      var rest := Filter(s[1..], p);
      if p(s[0]) {
        assert s[0] !in s[1..] by {
          forall k | 0 <= k < |s| - 1 ensures s[1..][k] != s[0] {
            assert s[1..][k] == s[k + 1];
          }
        }
        var r := [s[0]] + rest;
        forall i, j | 0 <= i < j < |r| ensures r[i] != r[j] {
          assert r[j] == rest[j - 1];
          if i > 0 {
            assert r[i] == rest[i - 1];
          }
        }
      }
    }
  }

  /** An element that occurs at most once is not found at two positions. */
  lemma TwoPositions<T>(s: seq<T>, i: nat, j: nat)
    requires i < j < |s| && multiset(s)[s[i]] <= 1
    ensures s[i] != s[j]
  {
    assert s == s[..j] + s[j..];
    assert s[i] in s[..j];
    assert multiset(s) == multiset(s[..j]) + multiset(s[j..]);
    assert s[j] in s[j..];
  }

  /** The position `splice(start, 0, x)` inserts at: a negative start counts from the end,
      and both ends are clamped. */
  function SpliceIndex(len: nat, start: int): (i: nat)
    ensures i <= len
    ensures 0 <= start <= len ==> i == start
  {
    if start < 0 then (if len + start < 0 then 0 else len + start)
    else if start > len then len
    else start
  }

  /** Array.prototype.splice(start, 0, x), as the new array. */
  function Splice<T>(s: seq<T>, start: int, x: T): (r: seq<T>)
    ensures |r| == |s| + 1 && r[SpliceIndex(|s|, start)] == x
    ensures forall j :: 0 <= j < SpliceIndex(|s|, start) ==> r[j] == s[j]
    ensures forall j :: SpliceIndex(|s|, start) < j <= |s| ==> r[j] == s[j - 1]
    ensures multiset(r) == multiset(s) + multiset{x}
  {
    var i := SpliceIndex(|s|, start);
    assert s == s[..i] + s[i..];
    s[..i] + [x] + s[i..]
  }

  /** The number of elements satisfying `p`. */
  function Count<T>(s: seq<T>, p: T -> bool): nat
  {
    if s == [] then 0 else (if p(s[0]) then 1 else 0) + Count(s[1..], p)
  }

  /** `s.filter(p).length` counts the elements satisfying `p`. */
  lemma {:induction false} FilterLength<T(!new)>(s: seq<T>, p: T -> bool)
    ensures |Filter(s, p)| == Count(s, p)
  {
    if s != [] { FilterLength(s[1..], p); }
  }

  /** Array.prototype.find: the first element satisfying `p`. */
  function Find<T>(s: seq<T>, p: T -> bool): (r: Wrappers.Option<T>)
    ensures r.Some? <==> exists i :: 0 <= i < |s| && p(s[i])
    ensures r.Some? ==> r.value in s && p(r.value)
  {
    var i := FindIndex(s, p);
    if i < 0 then Wrappers.None else Wrappers.Some(s[i])
  }

  /** Array.prototype.findIndex: the first index whose element satisfies `p`, or -1. */
  function FindIndex<T>(s: seq<T>, p: T -> bool): (i: int)
    ensures -1 <= i < |s|
    ensures i >= 0 ==> p(s[i]) && forall j :: 0 <= j < i ==> !p(s[j])
    ensures i < 0 ==> forall j :: 0 <= j < |s| ==> !p(s[j])
  {
    if s == [] then -1
    else if p(s[0]) then 0
    else
      var k := FindIndex(s[1..], p);
      if k < 0 then -1 else k + 1
  }

  /** Array.prototype.indexOf. */
  function IndexOf<T(==)>(s: seq<T>, x: T): (i: int)
    ensures -1 <= i < |s|
    ensures i >= 0 ==> s[i] == x && x !in s[..i]
    ensures i < 0 <==> x !in s
  {
    if s == [] then -1
    else if s[0] == x then 0
    else
      var k := IndexOf(s[1..], x);
      assert s[1..][..if k < 0 then 0 else k] == s[1..if k < 0 then 1 else k + 1];
      if k < 0 then -1 else k + 1
  }

  /** Appending after the first occurrence does not move it. */
  lemma {:induction false} IndexOfAppend<T>(s: seq<T>, t: seq<T>, x: T)
    requires x in s
    ensures IndexOf(s + t, x) == IndexOf(s, x)
  {
    assert (s + t)[0] == s[0];
    if s[0] != x {
      assert (s + t)[1..] == s[1..] + t;
      IndexOfAppend(s[1..], t, x);
    }
  }

  /** The sequence back to front. */
  function Reverse<T>(s: seq<T>): (r: seq<T>)
    ensures |r| == |s| && forall i :: 0 <= i < |s| ==> r[i] == s[|s| - 1 - i]
  {
    if s == [] then [] else Reverse(s[1..]) + [s[0]]
  }

  lemma ReverseCons<T>(x: T, s: seq<T>)
    ensures Reverse([x] + s) == Reverse(s) + [x]
  {
    assert ([x] + s)[1..] == s;
  }

  lemma ReverseReverse<T>(s: seq<T>)
    ensures Reverse(Reverse(s)) == s
  {
  }

  /** Array.prototype.slice(0, n). */
  function Take<T>(s: seq<T>, n: nat): (r: seq<T>)
    ensures |r| == if n < |s| then n else |s|
    ensures r <= s
  {
    if n < |s| then s[..n] else s
  }

  /** The same sequence with position `i` removed; an index out of range changes nothing. */
  function RemoveAt<T>(s: seq<T>, i: int): (r: seq<T>)
    ensures 0 <= i < |s| ==> |r| == |s| - 1 && r == s[..i] + s[i + 1..]
    ensures !(0 <= i < |s|) ==> r == s
  {
    if 0 <= i < |s| then s[..i] + s[i + 1..] else s
  }

  // ---------------------------------------------------------------------
  // Stable sorting (Array.prototype.sort is stable since ES2019)
  // ---------------------------------------------------------------------

  /** `le` is a total preorder: the comparator of a consistent sort. */
  ghost predicate TotalPreorder<T(!new)>(le: (T, T) -> bool)
  {
    && (forall a, b :: le(a, b) || le(b, a))
    && (forall a, b, c :: le(a, b) && le(b, c) ==> le(a, c))
  }

  predicate SortedBy<T>(s: seq<T>, le: (T, T) -> bool)
  {
    forall i, j :: 0 <= i < j < |s| ==> le(s[i], s[j])
  }

  /** Inserts `x` in front of the first element it is not after. */
  function Insert<T>(x: T, t: seq<T>, le: (T, T) -> bool): seq<T>
  {
    if t == [] then [x]
    else if le(x, t[0]) then [x] + t
    else [t[0]] + Insert(x, t[1..], le)
  }

  /** Insertion sort: elements that compare equal keep their input order. */
  function SortBy<T>(s: seq<T>, le: (T, T) -> bool): seq<T>
  {
    if s == [] then [] else Insert(s[0], SortBy(s[1..], le), le)
  }

  lemma {:induction false} InsertPerm<T>(x: T, t: seq<T>, le: (T, T) -> bool)
    ensures multiset(Insert(x, t, le)) == multiset(t) + multiset{x}
    ensures |Insert(x, t, le)| == |t| + 1
  {
    if t != [] && !le(x, t[0]) {
      InsertPerm(x, t[1..], le);
      assert t == [t[0]] + t[1..];
    }
  }

  /** Sorting only reorders: whatever the comparator, the result is a permutation. */
  lemma {:induction false} SortPerm<T>(s: seq<T>, le: (T, T) -> bool)
    ensures multiset(SortBy(s, le)) == multiset(s)
    ensures |SortBy(s, le)| == |s|
  {
    if s != [] {
      SortPerm(s[1..], le);
      InsertPerm(s[0], SortBy(s[1..], le), le);
      assert s == [s[0]] + s[1..];
    }
  }

  lemma {:induction false} InsertSorted<T(!new)>(x: T, t: seq<T>, le: (T, T) -> bool)
    requires TotalPreorder(le)
    requires SortedBy(t, le)
    ensures SortedBy(Insert(x, t, le), le)
  {
    if t == [] {
    } else if le(x, t[0]) {
      forall y | y in t ensures le(x, y) {
        var k :| 0 <= k < |t| && t[k] == y;
        if k > 0 { assert le(t[0], t[k]); }
      }
      ConsSorted(x, t, le);
    } else {
      InsertSorted(x, t[1..], le);
      var rest := Insert(x, t[1..], le);
      InsertPerm(x, t[1..], le);
      forall y | y in rest ensures le(t[0], y) {
        assert y in multiset(t[1..]) + multiset{x};
        if y != x {
          assert y in t[1..];
          var k :| 0 <= k < |t[1..]| && t[1..][k] == y;
          assert t[k + 1] == y;
        }
      }
      ConsSorted(t[0], rest, le);
    }
  }

  /** An element that may come before everything in a sorted sequence can lead it. */
  lemma ConsSorted<T>(h: T, rest: seq<T>, le: (T, T) -> bool)
    requires SortedBy(rest, le)
    requires forall y :: y in rest ==> le(h, y)
    ensures SortedBy([h] + rest, le)
  {
    var r := [h] + rest;
    forall i, j | 0 <= i < j < |r| ensures le(r[i], r[j]) {
      assert r[j] == rest[j - 1];
      if i > 0 {
        assert r[i] == rest[i - 1];
      }
    }
  }

  /** With a consistent comparator the result is ordered. */
  lemma {:induction false} SortSorted<T(!new)>(s: seq<T>, le: (T, T) -> bool)
    requires TotalPreorder(le)
    ensures SortedBy(SortBy(s, le), le)
  {
    if s != [] {
      SortSorted(s[1..], le);
      InsertSorted(s[0], SortBy(s[1..], le), le);
    }
  }

  /** In a sorted sequence, an element strictly before another in the order comes first. */
  lemma SortedBefore<T>(s: seq<T>, le: (T, T) -> bool, i: nat, j: nat)
    requires SortedBy(s, le) && i < |s| && j < |s| && i != j && !le(s[j], s[i])
    ensures i < j
  {
  }

  /** The elements of `s` that compare equal to `k`, in order. */
  function EquivRun<T>(s: seq<T>, le: (T, T) -> bool, k: T): seq<T>
  {
    if s == [] then []
    else (if le(s[0], k) && le(k, s[0]) then [s[0]] else []) + EquivRun(s[1..], le, k)
  }

  lemma {:induction false} InsertStable<T(!new)>(x: T, t: seq<T>, le: (T, T) -> bool, k: T)
    requires TotalPreorder(le)
    ensures EquivRun(Insert(x, t, le), le, k)
         == (if le(x, k) && le(k, x) then [x] else []) + EquivRun(t, le, k)
  {
    var ex := if le(x, k) && le(k, x) then [x] else [];
    if t == [] {
      assert Insert(x, t, le) == [x];
      assert EquivRun([x], le, k) == ex + EquivRun([x][1..], le, k);
    } else if le(x, t[0]) {
      assert ([x] + t)[1..] == t;
    } else {
      InsertStable(x, t[1..], le, k);
      NotBothEquivalent(x, t[0], le, k);
      InsertStableStep(x, t, le, k);
    }
  }

  /** The step of `InsertStable` where `x` goes past the head `t[0]`: only one of the two
      can be equivalent to `k`, so their order in the run does not matter. */
  lemma InsertStableStep<T>(x: T, t: seq<T>, le: (T, T) -> bool, k: T)
    requires t != [] && !le(x, t[0])
    requires !(le(x, k) && le(k, x)) || !(le(t[0], k) && le(k, t[0]))
    requires EquivRun(Insert(x, t[1..], le), le, k)
          == (if le(x, k) && le(k, x) then [x] else []) + EquivRun(t[1..], le, k)
    ensures EquivRun(Insert(x, t, le), le, k)
         == (if le(x, k) && le(k, x) then [x] else []) + EquivRun(t, le, k)
  {
    var ex := if le(x, k) && le(k, x) then [x] else [];
    var et := if le(t[0], k) && le(k, t[0]) then [t[0]] else [];
    var rest := Insert(x, t[1..], le);
    var r := EquivRun(t[1..], le, k);
    assert Insert(x, t, le) == [t[0]] + rest;
    EquivRunCons(t[0], rest, le, k);
    EquivRunCons(t[0], t[1..], le, k);
    assert t == [t[0]] + t[1..];
    SwapAroundEmpty(et, ex, r);
    calc {
      EquivRun(Insert(x, t, le), le, k);
      et + EquivRun(rest, le, k);
      et + (ex + r);
      ex + (et + r);
      ex + EquivRun(t, le, k);
    }
  }

  lemma EquivRunCons<T>(h: T, rest: seq<T>, le: (T, T) -> bool, k: T)
    ensures EquivRun([h] + rest, le, k) == (if le(h, k) && le(k, h) then [h] else []) + EquivRun(rest, le, k)
  {
    assert ([h] + rest)[1..] == rest;
  }

  /** Two elements of which the first is strictly after the second are not both
      equivalent to `k`. */
  lemma NotBothEquivalent<T(!new)>(x: T, y: T, le: (T, T) -> bool, k: T)
    requires TotalPreorder(le) && !le(x, y)
    ensures !(le(x, k) && le(k, x)) || !(le(y, k) && le(k, y))
  {
    Trans(le, x, k, y);
  }

  lemma SwapAroundEmpty<T>(a: seq<T>, b: seq<T>, r: seq<T>)
    requires a == [] || b == []
    ensures a + (b + r) == b + (a + r)
  {
    if a == [] {
      assert a + (b + r) == b + r && a + r == r;
    } else {
      assert b + r == r && b + (a + r) == a + r;
    }
  }

  lemma Trans<T(!new)>(le: (T, T) -> bool, a: T, b: T, c: T)
    requires TotalPreorder(le)
    ensures le(a, b) && le(b, c) ==> le(a, c)
  {
  }

  /** Stability: for every equivalence class, sorting keeps the class's elements in input order. */
  lemma {:induction false} SortStable<T(!new)>(s: seq<T>, le: (T, T) -> bool, k: T)
    requires TotalPreorder(le)
    ensures EquivRun(SortBy(s, le), le, k) == EquivRun(s, le, k)
  {
    if s != [] {
      SortStable(s[1..], le, k);
      InsertStable(s[0], SortBy(s[1..], le), le, k);
    }
  }

  /** Integer keys, ascending (comparator `key(a) - key(b)`). */
  function ByKeyAsc<T>(key: T -> int): (T, T) -> bool
  {
    (a: T, b: T) => key(a) <= key(b)
  }

  /** Integer keys, descending (comparator `key(b) - key(a)`). */
  function ByKeyDesc<T>(key: T -> int): (T, T) -> bool
  {
    (a: T, b: T) => key(b) <= key(a)
  }

  lemma KeyOrdersAreTotal<T(!new)>(key: T -> int)
    ensures TotalPreorder(ByKeyAsc(key)) && TotalPreorder(ByKeyDesc(key))
  {
  }

  /** The first `n` elements of a sort are the top `n`: no element left out comes strictly
      before an element kept. */
  lemma TakeOfSortIsTop<T(!new)>(s: seq<T>, le: (T, T) -> bool, n: nat)
    requires TotalPreorder(le)
    ensures var top := Take(SortBy(s, le), n);
      forall x, y :: x in top && y in multiset(s) - multiset(top) ==> le(x, y)
  {
    var r := SortBy(s, le);
    SortPerm(s, le);
    SortSorted(s, le);
    var m := |Take(r, n)|;
    RestOfPrefix(r, m);
    SortedPrefixFirst(r, le, m);
  }

  /** What a prefix leaves of a sequence's multiset is the multiset of the rest. */
  lemma RestOfPrefix<T>(r: seq<T>, m: nat)
    requires m <= |r|
    ensures multiset(r) - multiset(r[..m]) == multiset(r[m..])
  {
    assert r == r[..m] + r[m..];
  }

  /** In a sorted sequence, everything in a prefix may come before everything after it. */
  lemma SortedPrefixFirst<T>(r: seq<T>, le: (T, T) -> bool, m: nat)
    requires SortedBy(r, le) && m <= |r|
    ensures forall x, y :: x in r[..m] && y in multiset(r[m..]) ==> le(x, y)
  {
    forall x, y | x in r[..m] && y in multiset(r[m..]) ensures le(x, y) {
      var i :| 0 <= i < m && r[..m][i] == x;
      assert y in r[m..];
      var j :| 0 <= j < |r[m..]| && r[m..][j] == y;
      assert r[i] == x && r[m + j] == y;
    }
  }

  /** Sorting by a descending integer key keeps the elements and puts larger keys first. */
  lemma SortByKeyDescSpec<T(!new)>(s: seq<T>, key: T -> int)
    ensures var r := SortBy(s, ByKeyDesc(key));
      && multiset(r) == multiset(s)
      && (forall x :: x in r <==> x in s)
      && (forall i, j :: 0 <= i < j < |r| ==> key(r[j]) <= key(r[i]))
  {
    var r := SortBy(s, ByKeyDesc(key));
    SortPerm(s, ByKeyDesc(key));
    KeyOrdersAreTotal(key);
    SortSorted(s, ByKeyDesc(key));
    forall x ensures x in r <==> x in s {
      assert x in r <==> x in multiset(r);
    }
    forall i, j | 0 <= i < j < |r| ensures key(r[j]) <= key(r[i]) {
      assert ByKeyDesc(key)(r[i], r[j]);
    }
  }

  /** Sorting by a descending integer key keeps elements with equal keys in input order. */
  lemma SortByKeyDescStable<T(!new)>(s: seq<T>, key: T -> int)
    ensures forall k :: EquivRun(SortBy(s, ByKeyDesc(key)), ByKeyDesc(key), k) == EquivRun(s, ByKeyDesc(key), k)
  {
    KeyOrdersAreTotal(key);
    forall k ensures EquivRun(SortBy(s, ByKeyDesc(key)), ByKeyDesc(key), k) == EquivRun(s, ByKeyDesc(key), k) {
      SortStable(s, ByKeyDesc(key), k);
    }
  }

  /** The first `n` of a sort by a descending key hold the `n` largest keys. */
  lemma TopByKeyDesc<T(!new)>(s: seq<T>, key: T -> int, n: nat)
    ensures var top := Take(SortBy(s, ByKeyDesc(key)), n);
      forall x, y :: x in top && y in multiset(s) - multiset(top) ==> key(y) <= key(x)
  {
    KeyOrdersAreTotal(key);
    TakeOfSortIsTop(s, ByKeyDesc(key), n);
    var top := Take(SortBy(s, ByKeyDesc(key)), n);
    forall x, y | x in top && y in multiset(s) - multiset(top) ensures key(y) <= key(x) {
      assert ByKeyDesc(key)(x, y);
    }
  }
}
