/** Orders of server indices: permutations, the ring, and stable sorting of 0..n by a
    comparator, as the standard library's `sort_by` does it. */
module Sorting {
  import opened Prelude
  import opened Cumulative

  predicate Distinct(s: seq<nat>) {
    forall j, k :: 0 <= j < k < |s| ==> s[j] != s[k]
  }

  /** Every index below `n` exactly once. */
  predicate IsPermutation(order: seq<nat>, n: nat) {
    |order| == n && Distinct(order) && forall k :: 0 <= k < n ==> order[k] < n
  }

  function Elements(s: seq<nat>): (r: set<int>)
    ensures forall x :: x in r <==> x in s
    ensures Distinct(s) ==> |r| == |s|
  {
    if s == [] then {}
    else
      var n := |s| - 1;
      var r := Elements(s[..n]) + {s[n]};
      assert forall x :: x in s <==> x in s[..n] || x == s[n];
      r
  }

  /** A permutation leaves nothing out. */
  lemma PermutationCovers(order: seq<nat>, n: nat, i: nat)
    requires IsPermutation(order, n) && i < n
    ensures i in order
  {
    if i !in order {
      SubsetSize(Elements(order), Range(0, n) - {i});
      assert false;
    }
  }

  // ---------------------------------------------------------------- the ring

  /** `primary` first, then the rest of the ring. */
  function RingOrder(primary: nat, n: nat): (order: seq<nat>)
    requires n > 0
    ensures |order| == n
  {
    seq(n, off requires 0 <= off < n => (primary + off) % n)
  }

  lemma RingIndex(primary: nat, n: nat, k: nat)
    requires primary < n && k < n
    ensures RingOrder(primary, n)[k] == if primary + k < n then primary + k else primary + k - n
  {
    if primary + k < n {
      SmallMod(primary + k, n);
    } else {
      ModShift(primary + k - n, n);
      SmallMod(primary + k - n, n);
    }
  }

  lemma RingIsPermutation(primary: nat, n: nat)
    requires primary < n
    ensures IsPermutation(RingOrder(primary, n), n)
    ensures RingOrder(primary, n)[0] == primary
  {
    var order := RingOrder(primary, n);
    forall k: nat | k < n
      ensures order[k] == if primary + k < n then primary + k else primary + k - n
    {
      RingIndex(primary, n, k);
    }
  }

  // ---------------------------------------------------------------- stable sorting

  /** `le(a, b)`: the comparator does not answer `Greater` for (a, b). */
  type Comparator = (nat, nat) -> bool

  ghost predicate TotalPreorder(le: Comparator, n: nat) {
    && (forall a: nat, b: nat :: a < n && b < n ==> le(a, b) || le(b, a))
    && (forall a: nat, b: nat, c: nat :: a < n && b < n && c < n && le(a, b) && le(b, c) ==> le(a, c))
  }

  /** Strictly smaller, or equal and of lower index. */
  predicate Before(le: Comparator, a: nat, b: nat) {
    le(a, b) && (!le(b, a) || a < b)
  }

  predicate InOrder(le: Comparator, s: seq<nat>) {
    forall j, k :: 0 <= j < k < |s| ==> Before(le, s[j], s[k])
  }

  /** Inserts `x` behind every element the comparator does not place after it. */
  function Insert(le: Comparator, s: seq<nat>, x: nat): (r: seq<nat>)
    ensures |r| == |s| + 1
    ensures forall y :: y in r <==> y in s || y == x
  {
    if s == [] then [x]
    else
      var n := |s| - 1;
      assert s == s[..n] + [s[n]];
      if le(s[n], x) then s + [x] else Insert(le, s[..n], x) + [s[n]]
  }

  /** A stable sort of 0..n: equal elements keep their order, which is that of the indices. */
  function StableSort(le: Comparator, n: nat): (r: seq<nat>)
    ensures |r| == n
    ensures forall y :: y in r <==> 0 <= y < n
  {
    if n == 0 then [] else Insert(le, StableSort(le, n - 1), n - 1)
  }

  lemma {:induction false} InsertDistinct(le: Comparator, s: seq<nat>, x: nat)
    requires Distinct(s) && x !in s
    ensures Distinct(Insert(le, s, x))
  {
    if s != [] {
      var n := |s| - 1;
      InsertDistinct(le, s[..n], x);
      assert s[n] !in Insert(le, s[..n], x);
    }
  }

  /** Whatever the comparator answers, the result is a permutation. */
  lemma {:induction false} StableSortIsPermutation(le: Comparator, n: nat)
    ensures IsPermutation(StableSort(le, n), n)
  {
    if n > 0 {
      StableSortIsPermutation(le, n - 1);
      InsertDistinct(le, StableSort(le, n - 1), n - 1);
    }
    assert forall k :: 0 <= k < n ==> StableSort(le, n)[k] in StableSort(le, n);
  }

  lemma {:induction false} InsertInOrder(le: Comparator, n: nat, s: seq<nat>, x: nat)
    requires TotalPreorder(le, n) && x < n
    requires InOrder(le, s) && forall y :: y in s ==> y < x
    ensures InOrder(le, Insert(le, s, x))
  {
    if s != [] {
      var m := |s| - 1;
      assert s[m] in s;
      if le(s[m], x) {
        forall k | 0 <= k < m ensures Before(le, s[k], x) {
          assert s[k] in s && Before(le, s[k], s[m]);
        }
      } else {
        assert forall y :: y in s[..m] ==> y in s;
        InsertInOrder(le, n, s[..m], x);
        var r := Insert(le, s[..m], x);
        forall k | 0 <= k < |r| ensures Before(le, r[k], s[m]) {
          assert r[k] in r;
        }
      }
    }
  }

  lemma {:induction false} StableSortInOrder(le: Comparator, n: nat, k: nat)
    requires TotalPreorder(le, n) && k <= n
    ensures InOrder(le, StableSort(le, k))
  {
    if k > 0 {
      StableSortInOrder(le, n, k - 1);
      InsertInOrder(le, n, StableSort(le, k - 1), k - 1);
    }
  }

  lemma HeadFirst(le: Comparator, s: seq<nat>, x: nat)
    requires InOrder(le, s) && x in s
    ensures x == s[0] || Before(le, s[0], x)
  {
  }

  /** Any stable sort gives the same order: there is only one arrangement that is sorted by
      (comparator, index). */
  lemma {:induction false} SortedOrderUnique(le: Comparator, s: seq<nat>, t: seq<nat>)
    requires InOrder(le, s) && InOrder(le, t)
    requires forall x :: x in s <==> x in t
    ensures s == t
  {
    assert t != [] ==> t[0] in s;
    assert s != [] ==> s[0] in t;
    if s != [] {
      HeadFirst(le, s, t[0]);
      HeadFirst(le, t, s[0]);
      assert s[0] == t[0];
      assert forall k :: 0 < k < |s| ==> Before(le, s[0], s[k]);
      assert forall k :: 0 < k < |t| ==> Before(le, t[0], t[k]);
      assert forall x :: x in s <==> x == s[0] || x in s[1..];
      assert forall x :: x in t <==> x == t[0] || x in t[1..];
      assert s[0] !in s[1..] && t[0] !in t[1..];
      SortedOrderUnique(le, s[1..], t[1..]);
      assert s == [s[0]] + s[1..] && t == [t[0]] + t[1..];
    }
  }
}
