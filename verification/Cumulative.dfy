/** Selection by cumulative weight, shared by the load balancer (src/balance.rs) and the A/B
    splitter (src/absplit.rs): a point of [0, total) belongs to the entry whose interval of
    running weights contains it. */
module Cumulative {

  /** The weight of the first `i` entries. */
  function Prefix(ws: seq<nat>, i: nat): nat
    requires i <= |ws|
  {
    if i == 0 then 0 else Prefix(ws, i - 1) + ws[i - 1]
  }

  function Total(ws: seq<nat>): nat {
    Prefix(ws, |ws|)
  }

  /** Point `p` lies in the interval of entry `i`. */
  predicate Owns(ws: seq<nat>, i: int, p: int) {
    0 <= i < |ws| && Prefix(ws, i) <= p < Prefix(ws, i + 1)
  }

  lemma {:induction false} PrefixMonotone(ws: seq<nat>, i: nat, j: nat)
    requires i <= j <= |ws|
    ensures Prefix(ws, i) <= Prefix(ws, j)
    decreases j - i
  {
    if i < j {
      PrefixMonotone(ws, i, j - 1);
    }
  }

  /** Every point has at most one owner. */
  lemma OwnerUnique(ws: seq<nat>, i: int, j: int, p: int)
    requires Owns(ws, i, p) && Owns(ws, j, p)
    ensures i == j
  {
    if i < j {
      PrefixMonotone(ws, i + 1, j);
    } else if j < i {
      PrefixMonotone(ws, j + 1, i);
    }
  }

  /** Every point of [0, total) has an owner. */
  function Owner(ws: seq<nat>, p: nat): (i: nat)
    requires p < Total(ws)
    ensures Owns(ws, i, p)
  {
    OwnerBelow(ws, p, |ws|)
  }

  function OwnerBelow(ws: seq<nat>, p: nat, k: nat): (i: nat)
    requires k <= |ws| && p < Prefix(ws, k)
    ensures i < k && Owns(ws, i, p)
  {
    if Prefix(ws, k - 1) <= p then k - 1 else OwnerBelow(ws, p, k - 1)
  }

  /** The scan both callers run: the first entry whose running total exceeds the point, or
      `None` (here |ws|) when there is none. */
  method Scan(ws: seq<nat>, p: nat) returns (i: nat)
    ensures p < Total(ws) ==> Owns(ws, i, p)
    ensures p >= Total(ws) ==> i == |ws|
  {
    var cumulative := 0;
    i := 0;
    while i < |ws|
      invariant i <= |ws| && cumulative == Prefix(ws, i) <= p
    {
      cumulative := cumulative + ws[i];
      if p < cumulative {
        PrefixMonotone(ws, i + 1, |ws|);
        return;
      }
      i := i + 1;
    }
  }

  /** How many of the ticks lo, ..., hi - 1 fall, modulo the total weight, to entry `i`. */
  function Share(ws: seq<nat>, i: nat, lo: nat, hi: nat): nat
    requires Total(ws) > 0 && lo <= hi
    decreases hi
  {
    if lo == hi then 0
    else Share(ws, i, lo, hi - 1) + if Owns(ws, i, (hi - 1) % Total(ws)) then 1 else 0
  }

  lemma {:induction false} ShareSplit(ws: seq<nat>, i: nat, lo: nat, mid: nat, hi: nat)
    requires Total(ws) > 0 && lo <= mid <= hi
    ensures Share(ws, i, lo, hi) == Share(ws, i, lo, mid) + Share(ws, i, mid, hi)
    decreases hi
  {
    if mid < hi {
      ShareSplit(ws, i, lo, mid, hi - 1);
    }
  }

  function Overlap(lo: int, hi: int, a: int, b: int): int {
    var l := if lo < a then a else lo;
    var h := if hi < b then hi else b;
    if l < h then h - l else 0
  }

  lemma SmallMod(t: nat, w: nat)
    requires t < w
    ensures t % w == t
  {
  }

  /** Below the total weight the share is the length of an intersection of intervals. */
  lemma {:induction false} ShareBelowTotal(ws: seq<nat>, i: nat, lo: nat, hi: nat)
    requires Total(ws) > 0 && lo <= hi <= Total(ws) && i < |ws|
    ensures Share(ws, i, lo, hi) == Overlap(lo, hi, Prefix(ws, i), Prefix(ws, i + 1))
    decreases hi
  {
    if lo < hi {
      ShareBelowTotal(ws, i, lo, hi - 1);
      SmallMod(hi - 1, Total(ws));
    }
  }

  lemma MulAtLeast(k: int, w: int)
    requires k >= 1 && w > 0
    ensures k * w >= w
  {
    assert (k - 1) * w >= 0;
    assert k * w == (k - 1) * w + w;
  }

  lemma DivModUnique(x: int, q: int, r: int, w: int)
    requires w > 0 && 0 <= r < w && x == q * w + r
    ensures x / w == q && x % w == r
  {
    var k := q - x / w;
    assert k * w == q * w - (x / w) * w;
    assert k * w == x % w - r;
    if k >= 1 {
      MulAtLeast(k, w);
    } else if k <= -1 {
      MulAtLeast(-k, w);
    }
  }

  lemma ModShift(t: nat, w: nat)
    requires w > 0
    ensures (t + w) % w == t % w
  {
    assert t + w == (t / w + 1) * w + t % w;
    DivModUnique(t + w, t / w + 1, t % w, w);
  }

  /** Any full round, wherever it starts, gives entry `i` exactly its weight. */
  lemma {:induction false} FullRound(ws: seq<nat>, i: nat, c: nat)
    requires Total(ws) > 0 && i < |ws|
    ensures Share(ws, i, c, c + Total(ws)) == ws[i]
  {
    var w := Total(ws);
    if c == 0 {
      ShareBelowTotal(ws, i, 0, w);
      PrefixMonotone(ws, i + 1, |ws|);
    } else {
      FullRound(ws, i, c - 1);
      ShareSplit(ws, i, c - 1, c, c - 1 + w);
      ShareSplit(ws, i, c - 1, c - 1, c);
      ModShift(c - 1, w);
    }
  }

  lemma {:induction false} FullRounds(ws: seq<nat>, i: nat, c: nat, q: nat)
    requires Total(ws) > 0 && i < |ws|
    ensures q * Total(ws) >= 0
    ensures Share(ws, i, c, c + q * Total(ws)) == q * ws[i]
  {
    var w := Total(ws);
    if q > 0 {
      FullRounds(ws, i, c, q - 1);
      var mid := c + (q - 1) * w;
      assert mid + w == c + q * w;
      ShareSplit(ws, i, c, mid, mid + w);
      FullRound(ws, i, mid);
      assert q * ws[i] == (q - 1) * ws[i] + ws[i];
    }
  }

  lemma {:induction false} ShareAtMostLength(ws: seq<nat>, i: nat, lo: nat, hi: nat)
    requires Total(ws) > 0 && lo <= hi
    ensures Share(ws, i, lo, hi) <= hi - lo
    decreases hi
  {
    if lo < hi {
      ShareAtMostLength(ws, i, lo, hi - 1);
    }
  }

  /** Exact fairness over q full rounds and r < total further ticks. */
  lemma Fair(ws: seq<nat>, i: nat, c: nat, q: nat, r: nat)
    requires Total(ws) > r && i < |ws|
    ensures q * Total(ws) >= 0
    ensures q * ws[i] <= Share(ws, i, c, c + q * Total(ws) + r)
    ensures Share(ws, i, c, c + q * Total(ws) + r) <= q * ws[i] + if ws[i] < r then ws[i] else r
  {
    var w := Total(ws);
    FullRounds(ws, i, c, q);
    var mid := c + q * w;
    ShareSplit(ws, i, c, mid, mid + r);
    ShareAtMostLength(ws, i, mid, mid + r);
    ShareSplit(ws, i, mid, mid + r, mid + w);
    FullRound(ws, i, mid);
  }

  lemma {:induction false} ModShiftMany(t: nat, m: nat, w: nat)
    requires w > 0
    ensures m * w >= 0 && (t + m * w) % w == t % w
  {
    assert t + m * w == (t / w + m) * w + t % w;
    DivModUnique(t + m * w, t / w + m, t % w, w);
  }

  /** Shares are periodic in the total weight. */
  lemma {:induction false} ShareShift(ws: seq<nat>, i: nat, lo: nat, hi: nat, m: nat)
    requires Total(ws) > 0 && lo <= hi
    ensures m * Total(ws) >= 0
    ensures Share(ws, i, lo + m * Total(ws), hi + m * Total(ws)) == Share(ws, i, lo, hi)
    decreases hi
  {
    assert m * Total(ws) >= 0;
    if lo < hi {
      ShareShift(ws, i, lo, hi - 1, m);
      ModShiftMany(hi - 1, m, Total(ws));
    }
  }

  /** How many of `k` ticks of a counter of range `u`, started at `c` and wrapping to zero at
      `u`, fall to entry `i`. */
  function Picks(ws: seq<nat>, i: nat, u: nat, c: nat, k: nat): nat
    requires Total(ws) > 0 && u > 0
  {
    if k == 0 then 0
    else Picks(ws, i, u, c, k - 1) + if Owns(ws, i, ((c + k - 1) % u) % Total(ws)) then 1 else 0
  }

  lemma {:induction false} PicksBeforeWrap(ws: seq<nat>, i: nat, u: nat, c: nat, k: nat)
    requires Total(ws) > 0 && u > 0 && c + k <= u
    ensures Picks(ws, i, u, c, k) == Share(ws, i, c, c + k)
  {
    if k > 0 {
      PicksBeforeWrap(ws, i, u, c, k - 1);
      SmallMod(c + k - 1, u);
    }
  }

  lemma {:induction false} PicksAcrossWrap(ws: seq<nat>, i: nat, u: nat, c: nat, k: nat)
    requires Total(ws) > 0 && 0 <= c <= u <= c + k <= 2 * u && u > 0
    ensures Picks(ws, i, u, c, k) == Share(ws, i, c, u) + Share(ws, i, 0, c + k - u)
  {
    if c + k == u {
      PicksBeforeWrap(ws, i, u, c, k);
    } else {
      PicksAcrossWrap(ws, i, u, c, k - 1);
      var t := c + k - 1 - u;
      ModShift(t, u);
      SmallMod(t, u);
    }
  }

  /** Ticks after a wrap continue as if the counter had gone on from a multiple of the total. */
  lemma SharePastMultiple(ws: seq<nat>, i: nat, u: nat, m: nat, r: nat, lo: nat, hi: nat)
    requires Total(ws) > 0 && u == m * Total(ws) + r && lo <= hi
    ensures u - r >= 0
    ensures Share(ws, i, lo + (u - r), hi + (u - r)) == Share(ws, i, lo, hi)
  {
    ShareShift(ws, i, lo, hi, m);
    var shift := m * Total(ws);
    assert u - r == shift;
  }

  lemma DivModParts(u: nat, w: nat) returns (m: nat, r: nat)
    requires w > 0
    ensures u == m * w + r && r == u % w < w
  {
    m, r := u / w, u % w;
  }

  /** A counter range that is a multiple of the total weight keeps every round exact. */
  lemma ExactWhenAligned(ws: seq<nat>, i: nat, u: nat, c: nat)
    requires Total(ws) > 0 && i < |ws| && c < u && Total(ws) <= u && u % Total(ws) == 0
    ensures Picks(ws, i, u, c, Total(ws)) == ws[i]
  {
    var w := Total(ws);
    var m, r := DivModParts(u, w);
    FullRound(ws, i, c);
    if c + w <= u {
      PicksBeforeWrap(ws, i, u, c, w);
    } else {
      PicksAcrossWrap(ws, i, u, c, w);
      SharePastMultiple(ws, i, u, m, 0, 0, c + w - u);
      ShareSplit(ws, i, c, u, c + w);
    }
  }

  /** Otherwise the last entry is shorted by one in some round that crosses the wrap. */
  lemma ShortWhenMisaligned(ws: seq<nat>, u: nat) returns (c: nat)
    requires |ws| >= 2 && ws[0] >= 1 && ws[|ws| - 1] >= 1
    requires 0 < Total(ws) <= u && u % Total(ws) != 0
    ensures c < u && Picks(ws, |ws| - 1, u, c, Total(ws)) == ws[|ws| - 1] - 1
  {
    var w, last := Total(ws), |ws| - 1;
    var m, r := DivModParts(u, w);
    var a := Prefix(ws, last);
    assert w == a + ws[last];
    assert 1 <= a by {
      PrefixMonotone(ws, 1, last);
      assert Prefix(ws, 1) == ws[0];
    }
    var j := if r <= a then 1 else r - a + 1;
    assert 1 <= j <= r && j <= ws[last];
    c := u - j;
    PicksAcrossWrap(ws, last, u, c, w);
    SharePastMultiple(ws, last, u, m, r, r - j, r);
    ShareBelowTotal(ws, last, r - j, r);
    ShareBelowTotal(ws, last, 0, w - j);
  }
}
