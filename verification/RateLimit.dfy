/** The per-connection HTTP/2 reset tracker (src/security/rate_limit.rs).

    The tracker counts cancelled streams in a window that restarts at the first
    reset arriving more than `window` after the current window began.  Times are
    integers (clock ticks).  The clock is read while the mutex is held, so the
    times at which the tracker records resets never decrease. */
module RateLimit {

  /** The mutex-held fields of the tracker. */
  datatype Window = Window(count: nat, started: int)

  /** `Instant::duration_since`, which saturates at zero. */
  function Elapsed(now: int, since: int): nat {
    if now < since then 0 else now - since
  }

  /** The state after one recorded reset. */
  function Advance(window: nat, s: Window, now: int): Window {
    if Elapsed(now, s.started) > window then Window(1, now) else Window(s.count + 1, s.started)
  }

  /** The answer to the reset that led to state `s`. */
  predicate Exceeded(max: nat, s: Window) {
    s.count > max
  }

  class ResetTracker {
    const max: nat
    const window: nat
    var count: nat
    var started: int

    function State(): Window
      reads this
    {
      Window(count, started)
    }

    constructor (max: nat, window: nat, now: int)
      ensures this.max == max && this.window == window
      ensures State() == Window(0, now)
    {
      this.max, this.window := max, window;
      count, started := 0, now;
    }

    method RecordReset(now: int) returns (kill: bool)
      modifies this
      ensures State() == Advance(window, old(State()), now)
      ensures kill == Exceeded(max, State())
    {
      if Elapsed(now, started) > window {
        count := 0;
        started := now;
      }
      count := count + 1;
      kill := count > max;
    }

    /** Records a whole run of resets, one call after the other. */
    method RecordAll(times: seq<int>) returns (answers: seq<bool>)
      modifies this
      ensures State() == StateAfter(window, old(State()), times)
      ensures |answers| == |times|
      ensures forall i :: 0 <= i < |times| ==> answers[i] == Answer(max, window, old(State()), times, i)
    {
      answers := [];
      for n := 0 to |times|
        invariant |answers| == n
        invariant State() == StateAfter(window, old(State()), times[..n])
        invariant forall i :: 0 <= i < n ==> answers[i] == Answer(max, window, old(State()), times, i)
      {
        var kill := RecordReset(times[n]);
        assert times[..n + 1][..n] == times[..n];
        answers := answers + [kill];
      }
      assert times[..|times|] == times;
    }
  }

  /** The state after recording resets at `times`, in order. */
  function StateAfter(window: nat, s: Window, times: seq<int>): Window {
    if times == [] then s
    else Advance(window, StateAfter(window, s, times[..|times| - 1]), times[|times| - 1])
  }

  /** What `record_reset` answers to the i-th reset. */
  predicate Answer(max: nat, window: nat, s: Window, times: seq<int>, i: nat)
    requires i < |times|
  {
    Exceeded(max, StateAfter(window, s, times[..i + 1]))
  }

  /** A clock reading from before the window began, or inside it, never restarts the window. */
  lemma EarlyResetCounts(window: nat, s: Window, now: int)
    ensures Advance(window, s, now) ==
      if now <= s.started + window then Window(s.count + 1, s.started) else Window(1, now)
  {
  }

  predicate NonDecreasing(times: seq<int>) {
    forall i, j :: 0 <= i <= j < |times| ==> times[i] <= times[j]
  }

  /** The clock starts no later than the first reset and never runs backwards. */
  predicate Timeline(start: int, times: seq<int>) {
    NonDecreasing(times) && (times != [] ==> start <= times[0])
  }

  /** How many of the resets at `times` fall in [lo, hi] and are answered "keep going". */
  function Tolerated(max: nat, window: nat, s: Window, times: seq<int>, lo: int, hi: int): nat {
    if times == [] then 0
    else
      var i := |times| - 1;
      Tolerated(max, window, s, times[..i], lo, hi) +
      if lo <= times[i] <= hi && !Exceeded(max, StateAfter(window, s, times)) then 1 else 0
  }

  /** The tolerated resets of a fresh tracker's run in the closed interval [lo, lo + window]. */
  function ToleratedFrom(max: nat, window: nat, start: int, times: seq<int>, lo: int): nat {
    Tolerated(max, window, Window(0, start), times, lo, lo + window)
  }

  function Min(a: nat, b: nat): nat {
    if a < b then a else b
  }

  /** What a run can have spent of the tolerance for [lo, lo + window], in terms of where
      the current tracker window lies: nothing before the interval is reached; at most
      `max` (the counted part of the current window) for the first tracker window that
      reaches into it; and one further window opened inside it. */
  function Spent(max: nat, window: nat, s: Window, lo: int): nat {
    if s.started + window < lo then 0
    else if s.started <= lo then Min(max, s.count)
    else max + Min(max, s.count)
  }

  /** The history invariant behind the 2 * max bound. */
  lemma {:induction false} ToleratedInv(max: nat, window: nat, start: int, times: seq<int>, lo: int)
    requires Timeline(start, times)
    ensures
      var s := StateAfter(window, Window(0, start), times);
      && s.started >= start
      && (times != [] ==> s.started <= times[|times| - 1] <= s.started + window)
      && (times == [] || times[|times| - 1] <= lo + window ==>
           ToleratedFrom(max, window, start, times, lo) <= Spent(max, window, s, lo))
      && ToleratedFrom(max, window, start, times, lo) <= 2 * max
  {
    if times != [] {
      var i := |times| - 1;
      ToleratedInv(max, window, start, times[..i], lo);
    }
  }

  /** Any closed interval as long as the window holds at most 2 * max tolerated resets. */
  lemma ToleranceBound(max: nat, window: nat, start: int, times: seq<int>, lo: int)
    requires Timeline(start, times)
    ensures ToleratedFrom(max, window, start, times, lo) <= 2 * max
  {
    ToleratedInv(max, window, start, times, lo);
  }

  /** With an empty window the interval is one instant, all of whose resets share a tracker
      window, so the bound is `max` and not 2 * max. */
  lemma {:induction false} ToleranceBoundEmptyWindow(max: nat, start: int, times: seq<int>, lo: int)
    requires Timeline(start, times)
    ensures
      var s := StateAfter(0, Window(0, start), times);
      && (times != [] ==> s.started == times[|times| - 1])
      && Tolerated(max, 0, Window(0, start), times, lo, lo) <= max
      && (times == [] || times[|times| - 1] <= lo ==>
           Tolerated(max, 0, Window(0, start), times, lo, lo) <= if s.started == lo then Min(max, s.count) else 0)
  {
    if times != [] {
      ToleranceBoundEmptyWindow(max, start, times[..|times| - 1], lo);
    }
  }

  /** A timeline that ends no later than `last`. */
  predicate EndsBy(start: int, times: seq<int>, last: int) {
    Timeline(start, times) && forall i :: 0 <= i < |times| ==> times[i] <= last
  }

  lemma OneMoreTime(start: int, times: seq<int>, t: int)
    requires EndsBy(start, times, t) && start <= t
    ensures EndsBy(start, times + [t], t)
  {
  }

  /** One more reset, in the interval and not answered "terminate". */
  lemma OneMoreTolerated(max: nat, window: nat, s: Window, times: seq<int>, t: int, lo: int, hi: int)
    requires lo <= t <= hi && Advance(window, StateAfter(window, s, times), t).count <= max
    ensures StateAfter(window, s, times + [t]) == Advance(window, StateAfter(window, s, times), t)
    ensures Tolerated(max, window, s, times + [t], lo, hi) == Tolerated(max, window, s, times, lo, hi) + 1
  {
    assert (times + [t])[..|times|] == times;
  }

  /** `n` more resets at one time within the current tracker window. */
  lemma {:induction false} Burst(max: nat, window: nat, start: int, times: seq<int>, t: int, n: nat, lo: int)
    returns (longer: seq<int>)
    requires EndsBy(start, times, t) && start <= t && lo <= t <= lo + window
    requires
      var s := StateAfter(window, Window(0, start), times);
      Elapsed(t, s.started) <= window && s.count + n <= max
    ensures EndsBy(start, longer, t)
    ensures StateAfter(window, Window(0, start), longer) ==
      var s := StateAfter(window, Window(0, start), times); Window(s.count + n, s.started)
    ensures ToleratedFrom(max, window, start, longer, lo) == ToleratedFrom(max, window, start, times, lo) + n
  {
    if n == 0 {
      longer := times;
    } else {
      var most := Burst(max, window, start, times, t, n - 1, lo);
      OneMoreTolerated(max, window, Window(0, start), most, t, lo, lo + window);
      OneMoreTime(start, most, t);
      longer := most + [t];
    }
  }

  /** A burst of `max` resets at the end of the first window and one of `max` just after it. */
  lemma LateBurst(max: nat, window: nat, start: int) returns (times: seq<int>)
    requires max > 0 && window > 0
    ensures Timeline(start, times) && ToleratedFrom(max, window, start, times, start + window) == 2 * max
  {
    var first := EndOfWindow(max, window, start);
    var lo := start + window;
    OneMoreTolerated(max, window, Window(0, start), first, lo + 1, lo, lo + window);
    OneMoreTime(start, first, lo + 1);
    times := Burst(max, window, start, first + [lo + 1], lo + 1, max - 1, lo);
  }

  lemma EndOfWindow(max: nat, window: nat, start: int) returns (times: seq<int>)
    ensures EndsBy(start, times, start + window)
    ensures StateAfter(window, Window(0, start), times) == Window(max, start)
    ensures ToleratedFrom(max, window, start, times, start + window) == max
  {
    times := Burst(max, window, start, [], start + window, max, start + window);
  }

  /** The bound is reached for every positive `max` and window: a burst of 2 * max resets
      inside one closed interval of length `window`, none of which is answered "terminate".
      A true sliding window would have terminated at the (max + 1)-st of them. */
  lemma ToleranceBoundReached(max: nat, window: nat, start: int)
    requires max > 0 && window > 0
    ensures exists times, lo ::
      && Timeline(start, times)
      && ToleratedFrom(max, window, start, times, lo) == 2 * max
  {
    var times := LateBurst(max, window, start);
    var lo := start + window;
    assert ToleratedFrom(max, window, start, times, lo) == 2 * max;
  }

  /** The worst case over all runs is 2 * max exactly when the window is not empty or nothing is
      tolerated at all. */
  lemma WorstCase(max: nat, window: nat, start: int)
    ensures (exists times, lo ::
               && Timeline(start, times)
               && ToleratedFrom(max, window, start, times, lo) == 2 * max)
       <==> window > 0 || max == 0
  {
    if max == 0 {
      ToleranceBound(max, window, start, [], start);
      assert ToleratedFrom(max, window, start, [], start) == 2 * max;
    } else if window > 0 {
      ToleranceBoundReached(max, window, start);
    } else {
      forall times: seq<int>, lo: int | Timeline(start, times)
        ensures ToleratedFrom(max, window, start, times, lo) != 2 * max
      {
        ToleranceBoundEmptyWindow(max, start, times, lo);
        assert lo + window == lo;
      }
    }
  }

  /** What a sliding window promises: no interval as long as the window holds more than `max`
      tolerated resets. */
  ghost predicate Slides(max: nat, window: nat, start: int) {
    forall times: seq<int>, lo: int :: Timeline(start, times) ==> ToleratedFrom(max, window, start, times, lo) <= max
  }

  /** The tracker keeps that promise exactly when the window is empty or nothing is tolerated. */
  lemma SlidingIff(max: nat, window: nat, start: int)
    ensures Slides(max, window, start) <==> window == 0 || max == 0
  {
    if window == 0 || max == 0 {
      forall times: seq<int>, lo: int | Timeline(start, times)
        ensures ToleratedFrom(max, window, start, times, lo) <= max
      {
        if window == 0 {
          ToleranceBoundEmptyWindow(max, start, times, lo);
          assert lo + window == lo;
        } else {
          ToleranceBound(max, window, start, times, lo);
        }
      }
    } else {
      ToleranceBoundReached(max, window, start);
    }
  }

  /** The counter is the number of trailing resets that fell in the current window; it never
      exceeds the number of calls, so it cannot overflow before that many calls were made. */
  lemma {:induction false} CountIsTrailingResets(window: nat, start: int, times: seq<int>)
    requires Timeline(start, times)
    ensures
      var s := StateAfter(window, Window(0, start), times);
      && s.count <= |times|
      && (forall j :: |times| - s.count <= j < |times| ==> s.started <= times[j] <= s.started + window)
      && (forall j :: 0 <= j < |times| - s.count ==> times[j] < s.started)
      && (s.count < |times| ==> s.started == times[|times| - s.count])
      && (s.count == |times| ==> s.started == start || (times != [] && s.started == times[0] > start + window))
  {
    if times != [] {
      CountIsTrailingResets(window, start, times[..|times| - 1]);
    }
  }

  /** No false alarm: a "terminate" answer means the last max + 1 resets, this one included,
      all arrived within one `window`. */
  lemma KillIsJustified(max: nat, window: nat, start: int, times: seq<int>, i: nat)
    requires Timeline(start, times) && i < |times|
    requires Answer(max, window, Window(0, start), times, i)
    ensures i >= max
    ensures forall j :: i - max <= j <= i ==> times[i] - window <= times[j] <= times[i]
  {
    CountIsTrailingResets(window, start, times[..i + 1]);
  }

  /** Resets of the interval that are all let through are all counted. */
  lemma {:induction false} ToleratedAtLeast(
    max: nat, window: nat, s: Window, times: seq<int>, lo: int, hi: int, first: nat, k: nat)
    requires first + k <= |times|
    requires forall i :: first <= i < first + k ==> lo <= times[i] <= hi && !Answer(max, window, s, times, i)
    ensures Tolerated(max, window, s, times, lo, hi) >= k
    decreases |times|
  {
    if k > 0 {
      var n := |times| - 1;
      assert times[..n + 1] == times;
      forall i: nat | first <= i < n && i < first + k ensures !Answer(max, window, s, times[..n], i) {
        assert times[..n][..i + 1] == times[..i + 1];
        assert !Answer(max, window, s, times, i);
      }
      if first + k <= n {
        ToleratedAtLeast(max, window, s, times[..n], lo, hi, first, k);
      } else {
        ToleratedAtLeast(max, window, s, times[..n], lo, hi, first, k - 1);
        assert !Answer(max, window, s, times, n);
      }
    }
  }

  /** More than 2 * max resets in an interval as long as the window are never all let through. */
  lemma FloodIsCaught(max: nat, window: nat, start: int, times: seq<int>, first: nat)
    requires Timeline(start, times)
    requires first + 2 * max < |times| && times[first + 2 * max] <= times[first] + window
    ensures exists i :: first <= i <= first + 2 * max && Answer(max, window, Window(0, start), times, i)
  {
    var s, lo := Window(0, start), times[first];
    if forall i :: first <= i <= first + 2 * max ==> !Answer(max, window, s, times, i) {
      ToleratedAtLeast(max, window, s, times, lo, lo + window, first, 2 * max + 1);
      ToleranceBound(max, window, start, times, lo);
      assert false;
    }
  }
}
