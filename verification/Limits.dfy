/** The process-wide connection cap (src/security/limits.rs).

    `acquire_connection` adds first and takes the addition back when the cap was already
    reached, so between its two atomic instructions a refused acquirer is still counted.
    The model interleaves the single `fetch_add` / `fetch_sub` steps of any number of
    connection attempts.  A refused acquirer that has not yet undone its addition occupies
    an OS thread, so at most `threads` of them exist at a time. */
module Limits {
  import opened Prelude

  const MAX_CONNECTIONS: nat := 10000

  type Attempt = nat

  /** `counter` is the shared atomic; `held` the attempts that own a slot; `undoing` those
      that were refused and still have to execute their `fetch_sub`. */
  datatype State = State(counter: nat, held: set<Attempt>, undoing: set<Attempt>)

  datatype Event = Add(attempt: Attempt) | Undo(attempt: Attempt) | Release(attempt: Attempt)

  const INITIAL := State(0, {}, {})

  function FetchAdd(counter: nat): nat {
    (counter + 1) % U64
  }

  function FetchSub(counter: nat): nat {
    (counter + U64 - 1) % U64
  }

  predicate Enabled(threads: nat, s: State, e: Event) {
    match e
    case Add(a) => a !in s.held && a !in s.undoing && |s.undoing| < threads
    case Undo(a) => a in s.undoing
    case Release(a) => a in s.held
  }

  predicate Refused(s: State, e: Event) {
    e.Add? && s.counter >= MAX_CONNECTIONS
  }

  function Step(s: State, e: Event): State {
    match e
    case Add(a) =>
      if s.counter >= MAX_CONNECTIONS then State(FetchAdd(s.counter), s.held, s.undoing + {a})
      else State(FetchAdd(s.counter), s.held + {a}, s.undoing)
    case Undo(a) => State(FetchSub(s.counter), s.held, s.undoing - {a})
    case Release(a) => State(FetchSub(s.counter), s.held - {a}, s.undoing)
  }

  /** The state after a sequence of steps. */
  function After(events: seq<Event>): State {
    if events == [] then INITIAL else Step(After(events[..|events| - 1]), events[|events| - 1])
  }

  /** Every step is one its attempt can take at that point. */
  predicate Run(threads: nat, events: seq<Event>) {
    events == [] ||
    (Run(threads, events[..|events| - 1]) && Enabled(threads, After(events[..|events| - 1]), events[|events| - 1]))
  }

  /** The static counter and its atomic instructions, with the attempts that own a part of it. */
  class ConnectionCounter {
    var active: nat
    ghost var held: set<Attempt>
    ghost var undoing: set<Attempt>

    ghost function View(): State
      reads this
    {
      State(active, held, undoing)
    }

    constructor ()
      ensures View() == INITIAL
    {
      active, held, undoing := 0, {}, {};
    }

    /** The first instruction of `acquire_connection` and the branch on its result. */
    method AddOne(ghost a: Attempt) returns (refused: bool)
      modifies this
      ensures refused == Refused(old(View()), Add(a))
      ensures View() == Step(old(View()), Add(a))
    {
      var prev := active;
      active := (active + 1) % U64;
      refused := prev >= MAX_CONNECTIONS;
      if refused {
        undoing := undoing + {a};
      } else {
        held := held + {a};
      }
    }

    /** The second instruction of a refused `acquire_connection`. */
    method UndoOne(ghost a: Attempt)
      requires a in undoing
      modifies this
      ensures View() == Step(old(View()), Undo(a))
    {
      active := (active + U64 - 1) % U64;
      undoing := undoing - {a};
    }

    /** `acquire_connection` when no other attempt runs between its two instructions. */
    method AcquireConnection(ghost a: Attempt) returns (ok: bool)
      requires Inv(View()) && |undoing| + MAX_CONNECTIONS + 1 < U64
      requires a !in held && a !in undoing
      modifies this
      ensures Inv(View()) && undoing == old(undoing)
      ensures ok <==> old(|held| + |undoing|) < 10000
      ensures held == if ok then old(held) + {a} else old(held)
    {
      StepKeepsInv(|undoing| + 1, View(), Add(a));
      var refused := AddOne(a);
      ok := !refused;
      if refused {
        StepKeepsInv(|undoing|, View(), Undo(a));
        UndoOne(a);
        assert undoing == old(undoing);
      }
    }

    /** `release_connection`, called by the drop of the connection's guard. */
    method ReleaseConnection(ghost a: Attempt)
      requires a in held
      modifies this
      ensures View() == Step(old(View()), Release(a))
    {
      active := (active + U64 - 1) % U64;
      held := held - {a};
    }
  }

  /** The counter is exactly the slots held plus the additions still to be undone, and the
      slots held never exceed the cap. */
  predicate Inv(s: State) {
    && s.held !! s.undoing
    && s.counter == |s.held| + |s.undoing|
    && |s.held| <= MAX_CONNECTIONS
  }

  lemma FetchAddExact(counter: nat)
    requires counter + 1 < U64
    ensures FetchAdd(counter) == counter + 1
  {
  }

  lemma FetchSubExact(counter: nat)
    requires 0 < counter < U64
    ensures FetchSub(counter) == counter - 1
  {
    assert (counter - 1 + U64) % U64 == counter - 1;
  }

  lemma AddKeepsInv(s: State, a: Attempt)
    requires Inv(s) && s.counter + 1 < U64 && a !in s.held && a !in s.undoing
    ensures Inv(Step(s, Add(a)))
    ensures |Step(s, Add(a)).undoing| <= |s.undoing| + 1
  {
    FetchAddExact(s.counter);
    assert |s.held + {a}| == |s.held| + 1;
    assert |s.undoing + {a}| == |s.undoing| + 1;
  }

  lemma UndoKeepsInv(s: State, a: Attempt)
    requires Inv(s) && s.counter < U64 && a in s.undoing
    ensures Inv(Step(s, Undo(a)))
    ensures |Step(s, Undo(a)).undoing| == |s.undoing| - 1
  {
    assert |s.undoing - {a}| == |s.undoing| - 1;
    FetchSubExact(s.counter);
  }

  lemma ReleaseKeepsInv(s: State, a: Attempt)
    requires Inv(s) && s.counter < U64 && a in s.held
    ensures Inv(Step(s, Release(a)))
  {
    assert |s.held - {a}| == |s.held| - 1;
    FetchSubExact(s.counter);
  }

  lemma StepKeepsInv(threads: nat, s: State, e: Event)
    requires threads + MAX_CONNECTIONS < U64 && |s.undoing| <= threads
    requires Inv(s) && Enabled(threads, s, e)
    ensures Inv(Step(s, e))
    ensures |Step(s, e).undoing| <= threads
  {
    match e
    case Add(a) => AddKeepsInv(s, a);
    case Undo(a) => UndoKeepsInv(s, a);
    case Release(a) => ReleaseKeepsInv(s, a);
  }

  /** Safety over every interleaving: the counter never under- or overflows and equals held
      plus pending undos, and the cap on held slots is never exceeded. */
  lemma {:induction false} CounterIsExact(threads: nat, events: seq<Event>)
    requires threads + MAX_CONNECTIONS < U64
    requires Run(threads, events)
    ensures Inv(After(events))
    ensures |After(events).undoing| <= threads
    ensures After(events).counter <= MAX_CONNECTIONS + threads
    ensures |After(events).held| <= 10000
  {
    if events != [] {
      var n := |events| - 1;
      CounterIsExact(threads, events[..n]);
      StepKeepsInv(threads, After(events[..n]), events[n]);
    }
  }

  /** From step j to step k refused additions are pending without a break, the stretch having
      begun when the cap was reached by held slots alone. */
  predicate RefusalStretch(events: seq<Event>, j: nat, k: nat)
    requires j <= k <= |events|
  {
    && After(events[..j]).undoing == {}
    && |After(events[..j]).held| == MAX_CONNECTIONS
    && forall i :: j < i <= k ==> After(events[..i]).undoing != {}
  }

  lemma {:induction false} PendingUndoHasStretch(threads: nat, events: seq<Event>, k: nat) returns (j: nat)
    requires threads + MAX_CONNECTIONS < U64
    requires k <= |events| && Run(threads, events[..k])
    requires After(events[..k]).undoing != {}
    ensures j < k && RefusalStretch(events, j, k)
  {
    assert k > 0;
    var before := events[..k - 1];
    assert events[..k][..k - 1] == before;
    CounterIsExact(threads, before);
    if After(before).undoing == {} {
      j := k - 1;
    } else {
      j := PendingUndoHasStretch(threads, events, k - 1);
    }
  }

  /** Every refusal lies in such a stretch: either the cap is reached by held slots at that
      very step, or additions refused since it was reached are still pending. */
  lemma RefusalIsWarranted(threads: nat, events: seq<Event>, k: nat)
    requires threads + MAX_CONNECTIONS < U64
    requires k < |events| && Run(threads, events[..k])
    requires Refused(After(events[..k]), events[k])
    ensures exists j :: 0 <= j <= k && RefusalStretch(events, j, k)
  {
    CounterIsExact(threads, events[..k]);
    if After(events[..k]).undoing == {} {
      assert RefusalStretch(events, k, k);
    } else {
      var j := PendingUndoHasStretch(threads, events, k);
      assert RefusalStretch(events, j, k);
    }
  }

  /** `n` attempts that all acquire. */
  function Fill(n: nat): seq<Event> {
    if n == 0 then [] else Fill(n - 1) + [Add(n)]
  }

  /** With the counter below the cap an addition acquires. */
  lemma AddAcquires(s: State, a: Attempt)
    requires s.counter < MAX_CONNECTIONS
    ensures Step(s, Add(a)) == State(s.counter + 1, s.held + {a}, s.undoing)
  {
    FetchAddExact(s.counter);
  }

  lemma {:induction false} FillRun(n: nat)
    requires n <= MAX_CONNECTIONS
    ensures Run(2, Fill(n))
    ensures After(Fill(n)) == State(n, Range(1, n), {})
  {
    if n > 0 {
      FillRun(n - 1);
      assert Fill(n)[..|Fill(n)| - 1] == Fill(n - 1);
      var s := After(Fill(n - 1));
      AddAcquires(s, n);
      assert s.held + {n} == Range(1, n);
      assert Enabled(2, s, Add(n));
    }
  }

  /** With the cap reached by held slots, one more attempt is refused and stays pending. */
  lemma OverfullRun(m: nat) returns (events: seq<Event>)
    requires m == MAX_CONNECTIONS
    ensures Run(2, events) && After(events) == State(m + 1, Range(1, m), {0})
  {
    FillRun(m);
    events := Fill(m) + [Add(0)];
    assert events[..|events| - 1] == Fill(m);
    FetchAddExact(m);
    assert {} + {0} == {0};
  }

  /** A refusal does not mean that the cap is reached by held slots at that moment: with the
      cap reached, one refused addition pending and one slot released, the next attempt is
      refused although a slot is free.  Two threads are enough. */
  lemma RefusalWithFreeSlot(m: nat) returns (events: seq<Event>, e: Event)
    requires m == MAX_CONNECTIONS
    ensures Run(2, events) && Enabled(2, After(events), e)
    ensures Refused(After(events), e) && |After(events).held| < MAX_CONNECTIONS
  {
    var over := OverfullRun(m);
    events := over + [Release(1)];
    assert events[..|events| - 1] == over;
    FetchSubExact(m + 1);
    assert After(events) == State(m, Range(1, m) - {1}, {0});
    e := Add(m + 1);
  }

  lemma {:induction false} MoreThreads(few: nat, many: nat, events: seq<Event>)
    requires few <= many && Run(few, events)
    ensures Run(many, events)
  {
    if events != [] {
      MoreThreads(few, many, events[..|events| - 1]);
    }
  }

  /** In every interleaving of that many threads, whoever is refused finds the cap reached by
      slots held at that moment. */
  ghost predicate RefusalsMeanFull(threads: nat) {
    forall events: seq<Event>, e: Event ::
      Run(threads, events) && Enabled(threads, After(events), e) && Refused(After(events), e) ==>
        |After(events).held| == 10000
  }

  /** What a refusal is documented to mean holds exactly when connections are accepted by a
      single thread. */
  lemma RefusalsMeanFullIff(threads: nat)
    ensures RefusalsMeanFull(threads) <==> threads <= 1
  {
    if threads <= 1 {
      forall events: seq<Event>, e: Event
        | Run(threads, events) && Enabled(threads, After(events), e) && Refused(After(events), e)
        ensures |After(events).held| == 10000
      {
        CounterIsExact(threads, events);
      }
    } else {
      var events, e := RefusalWithFreeSlot(MAX_CONNECTIONS);
      MoreThreads(2, threads, events);
    }
  }

  datatype Kind = Acquisition | Refusal | Undone | Released

  function KindOf(s: State, e: Event): Kind {
    match e
    case Add(_) => if Refused(s, e) then Refusal else Acquisition
    case Undo(_) => Undone
    case Release(_) => Released
  }

  /** How many steps of a run are of one kind. */
  function Count(events: seq<Event>, k: Kind): nat {
    if events == [] then 0
    else
      var n := |events| - 1;
      Count(events[..n], k) + if KindOf(After(events[..n]), events[n]) == k then 1 else 0
  }

  /** Conservation over a run: slots held are acquisitions minus releases, and pending undos
      are refusals minus undos. */
  lemma {:induction false} Conservation(threads: nat, events: seq<Event>)
    requires threads + MAX_CONNECTIONS < U64
    requires Run(threads, events)
    ensures |After(events).held| == Count(events, Acquisition) - Count(events, Released)
    ensures |After(events).undoing| == Count(events, Refusal) - Count(events, Undone)
    ensures |events| ==
      Count(events, Acquisition) + Count(events, Released) + Count(events, Refusal) + Count(events, Undone)
  {
    if events != [] {
      var n := |events| - 1;
      CounterIsExact(threads, events[..n]);
      Conservation(threads, events[..n]);
    }
  }
}
