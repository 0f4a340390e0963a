/**
 Write back-pressure: datachannel-conn.go. A writer that finds the buffer too full counts itself as
 a waiter and parks on an unbuffered channel; when the buffered amount falls to the low threshold, a
 callback hands out one wake-up per waiter. Goroutines are interleaved step by step, each step
 atomic: check, increment and write of one writer are three steps.
 */
module BackPressure {

  type Writer = nat

  // Thresholds of a connection, in bytes.
  const MAX: nat := 1048576
  const LOW: nat := 524288

  datatype Callback = Idle | Testing | Sending | Decrementing

  // decided: writers that found the buffer too full and have not counted themselves yet.
  // parked: writers that have incremented the counter and not yet received a wake-up.
  // ready: writers that go on to write.
  datatype State = State(
    buffered: nat, decided: set<Writer>, parked: set<Writer>, ready: set<Writer>,
    waiter: int, callback: Callback)

  const INIT := State(0, {}, {}, {}, 0, Idle)

  const TWO31 := 0x8000_0000

  // AddInt32 wraps around.
  function AddInt32(x: int, d: int): int {
    (x + d + TWO31) % (2 * TWO31) - TWO31
  }

  datatype Act =
    | Check(w: Writer)         // writer: compare the buffered amount with the maximum
    | Park(w: Writer)          // writer: increment, then block on the channel
    | Write(w: Writer, n: nat) // writer: put n bytes into the buffer and return
    | Drain(n: nat)            // n bytes leave the buffer; the callback starts if that crosses LOW
    | Test                     // callback: leave if the counter is zero, else go on to send
    | Rendezvous(w: Writer)    // callback's send meets a parked writer's receive
    | Decrement                // callback: decrement and go back to the test

  // The callback runs where the buffer is drained, so nothing drains while it runs.
  predicate Enabled(s: State, act: Act) {
    match act
    case Check(w) => w !in s.decided && w !in s.parked && w !in s.ready
    case Park(w) => w in s.decided
    case Write(w, _) => w in s.ready
    case Drain(n) => s.callback == Idle && 0 < n <= s.buffered
    case Test => s.callback == Testing
    case Rendezvous(w) => s.callback == Sending && w in s.parked
    case Decrement => s.callback == Decrementing
  }

  // The amount falls from above the low threshold to at most it.
  predicate Crosses(s: State, act: Act) {
    act.Drain? && s.buffered > LOW && s.buffered - act.n <= LOW
  }

  function Do(s: State, act: Act): State
    requires Enabled(s, act)
  {
    match act
    case Check(w) =>
      if s.buffered > MAX then s.(decided := s.decided + {w}) else s.(ready := s.ready + {w})
    case Park(w) =>
      s.(waiter := AddInt32(s.waiter, 1), decided := s.decided - {w}, parked := s.parked + {w})
    case Write(w, n) => s.(buffered := s.buffered + n, ready := s.ready - {w})
    case Drain(n) => s.(buffered := s.buffered - n, callback := if Crosses(s, act) then Testing else Idle)
    case Test => s.(callback := if s.waiter == 0 then Idle else Sending)
    case Rendezvous(w) => s.(parked := s.parked - {w}, ready := s.ready + {w}, callback := Decrementing)
    case Decrement => s.(waiter := AddInt32(s.waiter, -1), callback := Testing)
  }

  // A run: states linked by enabled acts, with fewer than 2^31 - 1 writers parked at any time.
  ghost predicate IsRun(states: seq<State>, acts: seq<Act>) {
    && |states| == |acts| + 1
    && (forall i :: 0 <= i < |acts| ==> Follows(states[i], acts[i], states[i + 1]))
    && (forall i :: 0 <= i < |states| ==> |states[i].parked| < TWO31 - 1)
  }

  predicate Follows(s: State, act: Act, s': State) {
    Enabled(s, act) && s' == Do(s, act)
  }

  // The counter is the number of parked writers, plus the one already woken but not yet counted off.
  predicate Counted(s: State) {
    && |s.parked| < TWO31 - 1
    && s.decided !! s.parked
    && s.waiter == |s.parked| + (if s.callback == Decrementing then 1 else 0)
    && (s.callback == Sending ==> s.parked != {})
  }

  lemma AddExact(x: int, d: int)
    requires -TWO31 <= x + d < TWO31
    ensures AddInt32(x, d) == x + d
  {
  }

  lemma ParkCounts(s: State, w: Writer)
    requires Counted(s) && w in s.decided && |s.parked + {w}| < TWO31 - 1
    ensures Counted(Do(s, Park(w)))
  {
    assert w !in s.parked;
    assert |s.parked + {w}| == |s.parked| + 1;
    AddExact(s.waiter, 1);
  }

  lemma RendezvousCounts(s: State, w: Writer)
    requires Counted(s) && s.callback == Sending && w in s.parked
    ensures Counted(Do(s, Rendezvous(w)))
  {
    assert |s.parked - {w}| == |s.parked| - 1;
  }

  lemma StepCounts(s: State, act: Act)
    requires Counted(s) && Enabled(s, act) && |Do(s, act).parked| < TWO31 - 1
    ensures Counted(Do(s, act))
  {
    match act {
      case Park(w) => ParkCounts(s, w);
      case Rendezvous(w) => RendezvousCounts(s, w);
      case Decrement => AddExact(s.waiter, -1);
      case _ =>
    }
  }

  // Only a rendezvous releases a writer.
  lemma OnlyRendezvousReleases(s: State, act: Act, w: Writer)
    requires Enabled(s, act) && w in s.parked && w !in Do(s, act).parked
    ensures act == Rendezvous(w)
  {
  }

  /** Counter invariant, in every state of every interleaving: the counter equals the parked writers
      plus one between a send and its decrement, so it is never negative and never wraps, and a
      callback about to send always finds a receiver. */
  lemma CounterInvariant(states: seq<State>, acts: seq<Act>)
    requires IsRun(states, acts) && states[0] == INIT
    ensures forall i :: 0 <= i < |states| ==> Counted(states[i]) && states[i].waiter >= 0
  {
    for i := 0 to |acts|
      invariant forall j :: 0 <= j <= i ==> Counted(states[j])
    {
      assert Follows(states[i], acts[i], states[i + 1]);
      StepCounts(states[i], acts[i]);
    }
  }

  // The callback's test that finds no waiter, and so ends it.
  predicate Returns(s: State, act: Act) {
    act == Test && s.callback == Testing && s.waiter == 0
  }

  /** Release: when a callback returns nobody is parked, so every writer that was parked at or after
      some earlier point was woken by a rendezvous in between. */
  lemma ReleasedBeforeReturn(states: seq<State>, acts: seq<Act>, from: nat, end: nat, w: Writer)
    requires IsRun(states, acts) && states[0] == INIT
    requires from <= end < |acts| && Returns(states[end], acts[end])
    requires w in states[from].parked
    ensures states[end].parked == {}
    ensures exists k :: from <= k < end && acts[k] == Rendezvous(w)
  {
    CounterInvariant(states, acts);
    assert Counted(states[end]);
    var k := from;
    while w in states[k + 1].parked
      invariant from <= k < end && w in states[k].parked
      decreases end - k
    {
      k := k + 1;
    }
    assert Follows(states[k], acts[k], states[k + 1]);
    OnlyRendezvousReleases(states[k], acts[k], w);
  }

  /** The callback is never stuck: from every reachable state in which it runs, one of its own steps
      is enabled. */
  lemma CallbackNeverStuck(states: seq<State>, acts: seq<Act>, i: nat)
    requires IsRun(states, acts) && states[0] == INIT && i < |states| && states[i].callback != Idle
    ensures exists act :: Enabled(states[i], act) && (act.Test? || act.Rendezvous? || act.Decrement?)
  {
    CounterInvariant(states, acts);
    var s := states[i];
    assert Counted(s);
    match s.callback {
      case Testing => assert Enabled(s, Test);
      case Sending => var w :| w in s.parked; assert Enabled(s, Rendezvous(w));
      case Decrementing => assert Enabled(s, Decrement);
    }
  }

  // ------------------------------------------------------------------ every writer writes

  function Checks(acts: seq<Act>, w: Writer): nat {
    if acts == [] then 0 else Checks(acts[..|acts| - 1], w) + if acts[|acts| - 1] == Check(w) then 1 else 0
  }

  function Writes(acts: seq<Act>, w: Writer): nat {
    if acts == [] then 0
    else Writes(acts[..|acts| - 1], w) + if acts[|acts| - 1].Write? && acts[|acts| - 1].w == w then 1 else 0
  }

  // A writer is at one place only.
  predicate Apart(s: State) {
    s.decided !! s.parked && s.decided !! s.ready && s.parked !! s.ready
  }

  predicate InWrite(s: State, w: Writer) {
    w in s.decided || w in s.parked || w in s.ready
  }

  lemma StepBalances(s: State, act: Act, w: Writer)
    requires Apart(s) && Enabled(s, act)
    ensures var s' := Do(s, act);
            && Apart(s')
            && (if act == Check(w) then !InWrite(s, w) && InWrite(s', w)
                else if act.Write? && act.w == w then InWrite(s, w) && !InWrite(s', w)
                else InWrite(s', w) == InWrite(s, w))
  {
  }

  /** No write is lost on the way or made twice: in every state of every interleaving, a writer has
      written once for each check it made, but for the write it is in. In particular a writer that
      was woken goes on to write. */
  lemma ChecksAreWritten(states: seq<State>, acts: seq<Act>, w: Writer)
    requires IsRun(states, acts) && states[0] == INIT
    ensures forall i :: 0 <= i < |states| ==>
              Checks(acts[..i], w) == Writes(acts[..i], w) + if InWrite(states[i], w) then 1 else 0
  {
    for k := 0 to |acts|
      invariant Apart(states[k])
      invariant forall i :: 0 <= i <= k ==>
                  Checks(acts[..i], w) == Writes(acts[..i], w) + if InWrite(states[i], w) then 1 else 0
    {
      assert Follows(states[k], acts[k], states[k + 1]);
      StepBalances(states[k], acts[k], w);
      assert acts[..k + 1][..k] == acts[..k];
    }
  }

  // The bytes that were written and drained so far.
  function Written(acts: seq<Act>): nat {
    if acts == [] then 0
    else Written(acts[..|acts| - 1]) + if acts[|acts| - 1].Write? then acts[|acts| - 1].n else 0
  }

  function Drained(acts: seq<Act>): nat {
    if acts == [] then 0
    else Drained(acts[..|acts| - 1]) + if acts[|acts| - 1].Drain? then acts[|acts| - 1].n else 0
  }

  lemma BufferBalances(states: seq<State>, acts: seq<Act>)
    requires IsRun(states, acts) && states[0] == INIT
    ensures forall i :: 0 <= i < |states| ==> states[i].buffered + Drained(acts[..i]) == Written(acts[..i])
  {
    for k := 0 to |acts|
      invariant forall i :: 0 <= i <= k ==> states[i].buffered + Drained(acts[..i]) == Written(acts[..i])
    {
      assert Follows(states[k], acts[k], states[k + 1]);
      assert acts[..k + 1][..k] == acts[..k];
    }
  }

  /** A writer waits only if it found more than the maximum buffered when it checked. */
  lemma ParksOnlyWhenFull(states: seq<State>, acts: seq<Act>, i: nat, w: Writer)
    requires IsRun(states, acts) && states[0] == INIT && i < |acts| && acts[i] == Check(w)
    ensures w in states[i + 1].decided <==> states[i].buffered > MAX
    ensures w in states[i + 1].ready <==> states[i].buffered <= MAX
  {
    assert Follows(states[i], acts[i], states[i + 1]);
  }

  // ------------------------------------------------------------------ writers left waiting

  // A callback that ran and is over has returned in between.
  lemma ReturnsBetween(states: seq<State>, acts: seq<Act>, from: nat, end: nat) returns (e: nat)
    requires IsRun(states, acts) && from <= end < |states|
    requires states[from].callback != Idle && states[end].callback == Idle
    ensures from <= e < end && Returns(states[e], acts[e])
  {
    e := from;
    while states[e + 1].callback != Idle
      invariant from <= e < end && states[e].callback != Idle
      decreases end - e
    {
      e := e + 1;
    }
    assert Follows(states[e], acts[e], states[e + 1]);
  }

  // Where a parked writer parked.
  lemma ParkedSince(states: seq<State>, acts: seq<Act>, i: nat, w: Writer) returns (p: nat)
    requires IsRun(states, acts) && states[0] == INIT && i < |states| && w in states[i].parked
    ensures p < i && acts[p] == Park(w)
    ensures forall k :: p < k <= i ==> w in states[k].parked
  {
    p := i;
    while w in states[p].parked
      invariant p <= i && forall k :: p <= k <= i ==> w in states[k].parked || k == p
      invariant p == i || w in states[p + 1].parked
      decreases p
    {
      p := p - 1;
    }
    assert Follows(states[p], acts[p], states[p + 1]);
  }

  // Where a decided writer found the buffer too full.
  lemma DecidedSince(states: seq<State>, acts: seq<Act>, i: nat, w: Writer) returns (c: nat)
    requires IsRun(states, acts) && states[0] == INIT && i < |states| && w in states[i].decided
    ensures c < i && acts[c] == Check(w) && states[c].buffered > MAX
    ensures forall k :: c < k < i ==> acts[k] != Check(w)
  {
    c := i;
    while w in states[c].decided
      invariant c <= i && (c == i || w in states[c + 1].decided)
      invariant forall k :: c < k < i ==> acts[k] != Check(w)
      decreases c
    {
      c := c - 1;
      assert Follows(states[c], acts[c], states[c + 1]);
    }
    assert Follows(states[c], acts[c], states[c + 1]);
  }

  // An amount that fell below the threshold crossed it, and that started the callback.
  lemma CrossedBetween(states: seq<State>, acts: seq<Act>, from: nat, end: nat) returns (d: nat)
    requires IsRun(states, acts) && from <= end < |states|
    requires states[from].buffered > LOW >= states[end].buffered
    ensures from <= d < end && Crosses(states[d], acts[d]) && states[d + 1].callback == Testing
  {
    d := from;
    while states[d + 1].buffered > LOW
      invariant from <= d < end && states[d].buffered > LOW
      decreases end - d
    {
      d := d + 1;
    }
    assert Follows(states[d], acts[d], states[d + 1]);
  }

  // No callback has run since a writer parked that is parked when none is running.
  lemma IdleSinceParked(states: seq<State>, acts: seq<Act>, p: nat, i: nat, w: Writer)
    requires IsRun(states, acts) && states[0] == INIT && p < i < |states| && states[i].callback == Idle
    requires acts[p] == Park(w) && forall k :: p < k <= i ==> w in states[k].parked
    ensures forall k :: p <= k <= i ==> states[k].callback == Idle
  {
    forall k | p < k <= i ensures states[k].callback == Idle {
      if states[k].callback != Idle {
        var e := ReturnsBetween(states, acts, k, i);
        ReleasedBeforeReturn(states, acts, k, e, w);
      }
    }
    assert Follows(states[p], acts[p], states[p + 1]);
  }

  // The last test of a callback before state i.
  predicate LastTest(acts: seq<Act>, t: nat, i: nat)
    requires i <= |acts|
  {
    t < i && acts[t] == Test && forall k :: t < k < i ==> acts[k] != Test
  }

  lemma LastTestFrom(acts: seq<Act>, e: nat, i: nat) returns (t: nat)
    requires e < i <= |acts| && acts[e] == Test
    ensures e <= t && LastTest(acts, t, i)
  {
    t := i - 1;
    while acts[t] != Test
      invariant e <= t < i && forall k :: t < k < i ==> acts[k] != Test
      decreases t
    {
      t := t - 1;
    }
  }

  // The writer's check came before the last test of a callback, and its increment after it.
  ghost predicate Late(acts: seq<Act>, i: nat, w: Writer)
    requires i <= |acts|
  {
    exists c: nat, t: nat, p: nat :: LateAt(acts, i, w, c, t, p)
  }

  predicate LateAt(acts: seq<Act>, i: nat, w: Writer, c: nat, t: nat, p: nat)
    requires i <= |acts|
  {
    && c < t < p < i
    && acts[c] == Check(w) && acts[p] == Park(w) && (forall k :: c < k < p ==> acts[k] != Check(w))
    && LastTest(acts, t, i)
  }

  lemma WaitsOnlyIfLate(states: seq<State>, acts: seq<Act>, i: nat, w: Writer)
    requires IsRun(states, acts) && states[0] == INIT && i < |states|
    requires states[i].callback == Idle && states[i].buffered <= LOW && w in states[i].parked
    ensures Late(acts, i, w)
  {
    var p := ParkedSince(states, acts, i, w);
    assert Follows(states[p], acts[p], states[p + 1]);
    var c := DecidedSince(states, acts, p, w);
    IdleSinceParked(states, acts, p, i, w);
    var d := CrossedBetween(states, acts, c, i);
    assert d + 1 <= p;
    var e := ReturnsBetween(states, acts, d + 1, p);
    var t := LastTestFrom(acts, e, i);
    assert t < p by {
      assert Follows(states[t], acts[t], states[t + 1]);
    }
    assert LateAt(acts, i, w, c, t, p);
  }

  lemma WaitsIfLate(states: seq<State>, acts: seq<Act>, i: nat, w: Writer, t: nat, p: nat)
    requires IsRun(states, acts) && i < |states| && states[i].callback == Idle
    requires t < p < i && acts[p] == Park(w) && LastTest(acts, t, i)
    ensures w in states[i].parked
  {
    forall k | t < k <= i ensures states[k].callback == Idle {
      if states[k].callback != Idle {
        var e := ReturnsBetween(states, acts, k, i);
      }
    }
    assert Follows(states[p], acts[p], states[p + 1]);
    for k := p + 1 to i
      invariant w in states[k].parked
    {
      assert Follows(states[k], acts[k], states[k + 1]);
    }
  }

  /** The exact law, in every interleaving: while no callback runs and the amount is low, a writer is
      left waiting if and only if it found the buffer too full before, and counted itself after, the
      last test of a callback. */
  lemma WaitsIffLate(states: seq<State>, acts: seq<Act>, i: nat, w: Writer)
    requires IsRun(states, acts) && states[0] == INIT && i < |states|
    requires states[i].callback == Idle && states[i].buffered <= LOW
    ensures w in states[i].parked <==> Late(acts, i, w)
  {
    if w in states[i].parked {
      WaitsOnlyIfLate(states, acts, i, w);
    }
    if Late(acts, i, w) {
      var c: nat, t: nat, p: nat :| LateAt(acts, i, w, c, t, p);
      WaitsIfLate(states, acts, i, w, t, p);
    }
  }

  /** It stays parked until other writers fill the buffer over the low threshold again and it falls
      back across it. */
  lemma LateWriterWaits(states: seq<State>, acts: seq<Act>, w: Writer)
    requires IsRun(states, acts) && states[0].callback == Idle && w in states[0].parked
    requires forall i :: 0 <= i < |acts| ==> !Crosses(states[i], acts[i])
    ensures w in states[|acts|].parked && states[|acts|].callback == Idle
  {
    for i := 0 to |acts|
      invariant w in states[i].parked && states[i].callback == Idle
    {
      assert Follows(states[i], acts[i], states[i + 1]);
    }
  }

  // A lost wake-up: the buffer drains and the callback leaves between check and increment.
  function LostActs(w: Writer): seq<Act> {
    [Check(w), Write(w, MAX + 1), Check(w), Drain(MAX + 1), Test, Park(w)]
  }

  function LostState(w: Writer, k: nat): State {
    if k == 0 then INIT
    else if k == 1 then INIT.(ready := {w})
    else if k == 2 then INIT.(buffered := MAX + 1)
    else if k == 3 then INIT.(buffered := MAX + 1, decided := {w})
    else if k == 4 then INIT.(decided := {w}, callback := Testing)
    else if k == 5 then INIT.(decided := {w})
    else INIT.(parked := {w}, waiter := 1)
  }

  lemma LostSteps(w: Writer, k: nat)
    requires k < 6
    ensures Follows(LostState(w, k), LostActs(w)[k], LostState(w, k + 1))
    ensures |LostState(w, k).parked| == 0
  {
    AddExact(0, 1);
    var s, act := LostState(w, k), LostActs(w)[k];
    assert Enabled(s, act);
    assert Do(s, act).ready == LostState(w, k + 1).ready;
    assert Do(s, act).decided == LostState(w, k + 1).decided;
    assert Do(s, act).parked == LostState(w, k + 1).parked;
  }

  /** A run from the start that loses a wake-up: the buffer is empty, no callback runs, the writer is
      parked, and no step but another writer's check is possible. */
  lemma WakeUpLost(w: Writer)
    ensures var states := seq(7, k requires 0 <= k < 7 => LostState(w, k));
            && IsRun(states, LostActs(w)) && states[0] == INIT
            && states[6].parked == {w} && states[6].callback == Idle && states[6].buffered == 0
            && forall act :: Enabled(states[6], act) ==> act.Check? && act.w != w
  {
    var states := seq(7, k requires 0 <= k < 7 => LostState(w, k));
    forall k | 0 <= k < 6
      ensures Follows(states[k], LostActs(w)[k], states[k + 1]) && |states[k].parked| == 0
    {
      LostSteps(w, k);
    }
    assert |{w}| == 1;
  }
}
