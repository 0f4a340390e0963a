/**
 The candidate loop of trickle ICE: ice.go, lines 71 to 101. Candidates that arrive before the
 remote description are deferred and added in one batch once it is there.
 */
module TrickleIce {
  import opened Bytes

  type Candidate = nat

  // What one turn of the loop meets: whether its context is cancelled, whether the peer has a remote
  // description at the head of the loop, what it receives (None ends the loop), and whether the
  // description is there right after.
  datatype Turn = Turn(cancelled: bool, descAtHead: bool, recv: Option<Candidate>, descAfter: bool)

  // The description is set at most once and stays set.
  ghost predicate SetOnce(turns: seq<Turn>) {
    && (forall i :: 0 <= i < |turns| && turns[i].descAtHead ==> turns[i].descAfter)
    && (forall i, j :: 0 <= i < j < |turns| && turns[i].descAfter ==> turns[j].descAtHead)
  }

  // Ended tells that the loop has left; added counts every call of AddICECandidate, in order.
  datatype State = State(received: seq<Candidate>, added: seq<Candidate>, deferred: seq<Candidate>, ended: bool)

  const START := State([], [], [], false)

  function Flush(s: State): State {
    s.(added := s.added + s.deferred, deferred := [])
  }

  function Take(s: State, t: Turn): State {
    if s.ended || t.cancelled then s.(ended := true)
    else
      var h := if t.descAtHead && s.deferred != [] then Flush(s) else s;
      if t.recv.None? then h.(ended := true)
      else
        var c := t.recv.value;
        var r := h.(received := h.received + [c]);
        if t.descAfter then r.(added := r.added + [c]) else r.(deferred := r.deferred + [c])
  }

  function Run(turns: seq<Turn>): State {
    if turns == [] then START else Take(Run(turns[..|turns| - 1]), turns[|turns| - 1])
  }

  class PeerConnection {
    var added: seq<Candidate>

    constructor ()
      ensures added == []
    {
      added := [];
    }

    method AddICECandidate(c: Candidate)
      modifies this
      ensures added == old(added) + [c]
    {
      added := added + [c];
    }

    // The inner loop over the deferred batch.
    method AddAll(batch: seq<Candidate>)
      modifies this
      ensures added == old(added) + batch
    {
      for k := 0 to |batch|
        invariant added == old(added) + batch[..k]
      {
        AddICECandidate(batch[k]);
      }
      assert batch[..|batch|] == batch;
    }
  }

  /** The goroutine of trickleICE. What arrives before it ends is added or left deferred. */
  method TrickleLoop(peer: PeerConnection, turns: seq<Turn>)
    returns (deferred: seq<Candidate>, received: seq<Candidate>)
    requires peer.added == []
    modifies peer
    ensures var s := Run(turns); s.deferred == deferred && s.received == received && s.added == peer.added
    ensures received == Arrivals(turns)
    ensures multiset(Arrivals(turns)) == multiset(peer.added) + multiset(deferred)
  {
    TakesArrivals(turns);
    Conservation(turns);
    deferred, received := [], [];
    var i := 0;
    while i < |turns|
      invariant 0 <= i <= |turns|
      invariant Run(turns[..i]) == State(received, peer.added, deferred, false)
    {
      assert turns[..i + 1][..i] == turns[..i];
      var t := turns[i];
      if t.cancelled {
        EndedStays(turns, i + 1);
        return;
      }
      if t.descAtHead && |deferred| > 0 {
        peer.AddAll(deferred);
        deferred := [];
      }
      if t.recv.None? {
        EndedStays(turns, i + 1);
        return;
      }
      received := received + [t.recv.value];
      i := i + 1;
      if !t.descAfter {
        deferred := deferred + [t.recv.value];
        continue;
      }
      peer.AddICECandidate(t.recv.value);
    }
    assert turns[..i] == turns;
  }

  lemma {:induction false} EndedStays(turns: seq<Turn>, i: nat)
    requires i <= |turns| && Run(turns[..i]).ended
    ensures Run(turns) == Run(turns[..i])
  {
    if i < |turns| {
      assert turns[..|turns| - 1][..i] == turns[..i];
      EndedStays(turns[..|turns| - 1], i);
    } else {
      assert turns[..i] == turns;
    }
  }

  // ------------------------------------------------------------------ conservation and order

  // The turn ends the loop.
  predicate Ends(t: Turn) {
    t.cancelled || t.recv.None?
  }

  // What the turns deliver before the first that ends the loop.
  function Arrivals(turns: seq<Turn>): seq<Candidate> {
    if turns == [] || Ends(turns[0]) then [] else [turns[0].recv.value] + Arrivals(turns[1..])
  }

  ghost predicate AnyEnds(turns: seq<Turn>) {
    exists i :: 0 <= i < |turns| && Ends(turns[i])
  }

  lemma AnyEndsSnoc(turns: seq<Turn>, t: Turn)
    ensures AnyEnds(turns + [t]) <==> AnyEnds(turns) || Ends(t)
  {
    assert Ends(t) ==> Ends((turns + [t])[|turns|]);
    if i :| 0 <= i < |turns| && Ends(turns[i]) {
      assert Ends((turns + [t])[i]);
    }
  }

  lemma AnyEndsBehind(turns: seq<Turn>)
    requires turns != []
    ensures AnyEnds(turns) <==> Ends(turns[0]) || AnyEnds(turns[1..])
  {
    if i :| 0 <= i < |turns| && Ends(turns[i]) {
      assert i > 0 ==> Ends(turns[1..][i - 1]);
    }
    if i :| 0 <= i < |turns[1..]| && Ends(turns[1..][i]) {
      assert Ends(turns[i + 1]);
    }
  }

  lemma {:induction false} ArrivalsSnoc(turns: seq<Turn>, t: Turn)
    ensures Arrivals(turns + [t]) == Arrivals(turns) + if AnyEnds(turns) || Ends(t) then [] else [t.recv.value]
  {
    if turns == [] {
      assert turns + [t] == [t];
    } else {
      assert (turns + [t])[1..] == turns[1..] + [t];
      AnyEndsBehind(turns);
      if !Ends(turns[0]) {
        ArrivalsSnoc(turns[1..], t);
      }
    }
  }

  /** The loop takes in everything that the turns deliver before one of them ends it, in order, and
      leaves exactly with that turn. */
  lemma {:induction false} TakesArrivals(turns: seq<Turn>)
    ensures Run(turns).received == Arrivals(turns)
    ensures Run(turns).ended <==> AnyEnds(turns)
  {
    if turns != [] {
      var init, t := turns[..|turns| - 1], turns[|turns| - 1];
      assert init + [t] == turns;
      TakesArrivals(init);
      ArrivalsSnoc(init, t);
      AnyEndsSnoc(init, t);
    }
  }

  lemma {:induction false} Balance(turns: seq<Turn>)
    ensures var s := Run(turns); multiset(s.received) == multiset(s.added) + multiset(s.deferred)
  {
    if turns != [] { Balance(turns[..|turns| - 1]); }
  }

  /** Conservation, at every loop head and at the end: what arrived is what was added and what is
      still deferred, each as often as it arrived. */
  lemma Conservation(turns: seq<Turn>)
    ensures var s := Run(turns); multiset(Arrivals(turns)) == multiset(s.added) + multiset(s.deferred)
  {
    Balance(turns);
    TakesArrivals(turns);
  }

  // The loop has seen the description.
  ghost predicate Seen(turns: seq<Turn>) {
    exists i :: 0 <= i < |turns| && turns[i].descAfter
  }

  // The k-th of the received candidates moved in front of those before it.
  function Overtake(r: seq<Candidate>, k: nat): seq<Candidate>
    requires k < |r|
  {
    [r[k]] + r[..k] + r[k + 1..]
  }

  // Before the description nothing is added. After it, either the batch has been flushed, and the
  // candidates were added in the order of receipt but for at most one that overtook the whole batch,
  // or that one has just been added and the batch waits for the next loop head.
  predicate Waiting(s: State) {
    s.added == [] && s.deferred == s.received
  }

  predicate JustOvertaken(s: State) {
    && |s.received| >= 2
    && s.added == [s.received[|s.received| - 1]]
    && s.deferred == s.received[..|s.received| - 1]
  }

  ghost predicate Flushed(s: State) {
    && s.deferred == []
    && (s.added == s.received || exists k :: 0 < k < |s.received| && s.added == Overtake(s.received, k))
  }

  lemma OvertakeSnoc(r: seq<Candidate>, k: nat, c: Candidate)
    requires k < |r|
    ensures Overtake(r + [c], k) == Overtake(r, k) + [c]
  {
    assert (r + [c])[k + 1..] == r[k + 1..] + [c];
  }

  lemma FlushedSnoc(s: State, c: Candidate)
    requires Flushed(s)
    ensures Flushed(s.(received := s.received + [c], added := s.added + [c]))
  {
    if s.added != s.received {
      var k :| 0 < k < |s.received| && s.added == Overtake(s.received, k);
      OvertakeSnoc(s.received, k, c);
    }
  }

  lemma FlushShape(s: State)
    requires Waiting(s) || JustOvertaken(s)
    ensures Flushed(Flush(s))
  {
    if JustOvertaken(s) {
      var k := |s.received| - 1;
      assert Flush(s).added == Overtake(s.received, k);
    }
  }

  /** Order: with the remote description set at most once, no candidate is added before it is there;
      afterwards, over the whole run, at most one candidate is out of receive order, and it is one
      that overtook the deferred batch. */
  lemma TrickleOrder(turns: seq<Turn>)
    requires SetOnce(turns)
    ensures var s := Run(turns);
            if !Seen(turns) then Waiting(s)
            else s.ended || JustOvertaken(s) || Flushed(s)
    ensures var s := Run(turns); Waiting(s) || JustOvertaken(s) || Flushed(s)
    ensures Run(turns).received == Arrivals(turns)
  {
    TakesArrivals(turns);
    Shapes(turns);
  }

  lemma {:induction false} Shapes(turns: seq<Turn>)
    requires SetOnce(turns)
    ensures var s := Run(turns);
            if !Seen(turns) then Waiting(s)
            else s.ended || JustOvertaken(s) || Flushed(s)
    ensures var s := Run(turns); Waiting(s) || JustOvertaken(s) || Flushed(s)
  {
    if turns != [] {
      var init, t := turns[..|turns| - 1], turns[|turns| - 1];
      assert forall i :: 0 <= i < |init| ==> init[i] == turns[i];
      Shapes(init);
      var s := Run(init);
      if !s.ended && !t.cancelled {
        var h := if t.descAtHead && s.deferred != [] then Flush(s) else s;
        if t.descAtHead {
          AtHead(s);
        } else {
          assert forall i :: 0 <= i < |init| ==> !turns[i].descAfter;
        }
        if t.recv.Some? {
          TakeShape(h, t, t.recv.value);
        }
      }
    }
  }

  lemma AtHead(s: State)
    requires Waiting(s) || JustOvertaken(s) || Flushed(s)
    ensures Flushed(if s.deferred != [] then Flush(s) else s)
  {
    if s.deferred != [] { FlushShape(s); }
  }

  lemma FirstAdded(h: State, c: Candidate)
    requires Waiting(h)
    ensures var s := h.(received := h.received + [c], added := h.added + [c]);
            JustOvertaken(s) || Flushed(s)
  {
    if h.received != [] {
      assert (h.received + [c])[..|h.received|] == h.received;
    }
  }

  lemma TakeShape(h: State, t: Turn, c: Candidate)
    requires if t.descAtHead then Flushed(h) && t.descAfter else Waiting(h)
    ensures var r := h.(received := h.received + [c]);
            if t.descAfter
            then JustOvertaken(r.(added := r.added + [c])) || Flushed(r.(added := r.added + [c]))
            else Waiting(r.(deferred := r.deferred + [c]))
  {
    if t.descAtHead {
      FlushedSnoc(h, c);
    } else if t.descAfter {
      FirstAdded(h, c);
    }
  }

  /** None twice and none lost: a candidate received once is added at most once, and when it is not
      added it is among those still deferred when the loop ends. */
  lemma AddedOnceOrDeferred(turns: seq<Turn>, c: Candidate)
    requires multiset(Arrivals(turns))[c] == 1
    ensures var s := Run(turns); c in s.added <==> c !in s.deferred
    ensures multiset(Run(turns).added)[c] <= 1
  {
    Conservation(turns);
    var s := Run(turns);
    assert multiset(Arrivals(turns))[c] == multiset(s.added)[c] + multiset(s.deferred)[c];
    assert c in s.added <==> multiset(s.added)[c] > 0;
    assert c in s.deferred <==> multiset(s.deferred)[c] > 0;
  }

  /** The batch never outlives a loop head that sees the description. */
  lemma FlushedAtHead(turns: seq<Turn>, t: Turn)
    requires SetOnce(turns + [t]) && t.descAtHead && !t.cancelled && !Run(turns).ended
    ensures Run(turns + [t]).deferred == []
  {
    assert (turns + [t])[|turns|] == t;
    assert (turns + [t])[..|turns|] == turns;
  }
}
