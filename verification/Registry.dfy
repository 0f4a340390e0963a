/**
 The ingress registry of the signalling server: the /ingresses/{ingressID} handler of
 signal-server-aetherlight.go. Handlers run concurrently and each access to the shared map is one
 atomic step; the final clean-up is two of them, a comparison and a deletion.
 */
module Registry {
  import opened Bytes

  type Id = string
  type Handler = nat

  // A master creates at most one session, so the handler stands for its session as well.
  datatype Phase =
    | Arrived                      // authenticated, before the lookup
    | Admitted(found: Option<Handler>) // past the conflict checks, with what the lookup found
    | Registered                   // master: session in the map, waiting for it to close
    | Comparing                    // master: session closed, deferred clean-up started
    | Deleting(raced: bool)        // master: found its own session, about to delete; raced tells
                                   // whether the id was inserted again since
    | Relaying(session: Handler)   // egress
    | Done

  datatype Request = Request(id: Id, isMaster: bool, phase: Phase)

  datatype State = State(ingresses: map<Id, Handler>, handlers: map<Handler, Request>)

  const INIT := State(map[], map[])

  datatype Act =
    | Arrive(h: Handler, id: Id, isMaster: bool)
    | Lookup(h: Handler)
    | Refuse(h: Handler)     // websocket or session set-up fails
    | Insert(h: Handler)
    | Relay(h: Handler)
    | Close(h: Handler)      // the session or the relay ends
    | Compare(h: Handler)
    | Delete(h: Handler)

  predicate Enabled(s: State, act: Act) {
    match act
    case Arrive(h, _, _) => h !in s.handlers
    case Lookup(h) => h in s.handlers && s.handlers[h].phase == Arrived
    case Refuse(h) => h in s.handlers && s.handlers[h].phase.Admitted?
    case Insert(h) => h in s.handlers && s.handlers[h].phase.Admitted? && s.handlers[h].isMaster
    case Relay(h) =>
      h in s.handlers && s.handlers[h].phase.Admitted? && !s.handlers[h].isMaster && s.handlers[h].phase.found.Some?
    case Close(h) => h in s.handlers && (s.handlers[h].phase == Registered || s.handlers[h].phase.Relaying?)
    case Compare(h) => h in s.handlers && s.handlers[h].phase == Comparing
    case Delete(h) => h in s.handlers && s.handlers[h].phase.Deleting?
  }

  function Move(s: State, h: Handler, p: Phase): State
    requires h in s.handlers
  {
    s.(handlers := s.handlers[h := s.handlers[h].(phase := p)])
  }

  function Entry(s: State, id: Id): Option<Handler> {
    if id in s.ingresses then Some(s.ingresses[id]) else None
  }

  // An insertion is noticed by every handler of the same id that is about to delete.
  function MarkRaces(handlers: map<Handler, Request>, id: Id): map<Handler, Request> {
    map h | h in handlers ::
      if handlers[h].id == id && handlers[h].phase.Deleting? then handlers[h].(phase := Deleting(true)) else handlers[h]
  }

  function Do(s: State, act: Act): State
    requires Enabled(s, act)
  {
    match act
    case Arrive(h, id, isMaster) => s.(handlers := s.handlers[h := Request(id, isMaster, Arrived)])
    case Lookup(h) =>
      var found := Entry(s, s.handlers[h].id);
      // a master conflicts with an entry, an egress needs one
      Move(s, h, if s.handlers[h].isMaster == found.Some? then Done else Admitted(found))
    case Refuse(h) => Move(s, h, Done)
    case Insert(h) =>
      var t := State(s.ingresses[s.handlers[h].id := h], MarkRaces(s.handlers, s.handlers[h].id));
      Move(t, h, Registered)
    case Relay(h) => Move(s, h, Relaying(s.handlers[h].phase.found.value))
    case Close(h) => Move(s, h, if s.handlers[h].isMaster then Comparing else Done)
    case Compare(h) => Move(s, h, if Entry(s, s.handlers[h].id) == Some(h) then Deleting(false) else Done)
    case Delete(h) => Move(s.(ingresses := s.ingresses - {s.handlers[h].id}), h, Done)
  }

  // ------------------------------------------------------------------ what every step keeps

  predicate Running(p: Phase) {
    p == Registered || p == Comparing || p.Deleting?
  }

  // h is a master handler for id.
  predicate MasterOf(s: State, h: Handler, id: Id) {
    h in s.handlers && s.handlers[h].isMaster && s.handlers[h].id == id
  }

  // An entry belongs to a master of its id that is still running.
  ghost predicate EntriesLive(s: State) {
    forall id :: id in s.ingresses ==>
                   MasterOf(s, s.ingresses[id], id) && Running(s.handlers[s.ingresses[id]].phase)
  }

  // One handler's phase fits the rest of the state.
  predicate PhaseFits(s: State, h: Handler)
    requires h in s.handlers
  {
    var r := s.handlers[h];
    match r.phase
    case Admitted(found) => if r.isMaster then found == None else found.Some? && MasterOf(s, found.value, r.id)
    case Relaying(g) => !r.isMaster && MasterOf(s, g, r.id)
    case Deleting(raced) =>
      r.isMaster && (if raced then Entry(s, r.id) != Some(h) else Entry(s, r.id) in {None, Some(h)})
    case Registered => r.isMaster
    case Comparing => r.isMaster
    case _ => true
  }

  // A master that has not inserted yet has no entry.
  ghost predicate Safe(s: State) {
    && EntriesLive(s)
    && forall h :: h in s.handlers ==> PhaseFits(s, h)
  }

  lemma EntryOf(s: State, id: Id, h: Handler)
    requires EntriesLive(s) && Entry(s, id) == Some(h)
    ensures MasterOf(s, h, id) && Running(s.handlers[h].phase)
  {
  }

  // Steps that change one handler's phase only, and not to the disadvantage of its entry.
  lemma MoveKeepsSafe(s: State, h: Handler, p: Phase)
    requires Safe(s) && h in s.handlers && PhaseFits(Move(s, h, p), h)
    requires Running(p) || Entry(s, s.handlers[h].id) != Some(h)
    ensures Safe(Move(s, h, p))
  {
    var s' := Move(s, h, p);
    forall id | id in s'.ingresses
      ensures MasterOf(s', s'.ingresses[id], id) && Running(s'.handlers[s'.ingresses[id]].phase)
    {
      EntryOf(s, id, s.ingresses[id]);
    }
    forall g | g in s'.handlers ensures PhaseFits(s', g) {
      if g != h { assert PhaseFits(s, g); }
    }
  }

  lemma ArriveKeepsSafe(s: State, h: Handler, id: Id, isMaster: bool)
    requires Safe(s) && h !in s.handlers
    ensures Safe(Do(s, Arrive(h, id, isMaster)))
  {
    var s' := Do(s, Arrive(h, id, isMaster));
    forall i | i in s'.ingresses
      ensures MasterOf(s', s'.ingresses[i], i) && Running(s'.handlers[s'.ingresses[i]].phase)
    {
      EntryOf(s, i, s.ingresses[i]);
    }
    forall g | g in s'.handlers ensures PhaseFits(s', g) {
      if g != h { assert PhaseFits(s, g); }
    }
  }

  lemma InsertKeepsSafe(s: State, h: Handler)
    requires Safe(s) && Enabled(s, Insert(h))
    ensures Safe(Do(s, Insert(h)))
  {
    var s', id := Do(s, Insert(h)), s.handlers[h].id;
    forall i | i in s'.ingresses
      ensures MasterOf(s', s'.ingresses[i], i) && Running(s'.handlers[s'.ingresses[i]].phase)
    {
      if i != id { EntryOf(s, i, s.ingresses[i]); }
    }
    forall g | g in s'.handlers ensures PhaseFits(s', g) {
      if g != h { assert PhaseFits(s, g); }
    }
  }

  lemma DeleteKeepsSafe(s: State, h: Handler)
    requires Safe(s) && Enabled(s, Delete(h))
    ensures Safe(Do(s, Delete(h)))
  {
    var s', id := Do(s, Delete(h)), s.handlers[h].id;
    forall i | i in s'.ingresses
      ensures MasterOf(s', s'.ingresses[i], i) && Running(s'.handlers[s'.ingresses[i]].phase)
    {
      EntryOf(s, i, s.ingresses[i]);
    }
    forall g | g in s'.handlers ensures PhaseFits(s', g) {
      if g != h { assert PhaseFits(s, g); }
    }
  }

  lemma StepKeepsSafe(s: State, act: Act)
    requires Safe(s) && Enabled(s, act)
    ensures Safe(Do(s, act))
  {
    match act {
      case Arrive(h, id, isMaster) => ArriveKeepsSafe(s, h, id, isMaster);
      case Insert(h) => InsertKeepsSafe(s, h);
      case Delete(h) => DeleteKeepsSafe(s, h);
      case Lookup(h) =>
        NotYetEntered(s, h);
        var id := s.handlers[h].id;
        if !s.handlers[h].isMaster && id in s.ingresses { EntryOf(s, id, s.ingresses[id]); }
        MoveKeepsSafe(s, h, Do(s, act).handlers[h].phase);
      case Refuse(h) =>
        NotYetEntered(s, h);
        MoveKeepsSafe(s, h, Done);
      case Relay(h) =>
        NotYetEntered(s, h);
        assert PhaseFits(s, h);
        MoveKeepsSafe(s, h, Do(s, act).handlers[h].phase);
      case Close(h) =>
        assert PhaseFits(s, h);
        if !s.handlers[h].isMaster { NotYetEntered(s, h); }
        MoveKeepsSafe(s, h, Do(s, act).handlers[h].phase);
      case Compare(h) =>
        assert PhaseFits(s, h);
        MoveKeepsSafe(s, h, Do(s, act).handlers[h].phase);
    }
  }

  lemma NotYetEntered(s: State, h: Handler)
    requires Safe(s) && h in s.handlers && !Running(s.handlers[h].phase)
    ensures Entry(s, s.handlers[h].id) != Some(h)
  {
    if Entry(s, s.handlers[h].id) == Some(h) { EntryOf(s, s.handlers[h].id, h); }
  }

  // ------------------------------------------------------------------ runs

  predicate Follows(s: State, act: Act, s': State) {
    Enabled(s, act) && s' == Do(s, act)
  }

  ghost predicate IsRun(states: seq<State>, acts: seq<Act>) {
    && |states| == |acts| + 1 && states[0] == INIT
    && forall i :: 0 <= i < |acts| ==> Follows(states[i], acts[i], states[i + 1])
  }

  lemma RunIsSafe(states: seq<State>, acts: seq<Act>)
    requires IsRun(states, acts)
    ensures forall i :: 0 <= i < |states| ==> Safe(states[i])
  {
    for i := 0 to |acts|
      invariant forall j :: 0 <= j <= i ==> Safe(states[j])
    {
      assert Follows(states[i], acts[i], states[i + 1]);
      StepKeepsSafe(states[i], acts[i]);
    }
  }

  // h looked up its id at step j, with that result.
  predicate FoundAt(states: seq<State>, acts: seq<Act>, j: nat, h: Handler, id: Id, found: Option<Handler>)
    requires j < |acts| && j < |states|
  {
    acts[j] == Lookup(h) && Entry(states[j], id) == found
  }

  // What a handler holds from its lookup was in the map under its id at that lookup.
  ghost predicate Looked(states: seq<State>, acts: seq<Act>, i: nat, h: Handler)
    requires i <= |acts| && i < |states| && h in states[i].handlers
  {
    var r := states[i].handlers[h];
    match r.phase
    case Admitted(found) => exists j: nat :: j < i && FoundAt(states, acts, j, h, r.id, found)
    case Relaying(g) => exists j: nat :: j < i && FoundAt(states, acts, j, h, r.id, Some(g))
    case _ => true
  }

  // A step gives a handler something to hold only by its own lookup, and relaying keeps it.
  lemma LookedNext(states: seq<State>, acts: seq<Act>, i: nat, h: Handler)
    requires IsRun(states, acts) && i < |acts| && h in states[i + 1].handlers
    requires h in states[i].handlers ==> Looked(states, acts, i, h)
    ensures Looked(states, acts, i + 1, h)
  {
    assert Follows(states[i], acts[i], states[i + 1]);
    var r' := states[i + 1].handlers[h];
    if h in states[i].handlers {
      var r := states[i].handlers[h];
      if acts[i] == Lookup(h) {
        assert r'.phase.Admitted? ==> FoundAt(states, acts, i, h, r'.id, r'.phase.found);
      } else if r.phase.Admitted? {
        var j: nat :| j < i && FoundAt(states, acts, j, h, r.id, r.phase.found);
        assert r'.phase.Admitted? ==> FoundAt(states, acts, j, h, r'.id, r'.phase.found);
        assert r'.phase.Relaying? ==> FoundAt(states, acts, j, h, r'.id, Some(r'.phase.session));
      } else if r.phase.Relaying? {
        var j: nat :| j < i && FoundAt(states, acts, j, h, r.id, Some(r.phase.session));
        assert r'.phase.Relaying? ==> FoundAt(states, acts, j, h, r'.id, Some(r'.phase.session));
      }
    }
  }

  lemma AlwaysLooked(states: seq<State>, acts: seq<Act>, i: nat)
    requires IsRun(states, acts) && i < |states|
    ensures forall h :: h in states[i].handlers ==> Looked(states, acts, i, h)
  {
    for k := 0 to i
      invariant forall h :: h in states[k].handlers ==> Looked(states, acts, k, h)
    {
      var next := k + 1;
      forall h | h in states[next].handlers ensures Looked(states, acts, next, h) {
        LookedNext(states, acts, k, h);
      }
    }
  }

  /** Registry safety, in every interleaving: each entry belongs to a master of that id that is still
      running; the map is empty once no master is; and every egress relays on the session that was
      registered under the id it asked for when it looked it up. */
  lemma RegistrySafety(states: seq<State>, acts: seq<Act>, i: nat)
    requires IsRun(states, acts) && i < |states|
    ensures EntriesLive(states[i])
    ensures (forall h :: h in states[i].handlers && states[i].handlers[h].isMaster ==>
                         !Running(states[i].handlers[h].phase)) ==>
              states[i].ingresses == map[]
    ensures forall h :: h in states[i].handlers && states[i].handlers[h].phase.Relaying? ==>
              exists j: nat :: j < i &&
                FoundAt(states, acts, j, h, states[i].handlers[h].id, Some(states[i].handlers[h].phase.session))
  {
    RunIsSafe(states, acts);
    AlwaysLooked(states, acts, i);
    var s := states[i];
    assert Safe(s);
    if forall h :: h in s.handlers && s.handlers[h].isMaster ==> !Running(s.handlers[h].phase) {
      forall id | id in s.ingresses ensures false {
        EntryOf(s, id, s.ingresses[id]);
      }
      assert s.ingresses.Keys == {};
    }
    forall h | h in s.handlers && s.handlers[h].phase.Relaying?
      ensures exists j: nat :: j < i &&
                FoundAt(states, acts, j, h, s.handlers[h].id, Some(s.handlers[h].phase.session))
    {
      assert Looked(states, acts, i, h);
    }
  }

  /** The relayed session's master had inserted before that lookup and was still running at it. */
  lemma RelayedWasRunning(states: seq<State>, acts: seq<Act>, i: nat, h: Handler)
    requires IsRun(states, acts) && i < |states|
    requires h in states[i].handlers && states[i].handlers[h].phase.Relaying?
    ensures var g := states[i].handlers[h].phase.session;
            exists j: nat :: j < i && acts[j] == Lookup(h) && g in states[j].handlers &&
              MasterOf(states[j], g, states[i].handlers[h].id) && Running(states[j].handlers[g].phase)
  {
    RegistrySafety(states, acts, i);
    var id, g := states[i].handlers[h].id, states[i].handlers[h].phase.session;
    var j: nat :| j < i && FoundAt(states, acts, j, h, id, Some(g));
    RunIsSafe(states, acts);
    assert Safe(states[j]);
    EntryOf(states[j], id, g);
  }

  // ------------------------------------------------------------------ admission

  /** A lookup admits a master exactly when its id has no entry, and an egress exactly when it has
      one; whoever is not admitted is done, and the map stays as it is. */
  lemma AdmittedIff(s: State, h: Handler)
    requires Enabled(s, Lookup(h))
    ensures var s', r := Do(s, Lookup(h)), s.handlers[h];
            && s'.ingresses == s.ingresses
            && h in s'.handlers && s'.handlers[h].id == r.id && s'.handlers[h].isMaster == r.isMaster
            && (s'.handlers[h].phase.Admitted? <==> (r.isMaster <==> r.id !in s.ingresses))
            && (!s'.handlers[h].phase.Admitted? ==> s'.handlers[h].phase == Done)
            && (s'.handlers[h].phase.Admitted? && !r.isMaster ==>
                  s'.handlers[h].phase.found == Some(s.ingresses[r.id]))
  {
  }

  // An entry that was not there yet at step `from` was inserted since.
  lemma InsertedSince(states: seq<State>, acts: seq<Act>, from: nat, end: nat, id: Id, g: Handler) returns (j: nat)
    requires IsRun(states, acts) && from <= end < |states|
    requires Entry(states[from], id) != Some(g) && Entry(states[end], id) == Some(g)
    ensures from <= j < end && acts[j] == Insert(g) && MasterOf(states[j], g, id)
  {
    j := from;
    while Entry(states[j + 1], id) != Some(g)
      invariant from <= j < end && Entry(states[j], id) != Some(g)
      decreases end - j
    {
      j := j + 1;
    }
    assert Follows(states[j], acts[j], states[j + 1]);
    OnlyInsertEnters(states[j], acts[j], id, g);
  }

  lemma OnlyInsertEnters(s: State, act: Act, id: Id, g: Handler)
    requires Enabled(s, act) && Entry(s, id) != Some(g) && Entry(Do(s, act), id) == Some(g)
    ensures act == Insert(g) && MasterOf(s, g, id)
  {
  }

  // h looked up a free id at step l, and g inserted under it at step j, before h does at step i.
  predicate Overlapped(states: seq<State>, acts: seq<Act>, i: nat, h: Handler, id: Id, g: Handler, l: nat, j: nat)
    requires i <= |acts| && i < |states|
  {
    && l < j < i
    && acts[l] == Lookup(h) && id !in states[l].ingresses
    && acts[j] == Insert(g) && MasterOf(states[j], g, id)
  }

  /** The conflict check: an insertion replaces another session only if that one was inserted between
      the inserting handler's own lookup, which found the id free, and this insertion. */
  lemma ReplacesOnlyOverlapping(states: seq<State>, acts: seq<Act>, i: nat, h: Handler, g: Handler)
    requires IsRun(states, acts) && i < |acts| && acts[i] == Insert(h)
    requires h in states[i].handlers && Entry(states[i], states[i].handlers[h].id) == Some(g)
    ensures exists l: nat, j: nat :: Overlapped(states, acts, i, h, states[i].handlers[h].id, g, l, j)
  {
    RunIsSafe(states, acts);
    AlwaysLooked(states, acts, i);
    assert Follows(states[i], acts[i], states[i + 1]);
    assert PhaseFits(states[i], h) && Looked(states, acts, i, h);
    var id := states[i].handlers[h].id;
    var l: nat :| l < i && FoundAt(states, acts, l, h, id, None);
    assert Follows(states[l], acts[l], states[l + 1]);
    var j := InsertedSince(states, acts, l, i, id, g);
    assert Overlapped(states, acts, i, h, id, g, l, j);
  }

  // A master registers, and an egress finds it.
  function RelayActs(id: Id, a: Handler, b: Handler): seq<Act> {
    [Arrive(a, id, true), Lookup(a), Insert(a), Arrive(b, id, false), Lookup(b), Relay(b)]
  }

  function RelayState(id: Id, a: Handler, b: Handler, k: nat): State
    requires a != b && k <= 6
  {
    var pa := if k == 1 then Arrived else if k == 2 then Admitted(None) else Registered;
    var pb := if k == 4 then Arrived else if k == 5 then Admitted(Some(a)) else Relaying(a);
    State(if k < 3 then map[] else map[id := a],
          if k == 0 then map[] else if k <= 3 then map[a := Request(id, true, pa)]
          else map[a := Request(id, true, pa), b := Request(id, false, pb)])
  }

  lemma RelaySteps(id: Id, a: Handler, b: Handler, k: nat)
    requires a != b && k < 6
    ensures Follows(RelayState(id, a, b, k), RelayActs(id, a, b)[k], RelayState(id, a, b, k + 1))
  {
    var s, s' := RelayState(id, a, b, k), RelayState(id, a, b, k + 1);
    var act := RelayActs(id, a, b)[k];
    assert Enabled(s, act);
    assert Do(s, act).ingresses == s'.ingresses;
    assert Do(s, act).handlers == s'.handlers;
  }

  /** An egress is relayed on a registered session. */
  lemma RelayReachable(id: Id, a: Handler, b: Handler)
    requires a != b
    ensures var states := seq(7, k requires 0 <= k < 7 => RelayState(id, a, b, k));
            && IsRun(states, RelayActs(id, a, b))
            && b in states[6].handlers && states[6].handlers[b].phase == Relaying(a)
            && Entry(states[6], id) == Some(a)
  {
    var states := seq(7, k requires 0 <= k < 7 => RelayState(id, a, b, k));
    forall k | 0 <= k < 6 ensures Follows(states[k], RelayActs(id, a, b)[k], states[k + 1]) {
      RelaySteps(id, a, b, k);
    }
  }

  // ------------------------------------------------------------------ clean-up

  // The deletion at the end of h's clean-up takes out another handler's session.
  predicate RemovesForeign(s: State, h: Handler)
    requires h in s.handlers
  {
    Entry(s, s.handlers[h].id).Some? && Entry(s, s.handlers[h].id) != Some(h)
  }

  /** The clean-up of a handler removes another's session exactly when the id was inserted again
      between its comparison and its deletion and that entry is still there. */
  lemma ForeignRemovalIffRaced(states: seq<State>, acts: seq<Act>, i: nat, h: Handler)
    requires IsRun(states, acts) && i < |states| && Enabled(states[i], Delete(h))
    ensures RemovesForeign(states[i], h) <==>
            states[i].handlers[h].phase == Deleting(true) && Entry(states[i], states[i].handlers[h].id).Some?
  {
    RunIsSafe(states, acts);
    assert PhaseFits(states[i], h);
  }

  // Comparison and deletion are not separated by an insertion under the same id.
  predicate CleanupAtomic(s: State, act: Act) {
    act.Insert? && act.h in s.handlers ==>
      forall g :: g in s.handlers && s.handlers[g].id == s.handlers[act.h].id ==> !s.handlers[g].phase.Deleting?
  }

  /** With that, no clean-up ever removes another handler's session, racing masters included. */
  lemma AtomicCleanupIsSafe(states: seq<State>, acts: seq<Act>, i: nat, h: Handler)
    requires IsRun(states, acts) && i < |states| && Enabled(states[i], Delete(h))
    requires forall j :: 0 <= j < |acts| ==> CleanupAtomic(states[j], acts[j])
    ensures !RemovesForeign(states[i], h)
  {
    ForeignRemovalIffRaced(states, acts, i, h);
    for j := 0 to i
      invariant forall g :: g in states[j].handlers ==> states[j].handlers[g].phase != Deleting(true)
    {
      assert Follows(states[j], acts[j], states[j + 1]) && CleanupAtomic(states[j], acts[j]);
    }
  }

  // The race: two masters of one id pass the conflict check, and the second inserts between the
  // comparison and the deletion of the first.
  function RaceActs(id: Id, a: Handler, b: Handler): seq<Act> {
    [Arrive(a, id, true), Arrive(b, id, true), Lookup(a), Lookup(b),
     Insert(a), Close(a), Compare(a), Insert(b), Delete(a)]
  }

  function RaceState(id: Id, a: Handler, b: Handler, k: nat): State
    requires a != b && k <= 9
  {
    var pa := if k <= 2 then Arrived else if k <= 4 then Admitted(None) else if k == 5 then Registered
              else if k == 6 then Comparing else if k <= 8 then Deleting(k == 8) else Done;
    var pb := if k <= 3 then Arrived else if k <= 7 then Admitted(None) else Registered;
    State(if k < 5 || k == 9 then map[] else if k < 8 then map[id := a] else map[id := b],
          if k == 0 then map[] else if k == 1 then map[a := Request(id, true, pa)]
          else map[a := Request(id, true, pa), b := Request(id, true, pb)])
  }

  lemma RaceSteps(id: Id, a: Handler, b: Handler, k: nat)
    requires a != b && k < 9
    ensures Follows(RaceState(id, a, b, k), RaceActs(id, a, b)[k], RaceState(id, a, b, k + 1))
  {
    var s, s' := RaceState(id, a, b, k), RaceState(id, a, b, k + 1);
    var act := RaceActs(id, a, b)[k];
    assert Enabled(s, act);
    assert Do(s, act).ingresses == s'.ingresses;
    assert Do(s, act).handlers == s'.handlers;
  }

  /** Without it the property is false: two masters of one id that both passed the conflict check can
      leave the second registered without an entry. */
  lemma RaceRemovesForeign(id: Id, a: Handler, b: Handler)
    requires a != b
    ensures var states := seq(10, k requires 0 <= k < 10 => RaceState(id, a, b, k));
            && IsRun(states, RaceActs(id, a, b))
            && Enabled(states[8], Delete(a)) && RemovesForeign(states[8], a)
            && b in states[9].handlers && states[9].handlers[b].phase == Registered && id !in states[9].ingresses
  {
    var states := seq(10, k requires 0 <= k < 10 => RaceState(id, a, b, k));
    forall k | 0 <= k < 9 ensures Follows(states[k], RaceActs(id, a, b)[k], states[k + 1]) {
      RaceSteps(id, a, b, k);
    }
  }
}
