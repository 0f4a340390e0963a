/**
 Offer, answer and candidates between an egress and an ingress proxy: the signalling order of the
 two Start methods, the dispatching read loop of signal-messenger.go and the lifetime of the
 trickle-ICE goroutine of ice.go.

 Every goroutine is a step system, each step atomic. Messages travel on two FIFO wires; the three
 channels of a messenger are unbuffered, so that a read loop holding a message waits until the one
 goroutine that receives its kind is ready, or the context is cancelled.
 */
module Signalling {

  datatype Msg = Offer | Answer | Candidate

  datatype ReadLoop = Reading | Holding(m: Msg) | Stopped

  // The trickle goroutine: not started, started but not yet registered with the peer connection,
  // receiving candidates, or ended because gathering is complete.
  datatype Trickle = Off | Spawned | On | Over

  // Start of the egress: create the offer, start gathering, send the offer, receive the answer.
  datatype Egress = EBegin | EGathering | EAwaiting | EAnswered | EFailed

  // Start of the ingress: receive the offer, start gathering, send the answer.
  datatype Ingress = IAwaiting | IOffered | IGathering | IAnswering | IFailed

  // A wire, with everything ever written to it and how much of that was read.
  datatype Wire = Wire(written: seq<Msg>, taken: nat)

  datatype State = State(
    e: Egress, eLoop: ReadLoop, eTrickle: Trickle, toE: Wire,
    i: Ingress, iLoop: ReadLoop, iTrickle: Trickle, toI: Wire,
    eCancelled: bool, iCancelled: bool)

  const INIT := State(EBegin, Reading, Off, Wire([], 0), IAwaiting, Reading, Off, Wire([], 0), false, false)

  datatype Act =
    | EGather | ESendOffer | ERecvAnswer | EAbort        // egress Start
    | ECancel | ICancel                                  // the two contexts
    | ERead | ECandidateIn | EStop                       // egress read loop
    | ERegister | ECandidateOut | EGathered              // egress trickle and its callbacks
    | IRecvOffer | IGather | ISendAnswer | IAbort        // ingress Start
    | IRead | ICandidateIn | IStop                       // ingress read loop
    | IRegister | ICandidateOut | IGathered              // ingress trickle and its callbacks

  predicate HasNext(w: Wire) { w.taken < |w.written| }

  function Put(w: Wire, m: Msg): Wire { w.(written := w.written + [m]) }

  predicate Enabled(s: State, act: Act) {
    match act
    case EGather => s.e == EBegin
    case ESendOffer => s.e == EGathering
    case ERecvAnswer => s.e == EAwaiting && s.eLoop == Holding(Answer)
    case EAbort => s.e == EAwaiting && s.eCancelled
    case ERead => s.eLoop == Reading && HasNext(s.toE)
    case ECandidateIn => s.eLoop == Holding(Candidate) && s.eTrickle == On
    case EStop => s.eLoop != Stopped && s.eCancelled
    case ERegister => s.eTrickle == Spawned
    case ECandidateOut => s.eTrickle == On
    case EGathered => s.eTrickle == On
    case IRecvOffer => s.i == IAwaiting && s.iLoop == Holding(Offer)
    case IGather => s.i == IOffered
    case ISendAnswer => s.i == IGathering
    case IAbort => s.i == IAwaiting && s.iCancelled
    case IRead => s.iLoop == Reading && HasNext(s.toI)
    case ICandidateIn => s.iLoop == Holding(Candidate) && s.iTrickle == On
    case IStop => s.iLoop != Stopped && s.iCancelled
    case IRegister => s.iTrickle == Spawned
    case ICandidateOut => s.iTrickle == On
    case IGathered => s.iTrickle == On
    case ECancel => !s.eCancelled
    case ICancel => !s.iCancelled
  }

  function Do(s: State, act: Act): State
    requires Enabled(s, act)
  {
    match act
    case EGather => s.(e := EGathering, eTrickle := Spawned)
    case ESendOffer => s.(e := EAwaiting, toI := Put(s.toI, Offer))
    case ERecvAnswer => s.(e := EAnswered, eLoop := Reading)
    case EAbort => s.(e := EFailed)
    case ERead => s.(eLoop := Holding(s.toE.written[s.toE.taken]), toE := s.toE.(taken := s.toE.taken + 1))
    case ECandidateIn => s.(eLoop := Reading)
    case EStop => s.(eLoop := Stopped)
    case ERegister => s.(eTrickle := On)
    case ECandidateOut => s.(toI := Put(s.toI, Candidate))
    case EGathered => s.(eTrickle := Over)
    case IRecvOffer => s.(i := IOffered, iLoop := Reading)
    case IGather => s.(i := IGathering, iTrickle := Spawned)
    case ISendAnswer => s.(i := IAnswering, toE := Put(s.toE, Answer))
    case IAbort => s.(i := IFailed)
    case IRead => s.(iLoop := Holding(s.toI.written[s.toI.taken]), toI := s.toI.(taken := s.toI.taken + 1))
    case ICandidateIn => s.(iLoop := Reading)
    case IStop => s.(iLoop := Stopped)
    case IRegister => s.(iTrickle := On)
    case ICandidateOut => s.(toE := Put(s.toE, Candidate))
    case IGathered => s.(iTrickle := Over)
    case ECancel => s.(eCancelled := true)
    case ICancel => s.(iCancelled := true)
  }

  predicate Follows(s: State, act: Act, s': State) {
    Enabled(s, act) && s' == Do(s, act)
  }

  ghost predicate IsRun(states: seq<State>, acts: seq<Act>) {
    && |states| == |acts| + 1 && states[0] == INIT
    && forall k :: 0 <= k < |acts| ==> Follows(states[k], acts[k], states[k + 1])
  }

  // ------------------------------------------------------------------ invariants

  // The message the wire delivers first, once there is one, is m.
  predicate FirstIs(w: Wire, m: Msg) {
    w.written == [] || w.written[0] == m
  }

  predicate OfferSent(s: State) { s.e in {EAwaiting, EAnswered, EFailed} }

  predicate AnswerSent(s: State) { s.i == IAnswering }

  // The ingress side: as long as it awaits the offer its trickle goroutine does not exist and its
  // read loop has taken at most one message, which it still holds.
  predicate IngressInv(s: State) {
    && s.toI.taken <= |s.toI.written|
    && (Offer in s.toI.written <==> OfferSent(s)) && Answer !in s.toI.written
    && (s.i == IAwaiting || s.i == IFailed ==>
          && s.iTrickle == Off
          && (s.iLoop == Reading ==> s.toI.taken == 0)
          && (s.iLoop.Holding? ==> s.toI.taken == 1 && s.iLoop.m == s.toI.written[0]))
    && (s.i in {IOffered, IGathering, IAnswering} ==> s.toI.written != [] && s.toI.written[0] == Offer)
    && (s.i == IOffered ==> s.iTrickle == Off)
    && (s.i == IFailed || s.iLoop == Stopped ==> s.iCancelled)
  }

  // The egress side: with the answer first on its wire, the read loop holds nothing else before.
  predicate EgressInv(s: State) {
    && s.toE.taken <= |s.toE.written|
    && (Answer in s.toE.written <==> AnswerSent(s)) && Offer !in s.toE.written
    && (s.e == EBegin ==> s.eTrickle == Off)
    && (FirstIs(s.toE, Answer) && s.e in {EBegin, EGathering, EAwaiting} ==>
          && (s.eLoop == Reading ==> s.toE.taken == 0)
          && (s.eLoop.Holding? ==> s.toE.taken == 1 && s.eLoop.m == Answer))
    && (s.eLoop == Holding(Answer) ==> AnswerSent(s))
    && (s.i in {IAwaiting, IFailed, IOffered, IGathering} ==> s.e != EAnswered)
    && (s.e in {EBegin, EGathering} ==> s.i in {IAwaiting, IFailed})
    && (s.e == EFailed || s.eLoop == Stopped ==> s.eCancelled)
  }

  ghost predicate Inv(s: State) { IngressInv(s) && EgressInv(s) }

  lemma IngressKept(s: State, act: Act)
    requires Inv(s) && Enabled(s, act)
    ensures IngressInv(Do(s, act))
  {
  }

  lemma EgressKept(s: State, act: Act)
    requires Inv(s) && Enabled(s, act)
    ensures EgressInv(Do(s, act))
  {
    var s' := Do(s, act);
    assert FirstIs(s'.toE, Answer) ==> FirstIs(s.toE, Answer);
  }

  lemma RunKeepsInv(states: seq<State>, acts: seq<Act>)
    requires IsRun(states, acts)
    ensures forall k :: 0 <= k < |states| ==> Inv(states[k])
  {
    for k := 0 to |acts|
      invariant forall j :: 0 <= j <= k ==> Inv(states[j])
    {
      assert Follows(states[k], acts[k], states[k + 1]);
      IngressKept(states[k], acts[k]);
      EgressKept(states[k], acts[k]);
    }
  }

  // Neither side was cancelled, and the answer is still to be received.
  predicate Pending(s: State) {
    !s.eCancelled && !s.iCancelled && s.e != EAnswered
  }

  // ------------------------------------------------------------------ progress

  // The next act of the exchange proper, which everything else only accompanies.
  function Critical(s: State): Act {
    match s.e
    case EBegin => EGather
    case EGathering => ESendOffer
    case _ =>
      match s.i
      case IAwaiting => if s.iLoop == Reading then IRead else IRecvOffer
      case IOffered => IGather
      case IGathering => ISendAnswer
      case _ => if s.eLoop == Reading then ERead else ERecvAnswer
  }

  // How many critical acts are left before offer and answer have both been received.
  function Left(s: State): nat {
    match s.e
    case EBegin => 8
    case EGathering => 7
    case EAnswered => 0
    case _ =>
      match s.i
      case IAwaiting => if s.iLoop == Reading then 6 else 5
      case IOffered => 4
      case IGathering => 3
      case _ => if s.eLoop == Reading then 2 else 1
  }

  predicate OffersFirst(s: State) {
    FirstIs(s.toI, Offer) && FirstIs(s.toE, Answer)
  }

  predicate Underway(s: State) {
    OffersFirst(s) && Pending(s)
  }

  // An act beside the critical one that keeps the first messages in place and cancels nothing.
  predicate Ordinary(s: State, act: Act)
    requires Enabled(s, act)
  {
    act != ECancel && act != ICancel && act != Critical(s) && OffersFirst(Do(s, act))
  }

  lemma CriticalEnabled(s: State)
    requires Inv(s) && Underway(s)
    ensures Enabled(s, Critical(s)) && Left(Do(s, Critical(s))) == Left(s) - 1
  {
    if s.e == EAwaiting {
      assert s.toI.written != [];
      if s.i == IAnswering { assert s.toE.written != []; }
    }
  }

  lemma OthersNeutral(s: State, act: Act)
    requires Inv(s) && Underway(s)
    requires Enabled(s, act) && act != ECancel && act != ICancel && OffersFirst(Do(s, act))
    ensures act != Critical(s) ==> Left(Do(s, act)) == Left(s)
    ensures act != Critical(s) ==> Critical(Do(s, act)) == Critical(s)
  {
  }

  lemma LeftStep(s: State, act: Act)
    requires Inv(s) && Underway(s) && Enabled(s, act)
    requires OffersFirst(Do(s, act)) && !Do(s, act).eCancelled && !Do(s, act).iCancelled
    ensures Left(s) == Left(Do(s, act)) + if act == Critical(s) then 1 else 0
  {
    if act == Critical(s) { CriticalEnabled(s); } else { OthersNeutral(s, act); }
  }

  lemma {:induction false} UnderwayBefore(states: seq<State>, acts: seq<Act>, k: nat)
    requires IsRun(states, acts) && k < |states| && Underway(states[|acts|])
    ensures Underway(states[k])
    decreases |states| - k
  {
    if k < |acts| {
      UnderwayBefore(states, acts, k + 1);
      assert Follows(states[k], acts[k], states[k + 1]);
    }
  }

  /** Progress: with OFFER and ANSWER each first on its wire, no reachable state before both are
      received is stuck, whatever the candidate traffic and however gathering is timed. The next
      critical act is enabled, stays enabled until it is taken, and of 8 in all exactly Left remain. */
  lemma SignallingProgress(states: seq<State>, acts: seq<Act>)
    requires IsRun(states, acts) && Underway(states[|acts|])
    ensures var s := states[|acts|];
            && Enabled(s, Critical(s)) && Left(Do(s, Critical(s))) == Left(s) - 1
            && (forall act :: Enabled(s, act) && Ordinary(s, act) ==>
                  Left(Do(s, act)) == Left(s) && Critical(Do(s, act)) == Critical(s))
    ensures Left(states[|acts|]) + CriticalTaken(states, acts, |acts|) == 8
  {
    RunKeepsInv(states, acts);
    var s := states[|acts|];
    CriticalEnabled(s);
    forall act | Enabled(s, act) && Ordinary(s, act)
      ensures Left(Do(s, act)) == Left(s) && Critical(Do(s, act)) == Critical(s)
    {
      OthersNeutral(s, act);
    }
    UnderwayThroughout(states, acts);
    forall j | 0 <= j < |acts| ensures CountsDown(states[j], acts[j], states[j + 1]) {
      assert Follows(states[j], acts[j], states[j + 1]) && Underway(states[j + 1]);
      LeftStep(states[j], acts[j]);
    }
    LeftCounts(states, acts, |acts|);
  }

  // How many of the first k acts were critical when they were taken.
  function CriticalTaken(states: seq<State>, acts: seq<Act>, k: nat): nat
    requires |states| == |acts| + 1 && k <= |acts|
  {
    if k == 0 then 0 else CriticalTaken(states, acts, k - 1) + if acts[k - 1] == Critical(states[k - 1]) then 1 else 0
  }

  lemma UnderwayThroughout(states: seq<State>, acts: seq<Act>)
    requires IsRun(states, acts) && Underway(states[|acts|])
    ensures forall k :: 0 <= k < |states| ==> Inv(states[k]) && Underway(states[k])
  {
    RunKeepsInv(states, acts);
    forall k | 0 <= k < |states| ensures Underway(states[k]) {
      UnderwayBefore(states, acts, k);
    }
  }

  predicate CountsDown(s: State, act: Act, s': State) {
    Left(s) == Left(s') + if act == Critical(s) then 1 else 0
  }

  lemma {:induction false} LeftCounts(states: seq<State>, acts: seq<Act>, k: nat)
    requires |states| == |acts| + 1 && states[0] == INIT && k <= |acts|
    requires forall j :: 0 <= j < |acts| ==> CountsDown(states[j], acts[j], states[j + 1])
    ensures Left(states[k]) + CriticalTaken(states, acts, k) == 8
  {
    if k > 0 {
      LeftCounts(states, acts, k - 1);
      assert CountsDown(states[k - 1], acts[k - 1], states[k - 1 + 1]);
    }
  }

  // ------------------------------------------------------------------ the other order

  /** The ingress receives the offer only if it was the first message on its wire. A candidate ahead
      of it holds the read loop for good, and RecvOffer ends only by the ingress's own cancellation. */
  lemma CandidateAheadOfOffer(states: seq<State>, acts: seq<Act>, k: nat)
    requires IsRun(states, acts) && k < |states|
    ensures states[k].i in {IOffered, IGathering, IAnswering} ==>
              states[k].toI.written != [] && states[k].toI.written[0] == Offer
    ensures states[k].toI.written != [] && states[k].toI.written[0] == Candidate ==>
              && states[k].i in {IAwaiting, IFailed}
              && (states[k].i == IFailed ==> states[k].iCancelled)
              && (states[k].iLoop == Reading ==> states[k].toI.taken == 0)
              && (states[k].iLoop.Holding? ==> states[k].iLoop.m == Candidate && !Enabled(states[k], ICandidateIn))
  {
    RunKeepsInv(states, acts);
    assert Inv(states[k]);
  }

  // The ingress's read loop holds a candidate, which nobody takes before the offer is received.
  predicate IngressTrapped(s: State) {
    s.i == IAwaiting && s.iLoop == Holding(Candidate) && !s.iCancelled
  }

  lemma IngressTrapIsFinal(s: State, act: Act)
    requires Inv(s) && IngressTrapped(s) && Enabled(s, act) && act != ICancel
    ensures IngressTrapped(Do(s, act))
  {
  }

  // What the egress side keeps about an answer under way.
  predicate PendingInv(s: State) {
    && s.toE.taken <= |s.toE.written|
    && (s.toE.written != [] ==> s.i in {IGathering, IAnswering})
    && (s.eLoop.Holding? ==> s.toE.taken > 0 && s.eLoop.m == s.toE.written[s.toE.taken - 1])
    && (s.eTrickle == Off <==> s.e == EBegin)
    && (AnswerSent(s) && s.e == EAwaiting && !s.eCancelled && s.eLoop != Holding(Answer) ==>
          Answer in s.toE.written[s.toE.taken..])
  }

  lemma PendingKept(s: State, act: Act)
    requires Inv(s) && PendingInv(s) && Enabled(s, act)
    ensures PendingInv(Do(s, act))
  {
    var s' := Do(s, act);
    var w, w' := s.toE, s'.toE;
    if w'.written != w.written {
      assert w'.written[w.taken..] == w.written[w.taken..] + [w'.written[|w.written|]];
    }
    if act == ERead {
      assert w.written[w.taken..] == [w.written[w.taken]] + w'.written[w'.taken..];
    }
  }

  lemma RunKeepsPending(states: seq<State>, acts: seq<Act>)
    requires IsRun(states, acts)
    ensures forall k :: 0 <= k < |states| ==> PendingInv(states[k])
  {
    RunKeepsInv(states, acts);
    for k := 0 to |acts|
      invariant forall j :: 0 <= j <= k ==> PendingInv(states[j])
    {
      assert Follows(states[k], acts[k], states[k + 1]);
      PendingKept(states[k], acts[k]);
    }
  }

  // Nothing on the way from the offer to the received answer can move.
  ghost predicate Stuck(s: State) {
    && (forall act :: act in {EGather, ESendOffer, ERegister, ERead, ECandidateIn, ERecvAnswer} ==> !Enabled(s, act))
    && (s.i == IAwaiting ==> !Enabled(s, IRead))
    && (forall act :: act in {IRecvOffer, IGather, ISendAnswer} ==> !Enabled(s, act))
  }

  // The egress's read loop holds a candidate that nobody will ever take.
  predicate EgressTrapped(s: State) {
    s.e == EAwaiting && s.eLoop == Holding(Candidate) && s.eTrickle == Over && !s.eCancelled
  }

  // One of the two traps has closed, and the other side has nothing left to do.
  predicate Deadlocked(s: State) {
    || (EgressTrapped(s) && s.i == IAnswering)
    || (IngressTrapped(s) && s.e == EAwaiting && s.eTrickle != Spawned)
  }

  /** Exactly when the exchange gets stuck, in every interleaving: the egress's read loop holds a
      candidate, its gathering is over and the ingress has answered, or the ingress's read loop holds
      a candidate that came ahead of the offer and the egress awaits the answer. */
  lemma StuckIffTrapped(states: seq<State>, acts: seq<Act>)
    requires IsRun(states, acts) && Pending(states[|acts|])
    ensures Stuck(states[|acts|]) <==> Deadlocked(states[|acts|])
  {
    RunKeepsInv(states, acts);
    RunKeepsPending(states, acts);
    var s := states[|acts|];
    assert Inv(s) && PendingInv(s);
    if Stuck(s) { StuckIsTrapped(s); }
    if Deadlocked(s) { TrappedIsStuck(s); }
  }

  lemma TrappedIsStuck(s: State)
    requires Inv(s) && PendingInv(s) && Pending(s) && Deadlocked(s)
    ensures Stuck(s)
  {
    assert s.eLoop.Holding? ==> s.toE.written != [];
  }

  lemma StuckIsTrapped(s: State)
    requires Inv(s) && PendingInv(s) && Stuck(s) && Pending(s)
    ensures Deadlocked(s)
  {
    assert !Enabled(s, EGather) && !Enabled(s, ESendOffer) && s.e == EAwaiting;
    assert !Enabled(s, ERegister);
    assert s.eLoop.Holding? ==> s.eLoop.m in s.toE.written;
    assert s.toI.written != [];
    if s.i == IAwaiting {
      assert !Enabled(s, IRead) && !Enabled(s, IRecvOffer);
      assert s.iLoop.Holding? && s.iLoop.m in s.toI.written;
    } else {
      assert !Enabled(s, IGather) && !Enabled(s, ISendAnswer) && s.i == IAnswering;
      assert !Enabled(s, ERead) && !Enabled(s, ERecvAnswer) && !Enabled(s, ECandidateIn);
    }
  }

  /** On the egress side a candidate ahead of the answer does harm once gathering is complete: the
      trap is never left without the egress's own cancellation, and it is reachable. */
  lemma EgressTrapIsFinal(s: State, act: Act)
    requires EgressTrapped(s) && Enabled(s, act) && act != ECancel
    ensures EgressTrapped(Do(s, act))
  {
  }

  const TRAP_ACTS := [
    EGather, ERegister, ESendOffer, IRead, IRecvOffer, IGather, IRegister, ICandidateOut, EGathered, ERead, ISendAnswer]

  // The states those acts lead through.
  function TrapState(k: nat): State
    requires k <= 11
  {
    State(
      if k < 1 then EBegin else if k < 3 then EGathering else EAwaiting,
      if k < 10 then Reading else Holding(Candidate),
      if k < 1 then Off else if k < 2 then Spawned else if k < 9 then On else Over,
      Wire(if k < 8 then [] else if k < 11 then [Candidate] else [Candidate, Answer], if k < 10 then 0 else 1),
      if k < 5 then IAwaiting else if k < 6 then IOffered else if k < 11 then IGathering else IAnswering,
      if k == 4 then Holding(Offer) else Reading,
      if k < 6 then Off else if k < 7 then Spawned else On,
      Wire(if k < 3 then [] else [Offer], if k < 4 then 0 else 1),
      false, false)
  }

  lemma TrapSteps(k: nat)
    requires k < 11
    ensures Follows(TrapState(k), TRAP_ACTS[k], TrapState(k + 1))
  {
  }

  lemma EgressTrapReachable()
    ensures var states := seq(12, k requires 0 <= k < 12 => TrapState(k));
            IsRun(states, TRAP_ACTS) && EgressTrapped(states[10]) && Stuck(states[11])
  {
    var states := seq(12, k requires 0 <= k < 12 => TrapState(k));
    forall k | 0 <= k < 11 ensures Follows(states[k], TRAP_ACTS[k], states[k + 1]) {
      TrapSteps(k);
    }
    StuckIffTrapped(states, TRAP_ACTS);
  }

  // The egress starts gathering before it sends its offer, and a candidate overtakes it.
  const EARLY_ACTS := [EGather, ERegister, ECandidateOut, IRead, ESendOffer]

  function EarlyState(k: nat): State
    requires k <= 5
  {
    State(
      if k < 1 then EBegin else if k < 5 then EGathering else EAwaiting,
      Reading,
      if k < 1 then Off else if k < 2 then Spawned else On,
      Wire([], 0),
      IAwaiting,
      if k < 4 then Reading else Holding(Candidate),
      Off,
      Wire(if k < 3 then [] else if k < 5 then [Candidate] else [Candidate, Offer], if k < 4 then 0 else 1),
      false, false)
  }

  lemma EarlySteps(k: nat)
    requires k < 5
    ensures Follows(EarlyState(k), EARLY_ACTS[k], EarlyState(k + 1))
  {
  }

  /** A candidate ahead of the offer is possible, and leaves both sides waiting for each other. */
  lemma IngressTrapReachable()
    ensures var states := seq(6, k requires 0 <= k < 6 => EarlyState(k));
            && IsRun(states, EARLY_ACTS) && IngressTrapped(states[4]) && Stuck(states[5])
            && states[5].toI.written == [Candidate, Offer]
  {
    var states := seq(6, k requires 0 <= k < 6 => EarlyState(k));
    forall k | 0 <= k < 5 ensures Follows(states[k], EARLY_ACTS[k], states[k + 1]) {
      EarlySteps(k);
    }
    StuckIffTrapped(states, EARLY_ACTS);
  }

  // ------------------------------------------------------------------ completion

  // What is still to be handed over from a wire, with what the read loop holds.
  function Unread(l: ReadLoop, w: Wire): seq<Msg> {
    (if l.Holding? then [l.m] else []) + if w.taken <= |w.written| then w.written[w.taken..] else []
  }

  /** A message handed over is gone: the loop reads on, and exactly that message is no longer to be
      handed over. Reading only moves it from the wire into the loop. */
  lemma HandedOver(s: State, act: Act)
    requires Inv(s) && Enabled(s, act) && act in {ERead, ECandidateIn, ERecvAnswer, IRead, ICandidateIn, IRecvOffer}
    ensures var s' := Do(s, act);
            match act
            case ERead => s'.eLoop.Holding? && Unread(s'.eLoop, s'.toE) == Unread(s.eLoop, s.toE)
            case IRead => s'.iLoop.Holding? && Unread(s'.iLoop, s'.toI) == Unread(s.iLoop, s.toI)
            case ECandidateIn => s'.eLoop == Reading && Unread(s.eLoop, s.toE) == [Candidate] + Unread(s'.eLoop, s'.toE)
            case ERecvAnswer => s'.eLoop == Reading && Unread(s.eLoop, s.toE) == [Answer] + Unread(s'.eLoop, s'.toE)
            case ICandidateIn => s'.iLoop == Reading && Unread(s.iLoop, s.toI) == [Candidate] + Unread(s'.iLoop, s'.toI)
            case _ => s'.iLoop == Reading && Unread(s.iLoop, s.toI) == [Offer] + Unread(s'.iLoop, s'.toI)
  {
    if act == ERead { ReadKeepsUnread(s.toE); }
    if act == IRead { ReadKeepsUnread(s.toI); }
    if s.eLoop.Holding? { TakeUnread(s.eLoop.m, s.toE); }
    if s.iLoop.Holding? { TakeUnread(s.iLoop.m, s.toI); }
  }

  lemma ReadKeepsUnread(w: Wire)
    requires HasNext(w)
    ensures Unread(Holding(w.written[w.taken]), w.(taken := w.taken + 1)) == Unread(Reading, w)
  {
    assert w.written[w.taken..] == [w.written[w.taken]] + w.written[w.taken + 1..];
  }

  lemma TakeUnread(m: Msg, w: Wire)
    ensures Unread(Holding(m), w) == [m] + Unread(Reading, w)
  {
  }

  // Nothing else takes a message away.
  lemma UnreadGrows(s: State, act: Act)
    requires Inv(s) && Enabled(s, act) && Pending(s)
    requires act !in {ERead, ECandidateIn, ERecvAnswer, IRead, ICandidateIn, IRecvOffer}
    ensures var s' := Do(s, act); var u, u' := Unread(s.eLoop, s.toE), Unread(s'.eLoop, s'.toE);
            && u <= u' && (act != ISendAnswer && act != ICandidateOut ==> u' == u)
            && (act == ISendAnswer ==> u' == u + [Answer])
  {
    var w, w' := s.toE, Do(s, act).toE;
    if w'.written != w.written {
      assert w'.written[w.taken..] == w.written[w.taken..] + [w'.written[|w.written|]];
    }
  }

  // No candidate is ahead of the offer, and none that nobody will take is ahead of the answer.
  predicate Open(s: State) {
    && FirstIs(s.toI, Offer)
    && (s.eTrickle == Over ==> Unread(s.eLoop, s.toE) == [] || Unread(s.eLoop, s.toE)[0] == Answer)
  }

  // The way to the received answer.
  function Next(s: State): Act {
    if s.e == EBegin then EGather
    else if s.e == EGathering then ESendOffer
    else if s.i == IAwaiting then (if s.iLoop == Reading then IRead else IRecvOffer)
    else if s.i == IOffered then IGather
    else if s.i == IGathering then ISendAnswer
    else if s.eLoop == Reading then ERead
    else if s.eLoop == Holding(Answer) then ERecvAnswer
    else if s.eTrickle == Spawned then ERegister
    else ECandidateIn
  }

  // How far it is: the steps of the two Start methods, then what is in front of the answer.
  function Phase(s: State): nat {
    if s.e == EAnswered then 0
    else if s.e == EBegin then 8
    else if s.e == EGathering then 7
    else if s.i == IAwaiting then (if s.iLoop == Reading then 6 else 5)
    else if s.i == IOffered then 4
    else if s.i == IGathering then 3
    else 2
  }

  // Messages still on the wire count twice: they have to be read and handed over.
  function Distance(s: State): nat {
    2 * |Unread(s.eLoop, s.toE)| + (if s.eLoop == Reading then 1 else 0) + (if s.eTrickle == Spawned then 1 else 0)
  }

  lemma NextEnabled(s: State)
    requires Inv(s) && PendingInv(s) && Pending(s) && Open(s)
    ensures Enabled(s, Next(s))
  {
    if s.e == EAwaiting {
      assert s.toI.written != [] && s.toI.written[0] == Offer;
    }
    if s.e == EAwaiting && s.i == IAnswering && s.eLoop == Reading {
      assert Answer in s.toE.written[s.toE.taken..];
    }
    if s.eLoop.Holding? {
      assert s.eLoop.m in s.toE.written;
    }
  }

  lemma NextAdvances(s: State)
    requires Inv(s) && PendingInv(s) && Pending(s) && Open(s) && Enabled(s, Next(s))
    ensures var s' := Do(s, Next(s));
            && (Open(s') || s'.e == EAnswered) && !s'.eCancelled && !s'.iCancelled
            && (Phase(s') < Phase(s) || (Phase(s') == Phase(s) && Distance(s') < Distance(s)))
  {
    if Next(s) in {ERead, ECandidateIn, ERecvAnswer, IRead, ICandidateIn, IRecvOffer} {
      HandedOver(s, Next(s));
      TakingAdvances(s);
    } else {
      UnreadGrows(s, Next(s));
    }
  }

  lemma TakingAdvances(s: State)
    requires Inv(s) && PendingInv(s) && Pending(s) && Open(s) && Enabled(s, Next(s))
    requires Next(s) in {ERead, ECandidateIn, ERecvAnswer, IRead, IRecvOffer}
    ensures var s' := Do(s, Next(s));
            && (Open(s') || s'.e == EAnswered)
            && (Phase(s') < Phase(s) || (Phase(s') == Phase(s) && Distance(s') < Distance(s)))
  {
    HandedOver(s, Next(s));
  }

  // Enabled acts, one after the other, none of them a cancellation.
  ghost predicate Leads(states: seq<State>, acts: seq<Act>) {
    && |states| == |acts| + 1
    && forall k :: 0 <= k < |acts| ==>
                     Follows(states[k], acts[k], states[k + 1]) && acts[k] != ECancel && acts[k] != ICancel
  }

  ghost predicate CanComplete(s: State) {
    exists states: seq<State>, acts: seq<Act> :: Completes(s, states, acts)
  }

  ghost predicate Completes(s: State, states: seq<State>, acts: seq<Act>) {
    Leads(states, acts) && states[0] == s && states[|acts|].e == EAnswered
  }

  lemma {:induction false} OpenCompletes(s: State)
    requires Inv(s) && PendingInv(s) && (Open(s) || s.e == EAnswered) && !s.eCancelled && !s.iCancelled
    ensures CanComplete(s)
    decreases Phase(s), Distance(s)
  {
    if s.e == EAnswered {
      assert Completes(s, [s], []);
    } else {
      NextEnabled(s);
      NextAdvances(s);
      var act := Next(s);
      var s' := Do(s, act);
      IngressKept(s, act);
      EgressKept(s, act);
      PendingKept(s, act);
      OpenCompletes(s');
      var states, acts :| Completes(s', states, acts);
      Prepend(s, act, states, acts);
    }
  }

  lemma Prepend(s: State, act: Act, states: seq<State>, acts: seq<Act>)
    requires Enabled(s, act) && act != ECancel && act != ICancel && Completes(Do(s, act), states, acts)
    ensures CanComplete(s)
  {
    var states', acts' := [s] + states, [act] + acts;
    forall k | 0 <= k < |acts'|
      ensures Follows(states'[k], acts'[k], states'[k + 1]) && acts'[k] != ECancel && acts'[k] != ICancel
    {
      if k > 0 {
        assert Follows(states[k - 1], acts[k - 1], states[k - 1 + 1]);
      }
    }
    assert Completes(s, states', acts');
  }

  lemma ClosedStays(s: State, act: Act)
    requires Inv(s) && PendingInv(s) && Pending(s) && !Open(s)
    requires Enabled(s, act) && act != ECancel && act != ICancel
    ensures Pending(Do(s, act)) && !Open(Do(s, act))
  {
    if act in {ERead, ECandidateIn, ERecvAnswer, IRead, ICandidateIn, IRecvOffer} {
      HandedOver(s, act);
    } else {
      UnreadGrows(s, act);
    }
    if !FirstIs(s.toI, Offer) {
      assert s.toI.written[0] != Offer && s.i in {IAwaiting, IFailed};
    }
  }

  lemma ClosedNeverCompletes(s: State, states: seq<State>, acts: seq<Act>)
    requires Inv(s) && PendingInv(s) && Pending(s) && !Open(s) && Leads(states, acts) && states[0] == s
    ensures states[|acts|].e != EAnswered
  {
    for k := 0 to |acts|
      invariant Inv(states[k]) && PendingInv(states[k]) && Pending(states[k]) && !Open(states[k])
    {
      assert Follows(states[k], acts[k], states[k + 1]);
      IngressKept(states[k], acts[k]);
      EgressKept(states[k], acts[k]);
      PendingKept(states[k], acts[k]);
      ClosedStays(states[k], acts[k]);
    }
  }

  /** The exact law of the exchange: from any reachable state that is not cancelled, some
      continuation receives the answer if and only if no candidate is ahead of the offer and, once
      the egress's gathering is over, none is to be handed over ahead of the answer. */
  lemma CompletesIffOpen(states: seq<State>, acts: seq<Act>)
    requires IsRun(states, acts) && Pending(states[|acts|])
    ensures CanComplete(states[|acts|]) <==> Open(states[|acts|])
  {
    RunKeepsInv(states, acts);
    RunKeepsPending(states, acts);
    var s := states[|acts|];
    assert Inv(s) && PendingInv(s);
    if Open(s) {
      OpenCompletes(s);
    } else if CanComplete(s) {
      var ss, aa :| Completes(s, ss, aa);
      ClosedNeverCompletes(s, ss, aa);
    }
  }

  // ------------------------------------------------------------------ candidates after gathering

  // A read loop that holds a candidate when its own side's gathering is over.
  predicate EgressHolds(s: State) { s.eLoop == Holding(Candidate) && s.eTrickle == Over && !s.eCancelled }

  predicate IngressHolds(s: State) { s.iLoop == Holding(Candidate) && s.iTrickle == Over && !s.iCancelled }

  /** A candidate is taken only while the receiving side still gathers: one that its read loop holds
      afterwards is never handed over, and nothing behind it is read. */
  lemma HeldForGood(s: State, act: Act)
    requires Inv(s) && Enabled(s, act)
    ensures EgressHolds(s) && act != ECancel ==> EgressHolds(Do(s, act)) && Do(s, act).toE.taken == s.toE.taken
    ensures IngressHolds(s) && act != ICancel ==> IngressHolds(Do(s, act)) && Do(s, act).toI.taken == s.toI.taken
    ensures act == ECandidateIn ==> s.eTrickle == On
    ensures act == ICandidateIn ==> s.iTrickle == On
  {
  }

  const LATE_ACTS := [
    EGather, ERegister, ESendOffer, IRead, IRecvOffer, IGather, IRegister, IGathered, ISendAnswer, ECandidateOut, IRead,
    ERead, ERecvAnswer]

  function LateState(k: nat): State
    requires k <= 13
  {
    State(
      if k < 1 then EBegin else if k < 3 then EGathering else if k < 13 then EAwaiting else EAnswered,
      if k == 12 then Holding(Answer) else Reading,
      if k < 1 then Off else if k < 2 then Spawned else On,
      Wire(if k < 9 then [] else [Answer], if k < 12 then 0 else 1),
      if k < 5 then IAwaiting else if k < 6 then IOffered else if k < 9 then IGathering else IAnswering,
      if k == 4 then Holding(Offer) else if k < 11 then Reading else Holding(Candidate),
      if k < 6 then Off else if k < 7 then Spawned else if k < 8 then On else Over,
      Wire(if k < 3 then [] else if k < 10 then [Offer] else [Offer, Candidate],
           if k < 4 then 0 else if k < 11 then 1 else 2),
      false, false)
  }

  lemma LateSteps(k: nat)
    requires k < 13
    ensures Follows(LateState(k), LATE_ACTS[k], LateState(k + 1))
  {
  }

  /** A run in which offer and answer are both received and a candidate of the egress is lost that way. */
  lemma LateCandidateLost()
    ensures var states := seq(14, k requires 0 <= k < 14 => LateState(k));
            IsRun(states, LATE_ACTS) && states[13].e == EAnswered && IngressHolds(states[13])
  {
    var states := seq(14, k requires 0 <= k < 14 => LateState(k));
    forall k | 0 <= k < 13 ensures Follows(states[k], LATE_ACTS[k], states[k + 1]) {
      LateSteps(k);
    }
  }
}
