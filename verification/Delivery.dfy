/**
 The whole stack after a handshake: cipher states with counters, over length-prefixed frames, over
 a transport that cuts each frame into read segments as it likes.
 */
module Delivery {
  import opened Bytes
  import opened Framing
  import opened Segmented
  import opened ChunkedReader
  import Noise

  const TAG: nat := 16

  // Nonce 2^64 - 1 is reserved; Encrypt and Decrypt refuse to go past the one before it.
  const MAX_NONCE: nat := 0xFFFF_FFFF_FFFF_FFFE

  type Bytestring = seq<byte>

  // The cipher of the handshake's suite, with what is assumed of it.
  datatype Aead = Aead(
    seal: (Noise.Key, nat, Bytestring) -> Bytestring,
    open: (Noise.Key, nat, Bytestring) -> Option<Bytestring>)

  ghost predicate Lawful(a: Aead) {
    forall k, n: nat, p :: |a.seal(k, n, p)| == |p| + TAG && a.open(k, n, a.seal(k, n, p)) == Some(p)
  }

  datatype CipherState = CipherState(key: Noise.Key, n: nat)

  function Encrypt(a: Aead, c: CipherState, plain: Bytestring): (Option<Bytestring>, CipherState) {
    if c.n > MAX_NONCE then (None, c) else (Some(a.seal(c.key, c.n, plain)), c.(n := c.n + 1))
  }

  function Decrypt(a: Aead, c: CipherState, sealed: Bytestring): (Option<Bytestring>, CipherState) {
    if c.n > MAX_NONCE then (None, c)
    else
      var plain := a.open(c.key, c.n, sealed);
      (plain, if plain.Some? then c.(n := c.n + 1) else c)
  }

  // One direction: the sender's and the receiver's cipher states, the bytes in flight, and what
  // was written and read so far. `errors` counts failed reads.
  datatype Link = Link(
    enc: CipherState, dec: CipherState, segs: Segments,
    sent: seq<Bytestring>, rcvd: seq<Bytestring>, errors: nat)

  // `NoisedMessenger.Write`: a refused encryption leaves everything as it was.
  function Send(a: Aead, l: Link, plain: Bytestring, cut: Segments): Link {
    var (sealed, enc) := Encrypt(a, l.enc, plain);
    if sealed.None? then l
    else l.(enc := enc, segs := l.segs + cut, sent := l.sent + [plain])
  }

  // Bytes are missing, of the 8 that a read peeks or of the frame that they announce.
  predicate Blocks(segs: Segments)
    requires NonEmpty(segs)
  {
    |Flatten(segs)| < 8 || ReadCall(segs).outcome == Failed
  }

  // `NoisedMessenger.Read`. A read that blocks is the same read once more bytes have arrived.
  function Receive(a: Aead, l: Link): Link
    requires NonEmpty(l.segs)
  {
    var c := ReadCall(l.segs);
    if Blocks(l.segs) then l
    else if c.outcome.Crashed? then l.(segs := c.segs, errors := l.errors + 1)
    else
      var (plain, dec) := Decrypt(a, l.dec, c.outcome.payload);
      if plain.None? then l.(segs := c.segs, dec := dec, errors := l.errors + 1)
      else l.(segs := c.segs, dec := dec, rcvd := l.rcvd + [plain.value])
  }

  // The ciphertexts written but not yet read.
  function InFlight(a: Aead, l: Link): seq<Bytestring>
    requires |l.rcvd| <= |l.sent|
  {
    seq(|l.sent| - |l.rcvd|, i requires 0 <= i < |l.sent| - |l.rcvd| =>
      a.seal(l.enc.key, |l.rcvd| + i, l.sent[|l.rcvd| + i]))
  }

  // What every step keeps: reads are a prefix of the writes, the counters count them, so that
  // encrypt counter = decrypt counter + messages in flight and no nonce is used twice, and the
  // transport holds a cutting of exactly the frames in flight.
  ghost predicate InOrder(a: Aead, l: Link) {
    && l.enc.key == l.dec.key
    && l.enc.n == |l.sent| && l.dec.n == |l.rcvd|
    && l.errors == 0
    && l.rcvd <= l.sent
    && NonEmpty(l.segs)
    && Carried(InFlight(a, l))
    && CutOf(l.segs, InFlight(a, l))
    && |l.sent| <= MAX_NONCE + 1
  }

  // A plaintext whose frame fits a slice.
  predicate Fits(plain: Bytestring) {
    |plain| + TAG + 8 < INT_LIMIT
  }

  // One whose ciphertext length, besides, has no newline byte above its lowest byte.
  predicate Deliverable(plain: Bytestring) {
    Fits(plain) && Good(|plain| + TAG)
  }

  lemma SendAddsToFlight(a: Aead, l: Link, plain: Bytestring, cut: Segments)
    requires |l.rcvd| <= |l.sent| == l.enc.n <= MAX_NONCE
    ensures InFlight(a, Send(a, l, plain, cut)) == InFlight(a, l) + [a.seal(l.enc.key, l.enc.n, plain)]
  {
  }

  lemma SendKeepsOrder(a: Aead, l: Link, plain: Bytestring, cut: Segments)
    requires Lawful(a) && InOrder(a, l) && Deliverable(plain) && NonEmpty(cut)
    requires Flatten(cut) == Frame(a.seal(l.enc.key, l.enc.n, plain))
    ensures InOrder(a, Send(a, l, plain, cut))
  {
    if l.enc.n <= MAX_NONCE {
      SendAddsToFlight(a, l, plain, cut);
      CutSnoc(l.segs, InFlight(a, l), cut, a.seal(l.enc.key, l.enc.n, plain));
    }
  }

  lemma IdleIffDelivered(a: Aead, l: Link)
    requires InOrder(a, l)
    ensures l.segs == [] <==> l.rcvd == l.sent
  {
    if l.rcvd != l.sent {
      assert |l.rcvd| < |l.sent|;
      FrameNotEmpty(l.segs, InFlight(a, l));
    } else {
      assert InFlight(a, l) == [];
    }
  }

  function OneRead(l: Link, segs: Segments): Link
    requires |l.rcvd| < |l.sent|
  {
    l.(segs := segs, dec := l.dec.(n := l.dec.n + 1), rcvd := l.rcvd + [l.sent[|l.rcvd|]])
  }

  lemma ReceiveTakesFirst(a: Aead, l: Link)
    requires Lawful(a) && InOrder(a, l) && |l.rcvd| < |l.sent|
    ensures Receive(a, l) == OneRead(l, Receive(a, l).segs)
    ensures NonEmpty(Receive(a, l).segs) && CutOf(Receive(a, l).segs, InFlight(a, l)[1..])
  {
    ReadsFirstFrame(l.segs, InFlight(a, l));
    FrameNotEmpty(l.segs, InFlight(a, l));
  }

  lemma OneReadKeepsOrder(a: Aead, l: Link, segs: Segments)
    requires InOrder(a, l) && |l.rcvd| < |l.sent|
    requires NonEmpty(segs) && CutOf(segs, InFlight(a, l)[1..])
    ensures InOrder(a, OneRead(l, segs))
  {
    assert InFlight(a, OneRead(l, segs)) == InFlight(a, l)[1..];
  }

  lemma ReceiveKeepsOrder(a: Aead, l: Link)
    requires Lawful(a) && InOrder(a, l)
    ensures InOrder(a, Receive(a, l))
    ensures if l.rcvd == l.sent then Receive(a, l) == l
            else |l.rcvd| < |l.sent| && Receive(a, l) == OneRead(l, Receive(a, l).segs)
  {
    IdleIffDelivered(a, l);
    if l.rcvd != l.sent {
      ReceiveTakesFirst(a, l);
      OneReadKeepsOrder(a, l, Receive(a, l).segs);
    }
  }

  lemma FrameNotEmpty(segs: Segments, payloads: seq<Bytestring>)
    requires payloads != [] && CutOf(segs, payloads)
    ensures segs != [] && |Flatten(segs)| > |payloads[0]|
  {
    var k: nat :| CutAt(segs, payloads, k);
    FlattenConcat(segs[..k], segs[k..]);
    assert segs[..k] + segs[k..] == segs;
  }

  // Only what was sealed opens.
  ghost predicate Authentic(a: Aead) {
    forall k, n: nat, c :: a.open(k, n, c).Some? ==> c == a.seal(k, n, a.open(k, n, c).value)
  }

  lemma BadLengthIsLost(a: Aead, k: Noise.Key, n: nat, plain: Bytestring, cut: Segments)
    requires Lawful(a) && Authentic(a) && |plain| + TAG + 8 < INT_LIMIT
    requires NonEmpty(cut) && Flatten(cut) == Frame(a.seal(k, n, plain)) && !Good(|plain| + TAG)
    ensures var c := ReadCall(cut);
            c.outcome.Ok? && a.open(k, n, c.outcome.payload) != Some(plain)
  {
    var sealed := a.seal(k, n, plain);
    FrameRoundTrip(sealed, []);
    assert Frame(sealed) + [] == Flatten(cut);
    ReadCallMeaning(cut);
    assert |ReadCall(cut).outcome.payload| < |sealed|;
  }

  /** The domain is exact: a message written on an idle link is what the next read returns if and
      only if its ciphertext length is good, however the transport cuts the frame. */
  lemma DeliveredIffGood(a: Aead, l: Link, plain: Bytestring, cut: Segments)
    requires Lawful(a) && Authentic(a) && InOrder(a, l) && l.segs == []
    requires l.enc.n <= MAX_NONCE && |plain| + TAG + 8 < INT_LIMIT
    requires NonEmpty(cut) && Flatten(cut) == Frame(a.seal(l.enc.key, l.enc.n, plain))
    ensures NonEmpty(Send(a, l, plain, cut).segs)
    ensures Receive(a, Send(a, l, plain, cut)).rcvd == l.sent + [plain] <==> Good(|plain| + TAG)
  {
    IdleIffDelivered(a, l);
    assert Send(a, l, plain, cut).segs == cut;
    if Good(|plain| + TAG) {
      SendKeepsOrder(a, l, plain, cut);
      ReceiveKeepsOrder(a, Send(a, l, plain, cut));
    } else {
      BadLengthIsLost(a, l.enc.key, l.enc.n, plain, cut);
      assert l.dec == l.enc;
      LastDiffers(l.sent, plain, Receive(a, Send(a, l, plain, cut)).rcvd);
    }
  }

  lemma LastDiffers(sent: seq<Bytestring>, plain: Bytestring, r: seq<Bytestring>)
    requires r == sent || exists p :: p != plain && r == sent + [p]
    ensures r != sent + [plain]
  {
    if p :| p != plain && r == sent + [p] {
      assert (sent + [p])[|sent|] != (sent + [plain])[|sent|];
    }
  }

  // ------------------------------------------------------------------ both directions, whole runs

  datatype Session = Session(toResponder: Link, toInitiator: Link)

  datatype Act =
    | Write(byInitiator: bool, plain: Bytestring, cut: Segments)
    | Read(byInitiator: bool)

  // The transport may cut the frame of a write anywhere.
  ghost predicate Allowed(a: Aead, s: Session, act: Act) {
    match act
    case Write(byI, plain, cut) =>
      var l := if byI then s.toResponder else s.toInitiator;
      Fits(plain) && NonEmpty(cut) && Flatten(cut) == Frame(a.seal(l.enc.key, l.enc.n, plain))
    case Read(_) => true
  }

  ghost predicate BothInOrder(a: Aead, s: Session) {
    InOrder(a, s.toResponder) && InOrder(a, s.toInitiator)
  }

  function Do(a: Aead, s: Session, act: Act): Session
    requires NonEmpty(s.toResponder.segs) && NonEmpty(s.toInitiator.segs)
  {
    match act
    case Write(true, plain, cut) => s.(toResponder := Send(a, s.toResponder, plain, cut))
    case Write(false, plain, cut) => s.(toInitiator := Send(a, s.toInitiator, plain, cut))
    case Read(true) => s.(toInitiator := Receive(a, s.toInitiator))
    case Read(false) => s.(toResponder := Receive(a, s.toResponder))
  }

  // A run is a start, the acts in order, and the states they lead through.
  ghost predicate IsRun(a: Aead, states: seq<Session>, acts: seq<Act>) {
    && |states| == |acts| + 1
    && forall i :: 0 <= i < |acts| ==> Follows(a, states[i], acts[i], states[i + 1])
  }

  ghost predicate Follows(a: Aead, s: Session, act: Act, s': Session) {
    && NonEmpty(s.toResponder.segs) && NonEmpty(s.toInitiator.segs)
    && Allowed(a, s, act) && s' == Do(a, s, act)
  }

  // The writes stay in the delivery domain.
  predicate AllDeliverable(acts: seq<Act>) {
    forall i :: 0 <= i < |acts| && acts[i].Write? ==> Deliverable(acts[i].plain)
  }

  function FreshLink(enc: Noise.Key, dec: Noise.Key): Link {
    Link(CipherState(enc, 0), CipherState(dec, 0), [], [], [], 0)
  }

  // The session two finished messengers start with.
  function Connect(mi: Noise.Messenger, mr: Noise.Messenger): Session {
    Session(FreshLink(mi.enc, mr.dec), FreshLink(mr.enc, mi.dec))
  }

  // The counters count what was sealed and what was opened.
  predicate Counting(l: Link) {
    l.enc.n == |l.sent| && l.dec.n == |l.rcvd|
  }

  lemma StepCounts(a: Aead, s: Session, act: Act)
    requires NonEmpty(s.toResponder.segs) && NonEmpty(s.toInitiator.segs)
    requires Counting(s.toResponder) && Counting(s.toInitiator)
    ensures var s' := Do(a, s, act);
            && Counting(s'.toResponder) && Counting(s'.toInitiator)
            && SameKeys(s.toResponder, s'.toResponder) && SameKeys(s.toInitiator, s'.toInitiator)
  {
  }

  predicate SameKeys(l: Link, l': Link) {
    l'.enc.key == l.enc.key && l'.dec.key == l.dec.key
  }

  /** Counters, in every state of every run, with messages of any length, failed reads and any
      cipher: the encrypt counter counts the messages written and the decrypt counter exactly those
      that were read, so a failed decryption leaves it where it was; the keys never change. */
  lemma CountersCount(a: Aead, states: seq<Session>, acts: seq<Act>)
    requires IsRun(a, states, acts) && Counting(states[0].toResponder) && Counting(states[0].toInitiator)
    ensures forall k :: 0 <= k < |states| ==>
              && Counting(states[k].toResponder) && SameKeys(states[0].toResponder, states[k].toResponder)
              && Counting(states[k].toInitiator) && SameKeys(states[0].toInitiator, states[k].toInitiator)
  {
    for k := 0 to |acts|
      invariant forall j :: 0 <= j <= k ==>
                  && Counting(states[j].toResponder) && SameKeys(states[0].toResponder, states[j].toResponder)
                  && Counting(states[j].toInitiator) && SameKeys(states[0].toInitiator, states[j].toInitiator)
    {
      assert Follows(a, states[k], acts[k], states[k + 1]);
      StepCounts(a, states[k], acts[k]);
    }
  }

  lemma StepKeepsOrder(a: Aead, s: Session, act: Act)
    requires Lawful(a) && BothInOrder(a, s) && Allowed(a, s, act) && (act.Write? ==> Deliverable(act.plain))
    ensures BothInOrder(a, Do(a, s, act))
  {
    match act {
      case Write(byI, plain, cut) =>
        SendKeepsOrder(a, if byI then s.toResponder else s.toInitiator, plain, cut);
      case Read(byI) =>
        ReceiveKeepsOrder(a, if byI then s.toInitiator else s.toResponder);
    }
  }

  lemma RunKeepsOrder(a: Aead, states: seq<Session>, acts: seq<Act>)
    requires Lawful(a) && IsRun(a, states, acts) && AllDeliverable(acts) && BothInOrder(a, states[0])
    ensures forall i :: 0 <= i < |states| ==> BothInOrder(a, states[i])
  {
    for k := 0 to |acts|
      invariant forall i :: 0 <= i <= k ==> BothInOrder(a, states[i])
    {
      assert Follows(a, states[k], acts[k], states[k + 1]);
      StepKeepsOrder(a, states[k], acts[k]);
    }
  }

  /** End-to-end delivery: after a completed handshake, in every state of every interleaving of
      deliverable writes and reads of both sides, each side has read exactly a prefix of what the
      other wrote, no read has failed, and each encrypt counter exceeds its decrypt counter by the
      number of messages in flight. */
  lemma EndToEndDelivery(
    a: Aead, i: Noise.Identity, ei: Noise.Secret, vi: Bytestring -> bool,
    r: Noise.Identity, er: Noise.Secret, vr: Bytestring -> bool,
    states: seq<Session>, acts: seq<Act>)
    requires Lawful(a) && !vr([])
    requires Noise.Offer(i, ei).Some?
    requires Noise.Respond(r, er, Noise.Offer(i, ei).value.msg, vr).Some?
    requires var hello, acc := Noise.Offer(i, ei).value, Noise.Respond(r, er, Noise.Offer(i, ei).value.msg, vr).value;
             Noise.Conclude(i, hello, acc.reply, vi).Some?
    requires IsRun(a, states, acts) && AllDeliverable(acts)
    requires var hello, acc := Noise.Offer(i, ei).value, Noise.Respond(r, er, Noise.Offer(i, ei).value.msg, vr).value;
             states[0] == Connect(Noise.Conclude(i, hello, acc.reply, vi).value, acc.m)
    ensures forall k :: 0 <= k < |states| ==> Delivered(states[k].toResponder) && Delivered(states[k].toInitiator)
  {
    Noise.HandshakePairing(i, ei, vi, r, er, vr);
    FreshIsInOrder(a, states[0].toResponder);
    FreshIsInOrder(a, states[0].toInitiator);
    RunKeepsOrder(a, states, acts);
    forall k | 0 <= k < |states| ensures Delivered(states[k].toResponder) && Delivered(states[k].toInitiator) {
      assert BothInOrder(a, states[k]);
      CountsFrames(a, states[k].toResponder);
      CountsFrames(a, states[k].toInitiator);
    }
  }

  ghost predicate Delivered(l: Link) {
    && l.rcvd <= l.sent && l.errors == 0
    && l.enc.key == l.dec.key
    && l.enc.n == |l.sent| && l.dec.n == |l.rcvd|
    && l.enc.n == l.dec.n + (|l.sent| - |l.rcvd|)
    && (l.segs == [] <==> l.rcvd == l.sent)
  }

  lemma CountsFrames(a: Aead, l: Link)
    requires InOrder(a, l)
    ensures Delivered(l)
  {
    IdleIffDelivered(a, l);
  }

  lemma FreshIsInOrder(a: Aead, l: Link)
    requires l == FreshLink(l.enc.key, l.enc.key)
    ensures InOrder(a, l)
  {
    assert InFlight(a, l) == [];
  }

  /** Reading until the link is idle returns everything that was written, in order. */
  lemma {:induction false} Drain(a: Aead, l: Link)
    requires Lawful(a) && InOrder(a, l)
    ensures Drained(a, l, |l.sent| - |l.rcvd|).rcvd == l.sent
    ensures Drained(a, l, |l.sent| - |l.rcvd|).segs == []
    decreases |l.sent| - |l.rcvd|
  {
    IdleIffDelivered(a, l);
    if l.rcvd != l.sent {
      ReceiveKeepsOrder(a, l);
      var l' := Receive(a, l);
      assert l'.sent == l.sent && |l'.rcvd| == |l.rcvd| + 1;
      Drain(a, l');
    }
  }

  function Drained(a: Aead, l: Link, calls: nat): Link
    decreases calls
  {
    if calls == 0 || !NonEmpty(l.segs) then l else Drained(a, Receive(a, l), calls - 1)
  }

  function Zeros(): (tag: Bytestring)
    ensures |tag| == TAG
  {
    seq(TAG, _ => 0)
  }

  // A cipher with both assumed laws exists, so the theorems are not about nothing.
  lemma LawfulCipherExists()
    ensures exists a: Aead :: Lawful(a) && Authentic(a)
  {
    var a := Aead(
      (k, n, p) => p + Zeros(),
      (k, n, c: Bytestring) =>
        if |c| < TAG || c[|c| - TAG..] != Zeros() then None else Some(c[..|c| - TAG]));
    forall k, n: nat, p
      ensures |a.seal(k, n, p)| == |p| + TAG && a.open(k, n, a.seal(k, n, p)) == Some(p)
    {
      var c := p + Zeros();
      assert c[..|p|] == p && c[|p|..] == Zeros();
    }
    assert Lawful(a);
    forall k, n: nat, c | a.open(k, n, c).Some? ensures c == a.seal(k, n, a.open(k, n, c).value) {
      assert c == c[..|c| - TAG] + c[|c| - TAG..];
    }
    assert Authentic(a);
  }

  // ------------------------------------------------------------------ the messenger object

  // What `Write` did is the step of a link.
  predicate IsSend(
    a: Aead, l: Link, plain: Bytestring, cut: Segments, ok: bool, enc: CipherState, segs: Segments)
  {
    var l' := Send(a, l, plain, cut);
    l'.enc == enc && l'.segs == segs && l'.sent == if ok then l.sent + [plain] else l.sent
  }

  // What `Read` did is the step of a link.
  predicate IsReceive(a: Aead, l: Link, plain: Option<Bytestring>, dec: CipherState, segs: Segments) {
    NonEmpty(l.segs) &&
    var l' := Receive(a, l);
    && l'.dec == dec && l'.segs == segs
    && (if plain.Some? then l'.rcvd == l.rcvd + [plain.value] && l'.errors == l.errors
        else l'.rcvd == l.rcvd && l'.errors == l.errors + 1)
  }

  /** A finished messenger, holding its cipher states and both ends of its connection. */
  class NoisedMessenger {
    const aead: Aead
    var enc: CipherState
    var dec: CipherState
    const inbound: Transport
    const outbound: Transport

    constructor (aead: Aead, keys: Noise.Messenger, inbound: Transport, outbound: Transport)
      ensures this.aead == aead && this.inbound == inbound && this.outbound == outbound
      ensures enc == CipherState(keys.enc, 0) && dec == CipherState(keys.dec, 0)
    {
      this.aead, this.inbound, this.outbound := aead, inbound, outbound;
      enc, dec := CipherState(keys.enc, 0), CipherState(keys.dec, 0);
    }

    ghost predicate Valid() reads this, inbound, outbound {
      inbound != outbound && inbound.Valid() && outbound.Valid()
    }

    /** Encrypt, frame and send. The tag makes every ciphertext at least 16 bytes long, so the
        framing layer cannot run out of capacity. `split` is how the transport will cut the frame. */
    method Write(plain: Bytestring, split: Bytestring -> Segments) returns (ok: bool)
      requires Valid() && Lawful(aead) && |plain| + TAG < INT_LIMIT
      requires forall b :: NonEmpty(split(b)) && Flatten(split(b)) == b
      modifies this`enc, outbound
      ensures Valid()
      ensures ok <==> old(enc).n <= MAX_NONCE
      ensures enc == Encrypt(aead, old(enc), plain).1
      ensures outbound.segs == if !ok then old(outbound.segs)
                               else old(outbound.segs) + split(Frame(Encrypt(aead, old(enc), plain).0.value))
      ensures forall l: Link :: l.enc == old(enc) && l.segs == old(outbound.segs) ==>
                var cut := if ok then split(Frame(Encrypt(aead, old(enc), plain).0.value)) else [];
                IsSend(aead, l, plain, cut, ok, enc, outbound.segs)
    {
      var (sealed, next) := Encrypt(aead, enc, plain);
      if sealed.None? {
        return false;
      }
      enc := next;
      var b := new byte[|sealed.value|];
      forall i | 0 <= i < b.Length { b[i] := sealed.value[i]; }
      assert b[..b.Length] == sealed.value;
      var r := Framing.Write(b, b.Length);
      outbound.segs := outbound.segs + split(r.wire);
      ok := true;
    }

    /** Read one frame and decrypt it; the counter moves only on success. */
    method Read() returns (plain: Option<Bytestring>)
      requires Valid()
      modifies this`dec, inbound
      ensures Valid() && outbound.segs == old(outbound.segs)
      ensures !Blocks(old(inbound.segs)) ==>
                forall l: Link :: l.dec == old(dec) && l.segs == old(inbound.segs) ==>
                  IsReceive(aead, l, plain, dec, inbound.segs)
      ensures var c := ReadCall(old(inbound.segs));
              && inbound.segs == c.segs
              && (plain, dec) == if c.outcome.Ok? then Decrypt(aead, old(dec), c.outcome.payload)
                                 else (None, old(dec))
    {
      var r, _ := inbound.Read();
      if !r.Ok? {
        return None;
      }
      plain, dec := Decrypt(aead, dec, r.payload).0, Decrypt(aead, dec, r.payload).1;
    }
  }
}
