/**
 The Noise IX handshake with an optional psk0 modifier, as messenger-noised.go drives it.

 Sections 5.1 to 5.3, 7.5 and 9 of The Noise Protocol Framework, revision 34, over ideal
 primitives: hashes, derived keys and ciphertexts are the terms that produced them, so that equal
 results come from equal inputs, and a ciphertext opens only under its own key, nonce and
 transcript.
 */
module Noise {
  import opened Bytes

  type Secret = nat

  datatype Public = Public(of: Secret)

  datatype Shared = Shared(lo: Secret, hi: Secret)

  function Dh(s: Secret, p: Public): Shared {
    if s <= p.of then Shared(s, p.of) else Shared(p.of, s)
  }

  datatype Input = FromDh(shared: Shared) | FromPublic(p: Public) | FromPsk(psk: seq<byte>)

  // The chaining key, and the cipher key derived next to it at each MixKey.
  datatype Chain = Start(psked: bool) | Mixed(prev: Chain, input: Input)

  datatype Key = Handshaking(chain: Chain) | Session(chain: Chain, toResponder: bool)

  datatype Text = Static(p: Public) | Payload(bytes: seq<byte>)

  datatype Sealed = Clear(text: Text) | Cipher(key: Key, nonce: nat, ad: Transcript, text: Text)

  // The handshake hash, as the list of what was hashed.
  datatype Transcript =
    | Name(psked: bool)
    | AddPsk(prev: Transcript, chain: Chain)
    | AddKey(prev: Transcript, p: Public)
    | AddSealed(prev: Transcript, c: Sealed)

  datatype Sym = Sym(chain: Chain, h: Transcript, key: Option<Key>, n: nat)

  function MixKey(s: Sym, input: Input): Sym {
    var chain := Mixed(s.chain, input);
    s.(chain := chain, key := Some(Handshaking(chain)), n := 0)
  }

  function Seal(s: Sym, text: Text): (Sealed, Sym) {
    var c := if s.key.None? then Clear(text) else Cipher(s.key.value, s.n, s.h, text);
    (c, s.(h := AddSealed(s.h, c), n := if s.key.None? then s.n else s.n + 1))
  }

  function Open(s: Sym, c: Sealed): Option<(Text, Sym)> {
    if c == Seal(s, c.text).0 then Some((c.text, Seal(s, c.text).1)) else None
  }

  // A key of 32 bytes switches to IXpsk0, an empty one to plain IX; other lengths are refused.
  predicate PskAccepted(psk: seq<byte>) {
    |psk| == 0 || |psk| == 32
  }

  // New handshake state up to and including the psk token.
  function Begin(psk: seq<byte>): Sym {
    if psk == [] then Sym(Start(false), Name(false), None, 0)
    else
      var s := MixKey(Sym(Start(true), Name(true), None, 0), FromPsk(psk));
      s.(h := AddPsk(s.h, s.chain))
  }

  // The e token; with a psk the key is mixed into the chain as well (section 9.2).
  function MixEphemeral(s: Sym, psked: bool, e: Public): Sym {
    var t := s.(h := AddKey(s.h, e));
    if psked then MixKey(t, FromPublic(e)) else t
  }

  datatype Message = Message(e: Public, s: Sealed, payload: Sealed)

  datatype Identity = Identity(key: Secret, psks: seq<seq<byte>>, payload: seq<byte>)

  // ------------------------------------------------------------------ the initiator

  datatype Hello = Hello(sym: Sym, psked: bool, e: Secret, msg: Message)

  function PskOf(id: Identity): seq<byte> {
    if id.psks == [] then [] else id.psks[0]
  }

  // First message: -> (psk,) e, s
  function Offer(id: Identity, e: Secret): Option<Hello> {
    var psk := PskOf(id);
    if !PskAccepted(psk) then None
    else
      var s1 := MixEphemeral(Begin(psk), psk != [], Public(e));
      var (c, s2) := Seal(s1, Static(Public(id.key)));
      var (d, s3) := Seal(s2, Payload(id.payload));
      Some(Hello(s3, psk != [], e, Message(Public(e), c, d)))
  }

  // Keys and the validated peer payload held by a finished messenger.
  datatype Messenger = Messenger(enc: Key, dec: Key, peer: seq<byte>)

  // Reading the second message, <- e, ee, se, s, es, and splitting.
  function Conclude(id: Identity, hello: Hello, reply: Message, valid: seq<byte> -> bool): Option<Messenger> {
    var s1 := MixEphemeral(hello.sym, hello.psked, reply.e);
    var s2 := MixKey(s1, FromDh(Dh(hello.e, reply.e)));
    var s3 := MixKey(s2, FromDh(Dh(id.key, reply.e)));
    match Open(s3, reply.s)
    case Some((Static(rs), s4)) =>
      (var s5 := MixKey(s4, FromDh(Dh(hello.e, rs)));
       match Open(s5, reply.payload)
       case Some((Payload(p), s6)) =>
         if valid(p) then Some(Messenger(Session(s6.chain, true), Session(s6.chain, false), p)) else None
       case _ => None)
    case _ => None
  }

  /** The constructor on the initiator's side. `link` carries the first message to the peer and brings
      back its reply, or nothing when the peer gives up. */
  method NewNoisedMessengerI(id: Identity, e: Secret, link: Message -> Option<Message>, valid: seq<byte> -> bool)
    returns (r: Option<Messenger>)
    ensures r == var hello := Offer(id, e);
                 if hello.None? || link(hello.value.msg).None? then None
                 else Conclude(id, hello.value, link(hello.value.msg).value, valid)
  {
    var psk := [];
    if |id.psks| > 0 {
      psk := id.psks[0];
    }
    if !PskAccepted(psk) {
      return None;
    }
    // write
    var nhsk := MixEphemeral(Begin(psk), psk != [], Public(e));
    var c, d;
    c, nhsk := Seal(nhsk, Static(Public(id.key))).0, Seal(nhsk, Static(Public(id.key))).1;
    d, nhsk := Seal(nhsk, Payload(id.payload)).0, Seal(nhsk, Payload(id.payload)).1;
    var msg := link(Message(Public(e), c, d));
    if msg.None? {
      return None;
    }
    // read
    var reply := msg.value;
    nhsk := MixEphemeral(nhsk, psk != [], reply.e);
    nhsk := MixKey(nhsk, FromDh(Dh(e, reply.e)));
    nhsk := MixKey(nhsk, FromDh(Dh(id.key, reply.e)));
    var s := Open(nhsk, reply.s);
    if s.None? || !s.value.0.Static? {
      return None;
    }
    nhsk := MixKey(s.value.1, FromDh(Dh(e, s.value.0.p)));
    var p := Open(nhsk, reply.payload);
    if p.None? || !p.value.0.Payload? {
      return None;
    }
    nhsk := p.value.1;
    if !valid(p.value.0.bytes) {
      return None;
    }
    r := Some(Messenger(Session(nhsk.chain, true), Session(nhsk.chain, false), p.value.0.bytes));
  }

  // ------------------------------------------------------------------ the responder

  // A responder that has read the first message: the initiator's keys and what it sent.
  datatype Heard = Heard(sym: Sym, psked: bool, e: Public, s: Public, payload: seq<byte>)

  function Hear(psk: seq<byte>, msg: Message): Option<Heard> {
    var s1 := MixEphemeral(Begin(psk), psk != [], msg.e);
    match Open(s1, msg.s)
    case Some((Static(rs), s2)) =>
      (match Open(s2, msg.payload)
       case Some((Payload(p), s3)) => Some(Heard(s3, psk != [], msg.e, rs, p))
       case _ => None)
    case _ => None
  }

  // What the trial loop leaves behind: the last handshake state that read the message, and the
  // payload variable, which the last trial overwrites whether or not it succeeded.
  datatype Trials = Refused | Tried(kept: Option<Heard>, payload: seq<byte>)

  function Try(t: Trials, psk: seq<byte>, msg: Message): Trials {
    if t.Refused? || !PskAccepted(psk) then Refused
    else
      var heard := Hear(psk, msg);
      if heard.None? then t.(payload := []) else Tried(heard, heard.value.payload)
  }

  function TryAll(psks: seq<seq<byte>>, msg: Message): Trials {
    if psks == [] then Tried(None, []) else Try(TryAll(psks[..|psks| - 1], msg), psks[|psks| - 1], msg)
  }

  // Second message and split: e, ee, se, s, es as the responder computes them.
  function Answer(id: Identity, e: Secret, heard: Heard): (Message, Chain) {
    var s1 := MixEphemeral(heard.sym, heard.psked, Public(e));
    var s2 := MixKey(s1, FromDh(Dh(e, heard.e)));
    var s3 := MixKey(s2, FromDh(Dh(e, heard.s)));
    var (c, s4) := Seal(s3, Static(Public(id.key)));
    var s5 := MixKey(s4, FromDh(Dh(id.key, heard.e)));
    var (d, s6) := Seal(s5, Payload(id.payload));
    (Message(Public(e), c, d), s6.chain)
  }

  datatype Accepted = Accepted(m: Messenger, reply: Message)

  // What the constructor makes of the trials.
  function Accept(id: Identity, e: Secret, trials: Trials, valid: seq<byte> -> bool): Option<Accepted> {
    if trials.Refused? || trials.kept.None? || !valid(trials.payload) then None
    else
      var (reply, chain) := Answer(id, e, trials.kept.value);
      Some(Accepted(Messenger(Session(chain, false), Session(chain, true), trials.payload), reply))
  }

  function Respond(id: Identity, e: Secret, msg: Message, valid: seq<byte> -> bool): Option<Accepted> {
    Accept(id, e, TryAll(id.psks, msg), valid)
  }

  lemma TryOneMore(psks: seq<seq<byte>>, i: nat, msg: Message)
    requires i < |psks|
    ensures TryAll(psks[..i + 1], msg) == Try(TryAll(psks[..i], msg), psks[i], msg)
  {
    assert psks[..i + 1][..i] == psks[..i];
  }

  /** The constructor on the responder's side, with its trial loop: no break on success, and the
      payload variable is overwritten by failed trials too. */
  method NewNoisedMessengerR(id: Identity, e: Secret, msg: Message, valid: seq<byte> -> bool)
    returns (r: Option<Accepted>)
    ensures r == Respond(id, e, msg, valid)
  {
    var nhsk: Option<Heard> := None;
    var payload := [];
    for i := 0 to |id.psks|
      invariant TryAll(id.psks[..i], msg) == Tried(nhsk, payload)
    {
      TryOneMore(id.psks, i, msg);
      if !PskAccepted(id.psks[i]) {
        RefusalStays(id.psks, i + 1, msg);
        return None;
      }
      var hsk := Hear(id.psks[i], msg);
      if hsk.None? {
        payload := [];
        continue;
      }
      payload := hsk.value.payload;
      nhsk := hsk;
    }
    assert id.psks[..|id.psks|] == id.psks;
    r := Accept(id, e, Tried(nhsk, payload), valid);
  }

  lemma {:induction false} RefusalStays(psks: seq<seq<byte>>, i: nat, msg: Message)
    requires i <= |psks| && TryAll(psks[..i], msg).Refused?
    ensures TryAll(psks, msg).Refused?
  {
    if i < |psks| {
      RefusalStays(psks[..|psks| - 1], i, msg) by { assert psks[..|psks| - 1][..i] == psks[..i]; }
    } else {
      assert psks[..i] == psks;
    }
  }

  // ------------------------------------------------------------------ properties

  lemma DhCommutes(a: Secret, b: Secret)
    ensures Dh(a, Public(b)) == Dh(b, Public(a))
  {
  }

  /** A trial on an initiator's message succeeds exactly for the initiator's key, and then leaves
      the initiator's symmetric state, keys and payload. */
  lemma TrialMatches(id: Identity, e: Secret, psk: seq<byte>)
    requires Offer(id, e).Some?
    ensures var hello := Offer(id, e).value;
            Hear(psk, hello.msg) ==
            if psk == PskOf(id)
            then Some(Heard(hello.sym, psk != [], Public(e), Public(id.key), id.payload)) else None
  {
  }

  // An initiator starts exactly with a first key of 32 bytes, or with an empty one or none.
  lemma OffersIff(id: Identity, e: Secret)
    ensures Offer(id, e).Some? <==> id.psks == [] || |id.psks[0]| == 0 || |id.psks[0]| == 32
    ensures Offer(id, e).Some? ==> (Offer(id, e).value.psked <==> id.psks != [] && |id.psks[0]| == 32)
  {
  }

  // The loop's payload always is the kept state's payload or empty.
  lemma {:induction false} PayloadIsKept(psks: seq<seq<byte>>, msg: Message)
    ensures var t := TryAll(psks, msg);
            t.Tried? ==>
              && (t.payload != [] ==> t.kept.Some? && t.payload == t.kept.value.payload)
              && (psks != [] && Hear(psks[|psks| - 1], msg).Some? ==>
                    t == Tried(Hear(psks[|psks| - 1], msg), Hear(psks[|psks| - 1], msg).value.payload))
              && (psks != [] && Hear(psks[|psks| - 1], msg).None? ==> t.payload == [])
  {
    if psks != [] { PayloadIsKept(psks[..|psks| - 1], msg); }
  }

  /** The last trial decides: for any list of keys, and any validator that refuses the empty
      payload, the responder accepts exactly when every key has a legal length, the last one reads
      the message and its payload validates; the payload it validated is then the kept state's. */
  lemma LastTrialDecides(id: Identity, e: Secret, msg: Message, valid: seq<byte> -> bool)
    requires !valid([])
    ensures Respond(id, e, msg, valid).Some? <==>
            && id.psks != []
            && (forall i :: 0 <= i < |id.psks| ==> |id.psks[i]| == 0 || |id.psks[i]| == 32)
            && Hear(id.psks[|id.psks| - 1], msg).Some?
            && valid(Hear(id.psks[|id.psks| - 1], msg).value.payload)
    ensures Respond(id, e, msg, valid).Some? ==>
              var t := TryAll(id.psks, msg); t.payload == t.kept.value.payload
  {
    RefusedIffIllegal(id.psks, msg);
    PayloadIsKept(id.psks, msg);
  }

  lemma {:induction false} RefusedIffIllegal(psks: seq<seq<byte>>, msg: Message)
    ensures TryAll(psks, msg).Refused? <==> exists i :: 0 <= i < |psks| && |psks[i]| != 0 && |psks[i]| != 32
  {
    if psks != [] {
      var init := psks[..|psks| - 1];
      RefusedIffIllegal(init, msg);
      assert forall i :: 0 <= i < |init| ==> psks[i] == init[i];
      if i :| 0 <= i < |psks| && |psks[i]| != 0 && |psks[i]| != 32 {
        if i < |init| { assert |init[i]| != 0 && |init[i]| != 32; }
      }
    }
  }

  /** With a list of equal keys, as an identity builds it, the trials all succeed or all fail, and
      in either case the payload goes with the kept state. */
  lemma {:induction false} UniformTrials(psks: seq<seq<byte>>, psk: seq<byte>, msg: Message)
    requires psks != [] && PskAccepted(psk) && forall i :: 0 <= i < |psks| ==> psks[i] == psk
    ensures TryAll(psks, msg) ==
            if Hear(psk, msg).Some? then Tried(Hear(psk, msg), Hear(psk, msg).value.payload) else Tried(None, [])
  {
    if |psks| > 1 { UniformTrials(psks[..|psks| - 1], psk, msg); }
  }

  /** Handshake pairing: whenever both constructors return over faithful links, each has validated
      the other's payload, and each encrypts with the key the other decrypts with. */
  lemma HandshakePairing(i: Identity, ei: Secret, vi: seq<byte> -> bool, r: Identity, er: Secret, vr: seq<byte> -> bool)
    requires Offer(i, ei).Some? && !vr([])
    requires Respond(r, er, Offer(i, ei).value.msg, vr).Some?
    requires var acc := Respond(r, er, Offer(i, ei).value.msg, vr).value;
             Conclude(i, Offer(i, ei).value, acc.reply, vi).Some?
    ensures var acc := Respond(r, er, Offer(i, ei).value.msg, vr).value;
            var mi := Conclude(i, Offer(i, ei).value, acc.reply, vi).value;
            && mi.enc == acc.m.dec && mi.dec == acc.m.enc && mi.enc != mi.dec
            && mi.peer == r.payload && vi(r.payload)
            && acc.m.peer == i.payload && vr(i.payload)
  {
    var msg := Offer(i, ei).value.msg;
    LastTrialDecides(r, er, msg, vr);
    TrialMatches(i, ei, r.psks[|r.psks| - 1]);
    PayloadIsKept(r.psks, msg);
    RepliesAgree(i, ei, r, er, vi);
  }

  /** Completeness: the constructors do return when the responder's last key is the initiator's
      first and both payloads validate. */
  lemma HandshakeCompletes(
    i: Identity, ei: Secret, vi: seq<byte> -> bool, r: Identity, er: Secret, vr: seq<byte> -> bool)
    requires !vr([]) && vr(i.payload) && vi(r.payload)
    requires r.psks != [] && forall k :: 0 <= k < |r.psks| ==> PskAccepted(r.psks[k])
    requires r.psks[|r.psks| - 1] == PskOf(i)
    ensures Offer(i, ei).Some?
    ensures var hello := Offer(i, ei).value;
            && Respond(r, er, hello.msg, vr).Some?
            && Conclude(i, hello, Respond(r, er, hello.msg, vr).value.reply, vi).Some?
  {
    var msg := Offer(i, ei).value.msg;
    LastTrialDecides(r, er, msg, vr);
    TrialMatches(i, ei, PskOf(i));
    PayloadIsKept(r.psks, msg);
    RepliesAgree(i, ei, r, er, vi);
  }

  // The initiator reads back what the responder wrote, and both reach the same chaining key.
  lemma RepliesAgree(i: Identity, ei: Secret, r: Identity, er: Secret, vi: seq<byte> -> bool)
    requires Offer(i, ei).Some?
    ensures var hello := Offer(i, ei).value;
            var heard := Heard(hello.sym, hello.psked, Public(ei), Public(i.key), i.payload);
            var (reply, chain) := Answer(r, er, heard);
            Conclude(i, hello, reply, vi) ==
            if vi(r.payload) then Some(Messenger(Session(chain, true), Session(chain, false), r.payload)) else None
  {
    DhCommutes(ei, er);
    DhCommutes(i.key, er);
    DhCommutes(ei, r.key);
  }

  // The reply of an honest responder that read this initiator's message.
  predicate Replies(i: Identity, hello: Hello, r: Identity, er: Secret, reply: Message) {
    reply == Answer(r, er, Heard(hello.sym, hello.psked, Public(hello.e), Public(i.key), i.payload)).0
  }

  /** Nothing else is accepted: of all messages there are, the initiator accepts exactly the replies
      that some responder makes to its own message with a payload that validates. */
  lemma AcceptedIffReply(i: Identity, ei: Secret, reply: Message, vi: seq<byte> -> bool)
    requires Offer(i, ei).Some?
    ensures Conclude(i, Offer(i, ei).value, reply, vi).Some? <==>
            exists r, er :: Replies(i, Offer(i, ei).value, r, er, reply) && vi(r.payload)
  {
    var hello := Offer(i, ei).value;
    if Conclude(i, hello, reply, vi).Some? {
      AcceptedIsReply(i, ei, reply, vi);
    }
    if r, er :| Replies(i, hello, r, er, reply) && vi(r.payload) {
      RepliesAgree(i, ei, r, er, vi);
    }
  }

  lemma AcceptedIsReply(i: Identity, ei: Secret, reply: Message, vi: seq<byte> -> bool)
    requires Offer(i, ei).Some? && Conclude(i, Offer(i, ei).value, reply, vi).Some?
    ensures exists r, er :: Replies(i, Offer(i, ei).value, r, er, reply) && vi(r.payload)
  {
    var hello := Offer(i, ei).value;
    var r, er := Identity(reply.s.text.p.of, [], reply.payload.text.bytes), reply.e.of;
    DhCommutes(ei, er);
    DhCommutes(i.key, er);
    DhCommutes(ei, r.key);
    assert Replies(i, hello, r, er, reply);
  }

  // The first message of an honest initiator with this key.
  predicate Offers(i: Identity, ei: Secret, psk: seq<byte>, msg: Message) {
    PskOf(i) == psk && Offer(i, ei).Some? && Offer(i, ei).value.msg == msg
  }

  /** The same on the other side: a trial reads exactly the messages that some initiator sends with
      that key. */
  lemma HeardIffOffered(psk: seq<byte>, msg: Message)
    requires PskAccepted(psk)
    ensures Hear(psk, msg).Some? <==> exists i, ei :: Offers(i, ei, psk, msg)
    ensures forall i, ei :: Offers(i, ei, psk, msg) ==>
              Hear(psk, msg).value.payload == i.payload && Hear(psk, msg).value.s == Public(i.key)
  {
    if Hear(psk, msg).Some? {
      var i := Identity(msg.s.text.p.of, [psk], msg.payload.text.bytes);
      assert Offers(i, msg.e.of, psk, msg);
    }
    forall i, ei | Offers(i, ei, psk, msg)
      ensures Hear(psk, msg).Some?
      ensures Hear(psk, msg).value.payload == i.payload && Hear(psk, msg).value.s == Public(i.key)
    {
      TrialMatches(i, ei, psk);
    }
  }

  predicate OffersTo(r: Identity, i: Identity, ei: Secret, msg: Message)
    requires r.psks != []
  {
    Offers(i, ei, r.psks[|r.psks| - 1], msg)
  }

  /** So a responder accepts exactly the messages that some initiator sends with the last key of a
      list of legal keys and a payload that validates. */
  lemma RespondsIffOffered(r: Identity, er: Secret, msg: Message, vr: seq<byte> -> bool)
    requires !vr([])
    ensures Respond(r, er, msg, vr).Some? <==>
            && r.psks != [] && (forall k :: 0 <= k < |r.psks| ==> |r.psks[k]| == 0 || |r.psks[k]| == 32)
            && exists i, ei :: OffersTo(r, i, ei, msg) && vr(i.payload)
  {
    LastTrialDecides(r, er, msg, vr);
    assert forall i, ei :: r.psks != [] && OffersTo(r, i, ei, msg) ==> Offers(i, ei, r.psks[|r.psks| - 1], msg);
    if r.psks != [] && PskAccepted(r.psks[|r.psks| - 1]) {
      HeardIffOffered(r.psks[|r.psks| - 1], msg);
      if Hear(r.psks[|r.psks| - 1], msg).Some? {
        var i, ei :| Offers(i, ei, r.psks[|r.psks| - 1], msg);
        assert OffersTo(r, i, ei, msg);
      }
    }
  }

  /** Transcript agreement: an initiator that accepts a responder's reply knows that the responder
      read exactly the message it sent, whatever was delivered to the responder. */
  lemma TranscriptAgreement(
    i: Identity, ei: Secret, vi: seq<byte> -> bool, r: Identity, er: Secret, psk: seq<byte>, delivered: Message)
    requires Offer(i, ei).Some? && Hear(psk, delivered).Some?
    requires var (reply, _) := Answer(r, er, Hear(psk, delivered).value);
             Conclude(i, Offer(i, ei).value, reply, vi).Some?
    ensures delivered == Offer(i, ei).value.msg && psk == PskOf(i)
  {
    var hello, heard := Offer(i, ei).value, Hear(psk, delivered).value;
    var (reply, _) := Answer(r, er, heard);
    assert reply.s.Cipher?;
    assert reply.s.ad == MixEphemeral(hello.sym, hello.psked, reply.e).h;
    assert heard.sym.h == hello.sym.h;
  }

  // The inputs mixed into a chaining key, oldest first.
  function Inputs(c: Chain): seq<Input> {
    match c
    case Start(_) => []
    case Mixed(prev, input) => Inputs(prev) + [input]
  }

  /** The session keys of a finished pair depend on exactly the inputs that IXpsk0 prescribes, in
      order: the key psk, both ephemerals, then ee, se and es; without a psk only the last three. */
  lemma SessionKeyInputs(i: Identity, ei: Secret, vi: seq<byte> -> bool, r: Identity, er: Secret, vr: seq<byte> -> bool)
    requires Offer(i, ei).Some? && !vr([])
    requires Respond(r, er, Offer(i, ei).value.msg, vr).Some?
    ensures var psk := PskOf(i);
            Inputs(Respond(r, er, Offer(i, ei).value.msg, vr).value.m.enc.chain) ==
            (if psk == [] then [] else [FromPsk(psk), FromPublic(Public(ei)), FromPublic(Public(er))]) +
            [FromDh(Dh(ei, Public(er))), FromDh(Dh(i.key, Public(er))), FromDh(Dh(ei, Public(r.key)))]
  {
    var msg := Offer(i, ei).value.msg;
    LastTrialDecides(r, er, msg, vr);
    TrialMatches(i, ei, r.psks[|r.psks| - 1]);
    PayloadIsKept(r.psks, msg);
    AnswerInputs(i, ei, r, er);
  }

  lemma AnswerInputs(i: Identity, ei: Secret, r: Identity, er: Secret)
    requires Offer(i, ei).Some?
    ensures var hello := Offer(i, ei).value;
            var heard := Heard(hello.sym, hello.psked, Public(ei), Public(i.key), i.payload);
            Inputs(Answer(r, er, heard).1) ==
            (if PskOf(i) == [] then [] else [FromPsk(PskOf(i)), FromPublic(Public(ei)), FromPublic(Public(er))]) +
            [FromDh(Dh(ei, Public(er))), FromDh(Dh(i.key, Public(er))), FromDh(Dh(ei, Public(r.key)))]
  {
    DhCommutes(ei, er);
    DhCommutes(i.key, er);
    DhCommutes(ei, r.key);
    var hello := Offer(i, ei).value;
    var c0 := hello.sym.chain;
    if PskOf(i) == [] {
      assert Inputs(c0) == [];
    } else {
      var start := Start(true);
      var mixed := Mixed(start, FromPsk(PskOf(i)));
      assert c0 == Mixed(mixed, FromPublic(Public(ei)));
      assert Inputs(start) == [];
      assert Inputs(mixed) == [FromPsk(PskOf(i))];
      assert Inputs(c0) == [FromPsk(PskOf(i)), FromPublic(Public(ei))];
    }
    var c1 := if PskOf(i) == [] then c0 else Mixed(c0, FromPublic(Public(er)));
    var c2 := Mixed(c1, FromDh(Dh(ei, Public(er))));
    var c3 := Mixed(c2, FromDh(Dh(i.key, Public(er))));
    assert Answer(r, er, Heard(hello.sym, hello.psked, Public(ei), Public(i.key), i.payload)).1
        == Mixed(c3, FromDh(Dh(ei, Public(r.key))));
    assert Inputs(c2) == Inputs(c1) + [FromDh(Dh(ei, Public(er)))];
    assert Inputs(c3) == Inputs(c2) + [FromDh(Dh(i.key, Public(er)))];
  }

  // What was hashed into a transcript, oldest first.
  datatype Hashed = HashedName(psked: bool) | HashedPsk(chain: Chain) | HashedKey(p: Public) | HashedSealed(c: Sealed)

  function Hashes(t: Transcript): seq<Hashed> {
    match t
    case Name(psked) => [HashedName(psked)]
    case AddPsk(prev, chain) => Hashes(prev) + [HashedPsk(chain)]
    case AddKey(prev, p) => Hashes(prev) + [HashedKey(p)]
    case AddSealed(prev, c) => Hashes(prev) + [HashedSealed(c)]
  }

  // What goes in front of the first message: the name of the protocol, and a digest of the psk.
  function Prologue(psk: seq<byte>): seq<Hashed> {
    if psk == [] then [HashedName(false)]
    else [HashedName(true), HashedPsk(Mixed(Start(true), FromPsk(psk)))]
  }

  lemma PrologueHashes(psk: seq<byte>)
    ensures Hashes(Begin(psk).h) == Prologue(psk)
  {
    if psk != [] {
      assert Hashes(Name(true)) == [HashedName(true)];
    }
  }

  /** The handshake hash after the first message covers, in order, the prologue, the ephemeral key and
      both sealed parts. */
  lemma HelloHashes(i: Identity, ei: Secret)
    requires Offer(i, ei).Some?
    ensures var hello := Offer(i, ei).value;
            Hashes(hello.sym.h) ==
            Prologue(PskOf(i)) + [HashedKey(Public(ei)), HashedSealed(hello.msg.s), HashedSealed(hello.msg.payload)]
  {
    var hello, psk := Offer(i, ei).value, PskOf(i);
    PrologueHashes(psk);
    var t1 := AddKey(Begin(psk).h, Public(ei));
    var t2 := AddSealed(t1, hello.msg.s);
    assert hello.sym.h == AddSealed(t2, hello.msg.payload);
    assert Hashes(t1) == Prologue(psk) + [HashedKey(Public(ei))];
    assert Hashes(t2) == Hashes(t1) + [HashedSealed(hello.msg.s)];
  }

  /** What the two sealed parts of a reply authenticate: everything that was hashed before them, the
      whole first message included. */
  lemma ReplyAuthenticates(i: Identity, ei: Secret, r: Identity, er: Secret, reply: Message)
    requires Offer(i, ei).Some? && Replies(i, Offer(i, ei).value, r, er, reply)
    ensures reply.s.Cipher? && reply.payload.Cipher?
    ensures var seen := Hashes(Offer(i, ei).value.sym.h) + [HashedKey(Public(er))];
            Hashes(reply.s.ad) == seen && Hashes(reply.payload.ad) == seen + [HashedSealed(reply.s)]
  {
    var t := AddKey(Offer(i, ei).value.sym.h, Public(er));
    assert reply.s.ad == t && reply.payload.ad == AddSealed(t, reply.s);
  }

  function Depth(c: Chain): nat {
    if c.Start? then 0 else 1 + Depth(c.prev)
  }

  predicate SameSlot(a: Sealed, b: Sealed) {
    a.Cipher? && b.Cipher? && a.key == b.key && a.nonce == b.nonce
  }

  // Where the parts of both messages are sealed.
  lemma OfferSlots(i: Identity, ei: Secret)
    requires Offer(i, ei).Some? && PskOf(i) != []
    ensures var m, c := Offer(i, ei).value.msg, Offer(i, ei).value.sym.chain;
            && m.s.Cipher? && m.s.key == Handshaking(c) && m.s.nonce == 0
            && m.payload.Cipher? && m.payload.key == Handshaking(c) && m.payload.nonce == 1
  {
  }

  lemma AnswerSlots(r: Identity, er: Secret, heard: Heard)
    ensures var (m, c) := Answer(r, er, heard);
            && m.s.Cipher? && m.s.nonce == 0 && m.payload.nonce == 0
            && Depth(m.s.key.chain) > Depth(heard.sym.chain) && m.s.key.Handshaking?
            && m.payload.Cipher? && Depth(m.payload.key.chain) == Depth(m.s.key.chain) + 1 && m.payload.key.Handshaking?
  {
    var s1 := MixEphemeral(heard.sym, heard.psked, Public(er));
    var s2 := MixKey(s1, FromDh(Dh(er, heard.e)));
    var s3 := MixKey(s2, FromDh(Dh(er, heard.s)));
    assert Depth(s3.chain) == Depth(s1.chain) + 2 by { assert Depth(s2.chain) == Depth(s1.chain) + 1; }
    assert Depth(s1.chain) >= Depth(heard.sym.chain);
  }

  /** No nonce is used twice under one key in the handshake: of the four sealed parts of the two
      messages no two share key and nonce. */
  lemma HandshakeNoncesDistinct(i: Identity, ei: Secret, r: Identity, er: Secret, psk: seq<byte>)
    requires Offer(i, ei).Some? && PskOf(i) != [] && Hear(psk, Offer(i, ei).value.msg).Some?
    ensures var m1 := Offer(i, ei).value.msg; var m2 := Answer(r, er, Hear(psk, m1).value).0;
            && !SameSlot(m1.s, m1.payload) && !SameSlot(m2.s, m2.payload)
            && !SameSlot(m1.s, m2.s) && !SameSlot(m1.s, m2.payload)
            && !SameSlot(m1.payload, m2.s) && !SameSlot(m1.payload, m2.payload)
  {
    TrialMatches(i, ei, psk);
    OfferSlots(i, ei);
    AnswerSlots(r, er, Hear(psk, Offer(i, ei).value.msg).value);
  }
}
