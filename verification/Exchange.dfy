/**
 The two handshake messages on their way: both constructors of messenger-noised.go send and read
 them through the framing layer, as one frame each, which the transport cuts as it likes.
 */
module Exchange {
  import opened Bytes
  import opened Framing
  import opened Segmented
  import opened ChunkedReader
  import Noise

  const KEY_BYTES: nat := 32
  const TAG: nat := 16

  // Writing a handshake message fails for longer payloads: no Noise message is longer (section 3 of
  // The Noise Protocol Framework, revision 34).
  const MAX_PAYLOAD: nat := 65535

  // The bytes of handshake messages.
  datatype Codec = Codec(
    encode: Noise.Message -> seq<byte>,
    decode: seq<byte> -> Option<Noise.Message>)

  function PartLen(c: Noise.Sealed): nat {
    (match c.text case Static(_) => KEY_BYTES case Payload(bytes) => |bytes|) + if c.Cipher? then TAG else 0
  }

  function MessageLen(m: Noise.Message): nat {
    KEY_BYTES + PartLen(m.s) + PartLen(m.payload)
  }

  // What is assumed of one message: it has its length, it reads back, and no shorter piece of its
  // frame reads as a message that the peer takes.
  ghost predicate Carries(c: Codec, m: Noise.Message, takes: Noise.Message -> bool) {
    && |c.encode(m)| == MessageLen(m)
    && c.decode(c.encode(m)) == Some(m)
    && forall k, n :: 0 <= k <= n <= |Frame(c.encode(m))| && n - k < MessageLen(m) ==>
                        Ignored(c.decode(Frame(c.encode(m))[k..n]), takes)
  }

  predicate Ignored(m: Option<Noise.Message>, takes: Noise.Message -> bool) {
    m.None? || !takes(m.value)
  }

  // How a transport cuts what is written to it.
  type Split = seq<byte> -> Segments

  ghost predicate Cuts(split: Split) {
    forall b :: NonEmpty(split(b)) && Flatten(split(b)) == b
  }

  // One read of a handshake message.
  function Receive(c: Codec, segs: Segments): Option<Noise.Message>
    requires NonEmpty(segs)
  {
    var r := ReadCall(segs).outcome;
    if r.Ok? then c.decode(r.payload) else None
  }

  /** A handshake message arrives, and alone, when its length is good, whatever the cutting;
      otherwise the reader gets nothing that it takes. */
  lemma ArrivesIfGood(c: Codec, m: Noise.Message, takes: Noise.Message -> bool, cut: Segments)
    requires Carries(c, m, takes) && MessageLen(m) + 8 < INT_LIMIT
    requires NonEmpty(cut) && Flatten(cut) == Frame(c.encode(m))
    ensures if Good(MessageLen(m)) then Receive(c, cut) == Some(m) else Ignored(Receive(c, cut), takes)
    ensures Good(MessageLen(m)) ==> ReadCall(cut).lost == [] && ReadCall(cut).segs == []
  {
    var b := c.encode(m);
    assert |b| >= KEY_BYTES;
    if Good(|b|) {
      ReadsOneFrame(cut, [], b);
      assert cut + [] == cut;
    } else {
      ReadCallMeaning(cut);
      FrameRoundTrip(b, []);
      assert Frame(b) + [] == Frame(b);
    }
  }

  // Both constructors at work on one connection: what they return when both return.
  function Connected(
    c: Codec, there: Split, back: Split,
    i: Noise.Identity, ei: Noise.Secret, vi: seq<byte> -> bool,
    r: Noise.Identity, er: Noise.Secret, vr: seq<byte> -> bool): Option<(Noise.Messenger, Noise.Messenger)>
    requires forall b :: NonEmpty(there(b)) && NonEmpty(back(b))
  {
    var hello := Noise.Offer(i, ei);
    if hello.None? || |i.payload| > MAX_PAYLOAD then None
    else
      var heard := Receive(c, there(Frame(c.encode(hello.value.msg))));
      var acc := if heard.None? then None else Noise.Respond(r, er, heard.value, vr);
      if acc.None? || |r.payload| > MAX_PAYLOAD then None
      else
        var reply := Receive(c, back(Frame(c.encode(acc.value.reply))));
        var m := if reply.None? then None else Noise.Conclude(i, hello.value, reply.value, vi);
        if m.None? then None else Some((m.value, acc.value.m))
  }

  // The same with messages that are handed over as values.
  function Paired(
    i: Noise.Identity, ei: Noise.Secret, vi: seq<byte> -> bool,
    r: Noise.Identity, er: Noise.Secret, vr: seq<byte> -> bool): Option<(Noise.Messenger, Noise.Messenger)>
  {
    var hello := Noise.Offer(i, ei);
    var acc := if hello.None? then None else Noise.Respond(r, er, hello.value.msg, vr);
    if acc.None? then None
    else
      var m := Noise.Conclude(i, hello.value, acc.value.reply, vi);
      if m.None? then None else Some((m.value, acc.value.m))
  }

  // The codec carries the messages that are sent.
  ghost predicate CarriesBoth(
    c: Codec, i: Noise.Identity, ei: Noise.Secret, vi: seq<byte> -> bool,
    r: Noise.Identity, er: Noise.Secret, vr: seq<byte> -> bool)
  {
    var hello := Noise.Offer(i, ei);
    hello.Some? ==>
      && Carries(c, hello.value.msg, Responds(r, er, vr))
      && (Noise.Respond(r, er, hello.value.msg, vr).Some? ==>
            Carries(c, Noise.Respond(r, er, hello.value.msg, vr).value.reply, Concludes(i, hello.value, vi)))
  }

  function Responds(r: Noise.Identity, er: Noise.Secret, vr: seq<byte> -> bool): Noise.Message -> bool {
    m => Noise.Respond(r, er, m, vr).Some?
  }

  function Concludes(i: Noise.Identity, hello: Noise.Hello, vi: seq<byte> -> bool): Noise.Message -> bool {
    m => Noise.Conclude(i, hello, m, vi).Some?
  }

  // A payload that gets through, behind `before` bytes of its handshake message.
  predicate Sendable(payload: seq<byte>, before: nat) {
    |payload| <= MAX_PAYLOAD && Good(before + |payload|)
  }

  // Bytes of a message without its payload: keys, and tags where something is sealed.
  function HelloBytes(i: Noise.Identity): nat {
    if Noise.PskOf(i) == [] then 2 * KEY_BYTES else 2 * KEY_BYTES + 2 * TAG
  }

  const REPLY_BYTES: nat := 2 * KEY_BYTES + 2 * TAG

  lemma HelloLen(i: Noise.Identity, ei: Noise.Secret)
    requires Noise.Offer(i, ei).Some?
    ensures MessageLen(Noise.Offer(i, ei).value.msg) == HelloBytes(i) + |i.payload|
  {
  }

  lemma ReplyLen(r: Noise.Identity, er: Noise.Secret, msg: Noise.Message, vr: seq<byte> -> bool)
    requires Noise.Respond(r, er, msg, vr).Some?
    ensures MessageLen(Noise.Respond(r, er, msg, vr).value.reply) == REPLY_BYTES + |r.payload|
  {
  }

  /** The handshake through the framing layer: for any identities and any cutting, both constructors
      return if and only if they would with messages handed over intact, no payload is too long, and
      both message lengths are good; they return the same messengers then. */
  lemma ConnectedIffSendable(
    c: Codec, there: Split, back: Split,
    i: Noise.Identity, ei: Noise.Secret, vi: seq<byte> -> bool,
    r: Noise.Identity, er: Noise.Secret, vr: seq<byte> -> bool)
    requires Cuts(there) && Cuts(back) && CarriesBoth(c, i, ei, vi, r, er, vr)
    ensures Connected(c, there, back, i, ei, vi, r, er, vr) ==
            if Sendable(i.payload, HelloBytes(i)) && Sendable(r.payload, REPLY_BYTES)
            then Paired(i, ei, vi, r, er, vr) else None
  {
    var hello := Noise.Offer(i, ei);
    if hello.Some? && |i.payload| <= MAX_PAYLOAD {
      var msg := hello.value.msg;
      HelloLen(i, ei);
      ArrivesIfGood(c, msg, Responds(r, er, vr), there(Frame(c.encode(msg))));
      if Good(MessageLen(msg)) && Noise.Respond(r, er, msg, vr).Some? && |r.payload| <= MAX_PAYLOAD {
        var reply := Noise.Respond(r, er, msg, vr).value.reply;
        ReplyLen(r, er, msg, vr);
        ArrivesIfGood(c, reply, Concludes(i, hello.value, vi), back(Frame(c.encode(reply))));
      }
    }
  }

  /** Which lengths those are: with a pre-shared key exactly the payloads of 2464 to 2719 bytes and
      those of more than 65535 bytes do not get through. */
  lemma SendableLengths(payload: seq<byte>)
    ensures Sendable(payload, REPLY_BYTES) <==> |payload| <= MAX_PAYLOAD && !(2464 <= |payload| <= 2719)
  {
    if |payload| <= MAX_PAYLOAD {
      GoodBelow(REPLY_BYTES + |payload|);
    }
  }

  lemma GoodBelow(n: nat)
    requires n < 0x1_0A00
    ensures Good(n) <==> n / 256 != 10
  {
    var w := Width(n);
    var bs := LowBytes(n, w);
    if w >= 2 {
      NextByte(n, w);
      NextByte(n / 256, w - 1);
      assert bs[1] == bs[1..][0] == (n / 256) % 256;
      if w == 3 {
        assert bs[2] == bs[1..][1..][0] == LowBytes(n / 256 / 256, 1)[0];
      }
    }
  }

  // Codecs that carry two given messages exist, so the theorem is not about nothing.
  lemma CodecExists(
    m: Noise.Message, takesM: Noise.Message -> bool, reply: Noise.Message, takesReply: Noise.Message -> bool)
    ensures exists c :: Carries(c, m, takesM) && Carries(c, reply, takesReply)
  {
    var ones: seq<byte> := seq(MessageLen(m), _ => 1);
    var twos: seq<byte> := seq(MessageLen(reply), _ => 2);
    var c := Codec(
      x => if x == m then ones else twos,
      b => if b == ones then Some(m) else if b == twos then Some(reply) else None);
    PiecesDiffer(ones, 1, twos, 2);
    PiecesDiffer(twos, 2, ones, 1);
    assert ones[0] == 1 && twos[0] == 2;
    assert Carries(c, m, takesM);
    assert Carries(c, reply, takesReply);
  }

  lemma PiecesDiffer(b: seq<byte>, x: byte, other: seq<byte>, y: byte)
    requires x != y && |b| >= KEY_BYTES && |other| >= KEY_BYTES
    requires (forall k :: 0 <= k < |b| ==> b[k] == x) && (forall k :: 0 <= k < |other| ==> other[k] == y)
    ensures forall k, n :: 0 <= k <= n <= |Frame(b)| && n - k < |b| ==>
                             Frame(b)[k..n] != b && Frame(b)[k..n] != other
  {
    forall k, n | 0 <= k <= n <= |Frame(b)| && n - k < |b|
      ensures Frame(b)[k..n] != b && Frame(b)[k..n] != other
    {
      var p := Frame(b)[k..n];
      if n - k >= KEY_BYTES {
        assert p[|p| - 1] == Frame(b)[n - 1] == b[n - 1 - |Header(|b|)|];
      }
    }
  }
}
