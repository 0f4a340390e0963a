/**
 The parts together: nodes whose certificates come from one CA find each other trustworthy, and when
 these fit through the handshake they finish it and exchange messages.
 */
module Node {
  import opened Bytes
  import opened Certificate
  import opened CAPool
  import opened Issue
  import Id = Identity
  import Noise
  import Exchange
  import Delivery

  // A CA as GenerateCA makes it, and the pool that loading its PEM gives.
  datatype Authority = Authority(name: Name, dur: Duration, at: int, key: seq<byte>)

  predicate Sensible(a: Authority) {
    a.name.idna && |a.key| == KEY_LEN && InInt64(a.at) && InInt64(a.at + a.dur)
  }

  function CaCert(a: Authority): Cert {
    SignDetails(CADetails(a.name, [], a.dur, a.at, a.key), a.key, None).cert
  }

  function Pool(a: Authority): CaMap {
    map[Fingerprint(CaCert(a)) := CaCert(a)]
  }

  // A leaf as Generate makes it with the default duration, after it was stored and read back.
  datatype Leaf = Leaf(name: Name, at: int, pub: seq<byte>)

  predicate Issuable(a: Authority, l: Leaf) {
    l.name.idna && |l.pub| == KEY_LEN && InInt64(l.at) && a.at <= l.at
  }

  function Issued(a: Authority, l: Leaf): Cert {
    SignDetails(LeafDetails(CaCert(a), l.name, [], 0, l.at, l.pub), a.key, Some(CaCert(a))).cert
  }

  // The stored leaf is accepted throughout its window and unchanged by further trips.
  lemma LeafIsTrusted(a: Authority, l: Leaf, now: int)
    requires Sensible(a) && Issuable(a, l)
    ensures PoolInvariant(Pool(a)) && Reload(Issued(a, l)).Some?
    ensures var c := Reload(Issued(a, l)).value;
            && Reload(c) == Some(c)
            && GetCAForCert(c, Pool(a)) == Some(CaCert(a))
            && (Verify(c, now, Pool(a), {}) == Accepted <==> l.at <= now <= a.at + a.dur - SECOND)
  {
    GeneratedCALoads(a.name, a.dur, a.at, a.key, now);
    IssueLoadVerify(a.name, a.dur, a.at, a.key, l.name, l.at, l.pub, now, now);
    ReloadLaw(Issued(a, l));
    NoLabels();
    RoundTripIdentity(Reload(Issued(a, l)).value);
  }

  // A node's handshake identity: its own key, the derived key list and its certificate as payload.
  predicate NodeOf(n: Noise.Identity, a: Authority, l: Leaf, kdf: Id.Kdf, encode: Encoded -> seq<byte>)
    requires Sensible(a) && Issuable(a, l)
  {
    && n.psks == Id.Keys(CaCert(a), Pool(a), kdf)
    && Reload(Issued(a, l)).Some?
    && Marshal(Reload(Issued(a, l)).value).Some?
    && n.payload == encode(Marshal(Reload(Issued(a, l)).value).value)
  }

  ghost predicate Codec(encode: Encoded -> seq<byte>, decode: seq<byte> -> Encoded) {
    (forall e :: decode(encode(e)) == e) && decode([]) == NoBytes
  }

  // A payload that a handshake message with a pre-shared key gets through the framing layer.
  predicate GetsThrough(payload: seq<byte>) {
    |payload| <= Exchange.MAX_PAYLOAD && !(2464 <= |payload| <= 2719)
  }

  /** Two nodes with unlabelled default certificates of one CA, at any time in both windows and
      whatever the cutting of what they send, complete the handshake if and only if both certificates
      get through it; and in every state of every run that follows each has read exactly a prefix of
      what the other wrote. */
  lemma NodesOfOneCADeliver(
    a: Authority, kdf: Id.Kdf, encode: Encoded -> seq<byte>, decode: seq<byte> -> Encoded, now: int,
    li: Leaf, i: Noise.Identity, ei: Noise.Secret, vi: seq<byte> -> bool,
    lr: Leaf, r: Noise.Identity, er: Noise.Secret, vr: seq<byte> -> bool,
    c: Exchange.Codec, there: Exchange.Split, back: Exchange.Split,
    aead: Delivery.Aead, states: seq<Delivery.Session>, acts: seq<Delivery.Act>)
    requires Sensible(a) && Issuable(a, li) && Issuable(a, lr) && Id.Gives32(kdf) && Codec(encode, decode)
    requires NodeOf(i, a, li, kdf, encode) && NodeOf(r, a, lr, kdf, encode)
    requires li.at <= now && lr.at <= now && now <= a.at + a.dur - SECOND
    requires PoolInvariant(Pool(a))
    requires forall p :: vi(p) == Id.PeerValid(p, decode, now, Pool(a), {})
    requires forall p :: vr(p) == Id.PeerValid(p, decode, now, Pool(a), {})
    requires Exchange.Cuts(there) && Exchange.Cuts(back) && Exchange.CarriesBoth(c, i, ei, vi, r, er, vr)
    requires Delivery.Lawful(aead) && Delivery.IsRun(aead, states, acts) && Delivery.AllDeliverable(acts)
    ensures var both := Exchange.Connected(c, there, back, i, ei, vi, r, er, vr);
            && (both.Some? <==> GetsThrough(i.payload) && GetsThrough(r.payload))
            && (both.Some? && states[0] == Delivery.Connect(both.value.0, both.value.1) ==>
                  forall k :: 0 <= k < |states| ==>
                    Delivery.Delivered(states[k].toResponder) && Delivery.Delivered(states[k].toInitiator))
  {
    NodesPair(a, kdf, encode, decode, now, li, i, ei, vi, lr, r, er, vr);
    NodeHasKey(a, kdf, encode, now, li, i);
    ConnectedIff(c, there, back, i, ei, vi, r, er, vr);
    EmptyInvalid(encode, decode, now, a, vr);
    var both := Exchange.Connected(c, there, back, i, ei, vi, r, er, vr);
    if both.Some? && states[0] == Delivery.Connect(both.value.0, both.value.1) {
      ConnectedDeliver(c, there, back, i, ei, vi, r, er, vr, aead, states, acts);
    }
  }

  lemma EmptyInvalid(
    encode: Encoded -> seq<byte>, decode: seq<byte> -> Encoded, now: int, a: Authority, valid: seq<byte> -> bool)
    requires Codec(encode, decode) && PoolInvariant(Pool(a))
    requires forall p :: valid(p) == Id.PeerValid(p, decode, now, Pool(a), {})
    ensures !valid([])
  {
    assert Unmarshal(decode([])).None?;
  }

  lemma ConnectedIff(
    c: Exchange.Codec, there: Exchange.Split, back: Exchange.Split,
    i: Noise.Identity, ei: Noise.Secret, vi: seq<byte> -> bool,
    r: Noise.Identity, er: Noise.Secret, vr: seq<byte> -> bool)
    requires Exchange.Cuts(there) && Exchange.Cuts(back) && Exchange.CarriesBoth(c, i, ei, vi, r, er, vr)
    requires Exchange.HelloBytes(i) == Exchange.REPLY_BYTES && Exchange.Paired(i, ei, vi, r, er, vr).Some?
    ensures Exchange.Connected(c, there, back, i, ei, vi, r, er, vr).Some? <==>
            GetsThrough(i.payload) && GetsThrough(r.payload)
  {
    Exchange.ConnectedIffSendable(c, there, back, i, ei, vi, r, er, vr);
    Exchange.SendableLengths(i.payload);
    Exchange.SendableLengths(r.payload);
  }

  // Whoever completes the handshake through the framing layer delivers.
  lemma ConnectedDeliver(
    c: Exchange.Codec, there: Exchange.Split, back: Exchange.Split,
    i: Noise.Identity, ei: Noise.Secret, vi: seq<byte> -> bool,
    r: Noise.Identity, er: Noise.Secret, vr: seq<byte> -> bool,
    aead: Delivery.Aead, states: seq<Delivery.Session>, acts: seq<Delivery.Act>)
    requires Exchange.Cuts(there) && Exchange.Cuts(back) && Exchange.CarriesBoth(c, i, ei, vi, r, er, vr)
    requires Delivery.Lawful(aead) && Delivery.IsRun(aead, states, acts) && Delivery.AllDeliverable(acts) && !vr([])
    requires var both := Exchange.Connected(c, there, back, i, ei, vi, r, er, vr);
             both.Some? && states[0] == Delivery.Connect(both.value.0, both.value.1)
    ensures forall k :: 0 <= k < |states| ==>
              Delivery.Delivered(states[k].toResponder) && Delivery.Delivered(states[k].toInitiator)
  {
    Exchange.ConnectedIffSendable(c, there, back, i, ei, vi, r, er, vr);
    Delivery.EndToEndDelivery(aead, i, ei, vi, r, er, vr, states, acts);
  }

  lemma NodeHasKey(a: Authority, kdf: Id.Kdf, encode: Encoded -> seq<byte>, now: int, l: Leaf, n: Noise.Identity)
    requires Sensible(a) && Issuable(a, l) && Id.Gives32(kdf) && NodeOf(n, a, l, kdf, encode)
    ensures Exchange.HelloBytes(n) == Exchange.REPLY_BYTES
  {
    LeafIsTrusted(a, l, now);
    Id.KeysAreIssuers(Reload(Issued(a, l)).value, Pool(a), kdf);
  }

  // With messages handed over intact they always complete it.
  lemma NodesPair(
    a: Authority, kdf: Id.Kdf, encode: Encoded -> seq<byte>, decode: seq<byte> -> Encoded, now: int,
    li: Leaf, i: Noise.Identity, ei: Noise.Secret, vi: seq<byte> -> bool,
    lr: Leaf, r: Noise.Identity, er: Noise.Secret, vr: seq<byte> -> bool)
    requires Sensible(a) && Issuable(a, li) && Issuable(a, lr) && Id.Gives32(kdf) && Codec(encode, decode)
    requires NodeOf(i, a, li, kdf, encode) && NodeOf(r, a, lr, kdf, encode)
    requires li.at <= now && lr.at <= now && now <= a.at + a.dur - SECOND
    requires PoolInvariant(Pool(a))
    requires forall p :: vi(p) == Id.PeerValid(p, decode, now, Pool(a), {})
    requires forall p :: vr(p) == Id.PeerValid(p, decode, now, Pool(a), {})
    ensures Exchange.Paired(i, ei, vi, r, er, vr).Some?
  {
    LeafIsTrusted(a, li, now);
    LeafIsTrusted(a, lr, now);
    var ci, cr := Reload(Issued(a, li)).value, Reload(Issued(a, lr)).value;
    PayloadIsValid(a, ci, encode, decode, now);
    PayloadIsValid(a, cr, encode, decode, now);
    Id.SameIssuerConnects(i, ei, ci, Pool(a), {}, vi, r, er, cr, Pool(a), {}, vr, kdf, decode, now);
  }

  /** Whoever completes the handshake is trusted: for any two identities that validate as nodes do,
      whatever their keys, certificates and pools, both certificates are trusted by the other side when
      both constructors return, and each messenger holds the certificate that its peer sent. */
  lemma ConnectedTrusted(
    c: Exchange.Codec, there: Exchange.Split, back: Exchange.Split, decode: seq<byte> -> Encoded,
    i: Noise.Identity, ei: Noise.Secret, vi: seq<byte> -> bool, iNow: int, icas: CaMap, iblocked: set<HexText>,
    r: Noise.Identity, er: Noise.Secret, vr: seq<byte> -> bool, rNow: int, rcas: CaMap, rblocked: set<HexText>)
    requires Exchange.Cuts(there) && Exchange.Cuts(back) && Exchange.CarriesBoth(c, i, ei, vi, r, er, vr)
    requires PoolInvariant(icas) && PoolInvariant(rcas) && decode([]) == NoBytes
    requires forall p :: vi(p) == Id.PeerValid(p, decode, iNow, icas, iblocked)
    requires forall p :: vr(p) == Id.PeerValid(p, decode, rNow, rcas, rblocked)
    requires Exchange.Connected(c, there, back, i, ei, vi, r, er, vr).Some?
    ensures Unmarshal(decode(i.payload)).Some? && Trusted(Unmarshal(decode(i.payload)).value, rNow, rcas, rblocked)
    ensures Unmarshal(decode(r.payload)).Some? && Trusted(Unmarshal(decode(r.payload)).value, iNow, icas, iblocked)
    ensures var (mi, mr) := Exchange.Connected(c, there, back, i, ei, vi, r, er, vr).value;
            mi.peer == r.payload && mr.peer == i.payload
  {
    assert !vr([]) by { assert Unmarshal(decode([])).None?; }
    Exchange.ConnectedIffSendable(c, there, back, i, ei, vi, r, er, vr);
    Noise.HandshakePairing(i, ei, vi, r, er, vr);
    Id.ValidIffTrusted(i.payload, decode, rNow, rcas, rblocked);
    Id.ValidIffTrusted(r.payload, decode, iNow, icas, iblocked);
  }

  lemma PayloadIsValid(a: Authority, c: Cert, encode: Encoded -> seq<byte>, decode: seq<byte> -> Encoded, now: int)
    requires Codec(encode, decode) && PoolInvariant(Pool(a))
    requires Reload(c) == Some(c) && Verify(c, now, Pool(a), {}) == Accepted
    ensures Marshal(c).Some? && Id.PeerValid(encode(Marshal(c).value), decode, now, Pool(a), {})
  {
    assert decode(encode(Marshal(c).value)) == Marshal(c).value;
  }
}
