/**
 A node's identity: identity.go. It derives the handshake's pre-shared keys from its CA pool and
 validates the certificate that the peer sends as its handshake payload.
 */
module Identity {
  import opened Bytes
  import opened Certificate
  import opened CAPool
  import Noise

  // HKDF over a CA signature, reading 32 bytes.
  type Kdf = Signature -> seq<byte>

  ghost predicate Gives32(kdf: Kdf) {
    forall s :: |kdf(s)| == 32
  }

  class PskList {
    var store: array<seq<byte>>
    var len: nat

    ghost predicate Valid() reads this { len <= store.Length }

    function Contents(): seq<seq<byte>>
      requires Valid()
      reads this, store
    {
      store[..len]
    }

    // `make([][]byte, 0, capacity)`
    constructor (capacity: nat)
      ensures Valid() && fresh(store) && store.Length == capacity && Contents() == []
    {
      store := new seq<byte>[capacity](_ => []);
      len := 0;
    }

    // `psk[0], psk = key, append(psk[:1], psk...)`: shift everything up by one, then overwrite.
    method PutFirst(key: seq<byte>)
      requires Valid() && len < store.Length
      modifies this`len, store
      ensures Valid() && store == old(store)
      ensures Contents() == [key] + old(Contents())
    {
      forall i | 0 <= i < len { store[i + 1] := store[i]; }
      store[0] := key;
      len := len + 1;
    }

    // `append(psk, key)` within the capacity.
    method Put(key: seq<byte>)
      requires Valid() && len < store.Length
      modifies this`len, store
      ensures Valid() && store == old(store)
      ensures Contents() == old(Contents()) + [key]
    {
      store[len] := key;
      len := len + 1;
    }
  }

  // The list every iteration order produces: one key per CA, each derived from the issuer.
  function Keys(issuer: Cert, cas: CaMap, kdf: Kdf): seq<seq<byte>> {
    Repeat(kdf(issuer.signature), |cas|)
  }

  function Repeat<T>(x: T, n: nat): (s: seq<T>)
    ensures |s| == n && forall i :: 0 <= i < n ==> s[i] == x
  {
    if n == 0 then [] else Repeat(x, n - 1) + [x]
  }

  lemma {:induction false} RepeatFirst<T>(x: T, n: nat)
    ensures Repeat(x, n + 1) == [x] + Repeat(x, n)
  {
    if n > 0 {
      RepeatFirst(x, n - 1);
      Assoc([x], Repeat(x, n - 1), [x]);
    } else {
      assert Repeat(x, 1) == Repeat(x, 0) + [x];
    }
  }

  /** `computePresharedKeys`, for every order in which the map is walked: it fails exactly without
      an issuer, never outgrows the capacity of one key per CA, and although it means to derive each
      key from its own CA and to put the issuer's first, every key is the issuer's. */
  method ComputePresharedKeys(cert: Cert, cas: CaMap, kdf: Kdf) returns (r: Option<PskList>)
    ensures r.Some? <==> GetCAForCert(cert, cas).Some?
    ensures r.Some? ==> fresh(r.value) && fresh(r.value.store) && r.value.Valid()
                        && r.value.store.Length == |cas|
                        && r.value.Contents() == Keys(GetCAForCert(cert, cas).value, cas, kdf)
    ensures r.Some? ==> |r.value.Contents()| == |cas| &&
                        forall k :: 0 <= k < |cas| ==> r.value.Contents()[k] == kdf(cas[cert.details.issuer].signature)
  {
    var ica := GetCAForCert(cert, cas);
    if ica.None? {
      return None;
    }
    var list := new PskList(|cas|);
    var rest := cas.Keys;
    ghost var key := kdf(ica.value.signature);
    while rest != {}
      invariant rest <= cas.Keys
      invariant list.Valid() && fresh(list) && fresh(list.store) && list.store.Length == |cas|
      invariant list.len + |rest| == |cas|
      invariant list.Contents() == Repeat(key, list.len)
      decreases rest
    {
      var k :| k in rest;
      rest := rest - {k};
      var psk := kdf(ica.value.signature);
      RepeatFirst(psk, list.len);
      if k == cert.details.issuer && list.len > 1 {
        list.PutFirst(psk);
      } else {
        list.Put(psk);
      }
    }
    r := Some(list);
  }

  // `ValidatePeer` as a predicate on payload bytes.
  predicate PeerValid(payload: seq<byte>, decode: seq<byte> -> Encoded, now: int, cas: CaMap, blocked: set<HexText>)
    requires PoolInvariant(cas)
  {
    Unmarshal(decode(payload)).Some? && Verify(Unmarshal(decode(payload)).value, now, cas, blocked) == Accepted
  }

  /** A payload is valid exactly when it parses to a certificate that is trusted: not blocklisted,
      its issuer in the pool, its signature good, and CA start <= start <= now <= end <= CA end. */
  lemma ValidIffTrusted(payload: seq<byte>, decode: seq<byte> -> Encoded, now: int, cas: CaMap, blocked: set<HexText>)
    requires PoolInvariant(cas)
    ensures PeerValid(payload, decode, now, cas, blocked) <==>
            Unmarshal(decode(payload)).Some? && Trusted(Unmarshal(decode(payload)).value, now, cas, blocked)
  {
    if Unmarshal(decode(payload)).Some? {
      VerifyIffTrusted(Unmarshal(decode(payload)).value, now, cas, blocked);
    }
  }

  class Peer {
    var cert: Option<Cert>

    constructor ()
      ensures cert == None
    {
      cert := None;
    }

    // The peer's certificate is remembered only when it is valid.
    method ValidatePeer(payload: seq<byte>, decode: seq<byte> -> Encoded, now: int, cas: CaMap, blocked: set<HexText>)
      returns (ok: bool)
      requires PoolInvariant(cas)
      modifies this
      ensures ok <==> PeerValid(payload, decode, now, cas, blocked)
      ensures ok <==> Unmarshal(decode(payload)).Some? &&
                      Trusted(Unmarshal(decode(payload)).value, now, cas, blocked)
      ensures cert == if ok then Unmarshal(decode(payload)) else old(cert)
    {
      var c := UnmarshalAetherportCertificate(decode(payload));
      ValidIffTrusted(payload, decode, now, cas, blocked);
      if c.None? || Verify(c.value, now, cas, blocked) != Accepted {
        return false;
      }
      cert := c;
      ok := true;
    }
  }

  lemma KeysAreIssuers(cert: Cert, cas: CaMap, kdf: Kdf)
    requires Gives32(kdf) && GetCAForCert(cert, cas).Some?
    ensures var key := kdf(GetCAForCert(cert, cas).value.signature);
            var keys := Keys(GetCAForCert(cert, cas).value, cas, kdf);
            && |key| == 32 && |keys| > 0
            && forall k :: 0 <= k < |keys| ==> keys[k] == key
  {
    assert cert.details.issuer in cas;
  }

  /** Key list and responder loop together: with the lists that two identities compute, the
      responder's trials all succeed or all fail, and they succeed exactly when both derive the same
      key from their issuers, that is, whenever they have the same issuer; then the payload left in
      the loop's variable is the one read by the kept state. */
  lemma ListsAndTrials(
    i: Noise.Identity, ei: Noise.Secret, icert: Cert, icas: CaMap,
    r: Noise.Identity, rcert: Cert, rcas: CaMap, kdf: Kdf)
    requires Gives32(kdf)
    requires GetCAForCert(icert, icas).Some? && GetCAForCert(rcert, rcas).Some?
    requires i.psks == Keys(GetCAForCert(icert, icas).value, icas, kdf)
    requires r.psks == Keys(GetCAForCert(rcert, rcas).value, rcas, kdf)
    ensures Noise.Offer(i, ei).Some?
    ensures var hello, t := Noise.Offer(i, ei).value, Noise.TryAll(r.psks, Noise.Offer(i, ei).value.msg);
            && t.Tried?
            && (t.kept.Some? <==>
                kdf(GetCAForCert(icert, icas).value.signature) == kdf(GetCAForCert(rcert, rcas).value.signature))
            && (t.kept.Some? ==> t.payload == t.kept.value.payload == i.payload && t.kept.value.sym == hello.sym)
  {
    KeysAreIssuers(icert, icas, kdf);
    KeysAreIssuers(rcert, rcas, kdf);
    var rkey := kdf(GetCAForCert(rcert, rcas).value.signature);
    Noise.UniformTrials(r.psks, rkey, Noise.Offer(i, ei).value.msg);
    Noise.TrialMatches(i, ei, rkey);
  }

  /** Two nodes of one CA whose certificates validate each other always complete the handshake. */
  lemma SameIssuerConnects(
    i: Noise.Identity, ei: Noise.Secret, icert: Cert, icas: CaMap, iblocked: set<HexText>, vi: seq<byte> -> bool,
    r: Noise.Identity, er: Noise.Secret, rcert: Cert, rcas: CaMap, rblocked: set<HexText>, vr: seq<byte> -> bool,
    kdf: Kdf, decode: seq<byte> -> Encoded, now: int)
    requires Gives32(kdf) && decode([]) == NoBytes
    requires PoolInvariant(icas) && PoolInvariant(rcas)
    requires forall p :: vi(p) == PeerValid(p, decode, now, icas, iblocked)
    requires forall p :: vr(p) == PeerValid(p, decode, now, rcas, rblocked)
    requires GetCAForCert(icert, icas).Some? && GetCAForCert(rcert, rcas) == GetCAForCert(icert, icas)
    requires i.psks == Keys(GetCAForCert(icert, icas).value, icas, kdf)
    requires r.psks == Keys(GetCAForCert(rcert, rcas).value, rcas, kdf)
    requires vr(i.payload) && vi(r.payload)
    ensures Noise.Offer(i, ei).Some?
    ensures var hello := Noise.Offer(i, ei).value;
            && Noise.Respond(r, er, hello.msg, vr).Some?
            && Noise.Conclude(i, hello, Noise.Respond(r, er, hello.msg, vr).value.reply, vi).Some?
  {
    KeysAreIssuers(icert, icas, kdf);
    KeysAreIssuers(rcert, rcas, kdf);
    assert !vr([]) by { assert Unmarshal(decode([])).None?; }
    assert r.psks[|r.psks| - 1] == Noise.PskOf(i);
    Noise.HandshakeCompletes(i, ei, vi, r, er, vr);
  }
}
