/**
 The pool of trusted CAs and certificate verification: certificate-authority.go, the certificate
 part of certificate-pem.go, and `Verify` of certificate.go.
 */
module CAPool {
  import opened Bytes
  import opened Certificate

  // ------------------------------------------------------------------ PEM text

  const CERT_BANNER := "AETHERPORT CERTIFICATE"

  // PEM text: encoded blocks, white space, and other text between them.
  datatype Item = Block(banner: string, body: Encoded) | Space | Prose

  type Text = seq<Item>

  // `pem.Decode` skips to the first block; without one it returns its whole input.
  datatype Decoded = Decoded(block: Option<Item>, rest: Text)

  function PemDecode(text: Text): (r: Decoded)
    ensures r.block.None? ==> r.rest == text && forall i :: 0 <= i < |text| ==> !text[i].Block?
    ensures r.block.Some? ==> r.block.value.Block? && |r.rest| < |text|
  {
    if text == [] then Decoded(None, text)
    else if text[0].Block? then Decoded(Some(text[0]), text[1..])
    else
      var r := PemDecode(text[1..]);
      if r.block.None? then Decoded(None, text) else r
  }

  // `UnmarshalAetherportCertificateFromPEM`
  function FromPEM(text: Text): (Option<Cert>, Text) {
    var d := PemDecode(text);
    if d.block.None? || d.block.value.banner != CERT_BANNER then (None, d.rest)
    else (Unmarshal(d.block.value.body), d.rest)
  }

  function ToPEM(c: Cert): Option<Text> {
    var e := Marshal(c);
    if e.None? then None else Some([Block(CERT_BANNER, e.value)])
  }

  // The end of what `NewCAPoolFromPEM` reads: nothing but white space is left.
  predicate AllSpace(text: Text) {
    forall i :: 0 <= i < |text| ==> text[i] == Space
  }

  // ------------------------------------------------------------------ verification on values

  type CaMap = map<HexText, Cert>

  function Expired(c: Cert, t: int): bool {
    c.details.notBefore > t || c.details.notAfter < t
  }

  // What a certificate must be to enter the pool.
  predicate SelfSigned(c: Cert) {
    && c.details.isCA && |c.details.publicKey| == KEY_LEN
    && CheckSignature(c, c.details.publicKey)
  }

  // Every entry is a self-signed CA keyed by its own fingerprint, with times as parsed.
  ghost predicate PoolInvariant(cas: CaMap) {
    forall k :: k in cas ==>
                  && SelfSigned(cas[k]) && k == Fingerprint(cas[k]) && k.Hex?
                  && InInt64(cas[k].details.notBefore) && InInt64(cas[k].details.notAfter)
  }

  predicate IsBlocklisted(c: Cert, blocked: set<HexText>) {
    Marshal(c).None? || Fingerprint(c) in blocked
  }

  function GetCAForCert(c: Cert, cas: CaMap): Option<Cert> {
    if c.details.issuer == NoText || c.details.issuer !in cas then None else Some(cas[c.details.issuer])
  }

  datatype Verdict = Accepted | Blocked | NoSigner | RootExpired | Outdated | BadSignature | OutlivesRoot | PredatesRoot

  function Verify(c: Cert, t: int, cas: CaMap, blocked: set<HexText>): Verdict
    requires PoolInvariant(cas)
  {
    if IsBlocklisted(c, blocked) then Blocked
    else
      var signer := GetCAForCert(c, cas);
      if signer.None? then NoSigner
      else if Expired(signer.value, t) then RootExpired
      else if Expired(c, t) then Outdated
      else if !CheckSignature(c, signer.value.details.publicKey) then BadSignature
      else if signer.value.details.notAfter < c.details.notAfter then OutlivesRoot
      else if signer.value.details.notBefore > c.details.notBefore then PredatesRoot
      else Accepted
  }

  // The same as one condition; the signer's own expiry does not appear.
  ghost predicate Trusted(c: Cert, t: int, cas: CaMap, blocked: set<HexText>)
    requires PoolInvariant(cas)
  {
    && Fingerprint(c) !in blocked
    && c.details.issuer in cas
    && var ca := cas[c.details.issuer].details;
       && ca.notBefore <= c.details.notBefore <= t <= c.details.notAfter <= ca.notAfter
       && CheckSignature(c, cas[c.details.issuer].details.publicKey)
  }

  /** Verify accepts exactly the trusted certificates. */
  lemma VerifyIffTrusted(c: Cert, t: int, cas: CaMap, blocked: set<HexText>)
    requires PoolInvariant(cas)
    ensures Verify(c, t, cas, blocked) == Accepted <==> Trusted(c, t, cas, blocked)
  {
  }

  /** Blocklisting removes exactly the acceptances of the listed fingerprint. */
  lemma BlocklistingOnlyRemoves(c: Cert, t: int, cas: CaMap, blocked: set<HexText>, fp: HexText)
    requires PoolInvariant(cas)
    ensures Verify(c, t, cas, blocked + {fp}) == Accepted <==>
            Verify(c, t, cas, blocked) == Accepted && Fingerprint(c) != fp
  {
  }

  // Certificates with one fingerprint agree on everything verification looks at.
  lemma FingerprintDetermines(a: Cert, b: Cert)
    requires Marshal(a).Some? && Fingerprint(a) == Fingerprint(b)
    requires InInt64(a.details.notBefore) && InInt64(a.details.notAfter)
    requires InInt64(b.details.notBefore) && InInt64(b.details.notAfter)
    ensures a.details.publicKey == b.details.publicKey && a.signature == b.signature
    ensures a.details.notBefore == b.details.notBefore && a.details.notAfter == b.details.notAfter
  {
  }

  /** Adding a CA never removes an acceptance, even when it replaces an entry of its fingerprint. */
  lemma AddingNeverRemoves(c: Cert, t: int, cas: CaMap, blocked: set<HexText>, ca: Cert)
    requires PoolInvariant(cas) && PoolInvariant(cas[Fingerprint(ca) := ca])
    requires Verify(c, t, cas, blocked) == Accepted
    ensures Verify(c, t, cas[Fingerprint(ca) := ca], blocked) == Accepted
  {
    var k := Fingerprint(ca);
    if k in cas {
      FingerprintDetermines(cas[k], ca);
    }
  }

  // ------------------------------------------------------------------ the pool object

  datatype AddResult = Added | AddedExpired | NotACert | NotCA | NotSelfSigned | Panicked

  predicate Entered(r: AddResult) { r == Added || r == AddedExpired }

  // `AddCACertificateFromPEM` as a function: result, remaining text and new map. A certificate that
  // passes its own signature check marshals, so its fingerprint is always defined.
  function AddFromPEM(cas: CaMap, text: Text, now: int): (AddResult, Text, CaMap) {
    var (c, rest) := FromPEM(text);
    if c.None? then (NotACert, rest, cas)
    else if !c.value.details.isCA then (NotCA, rest, cas)
    else if |c.value.details.publicKey| != KEY_LEN then
      (if DetailsRaw(c.value.details).None? then NotSelfSigned else Panicked, rest, cas)
    else if !CheckSignature(c.value, c.value.details.publicKey) then (NotSelfSigned, rest, cas)
    else (if Expired(c.value, now) then AddedExpired else Added, rest, cas[Fingerprint(c.value) := c.value])
  }

  // Wire times are 64-bit, which the record type leaves open.
  predicate WireTimes(text: Text) {
    forall i :: 0 <= i < |text| && text[i].Block? && text[i].body.Proto? && text[i].body.raw.details.Some? ==>
                  InInt64(text[i].body.raw.details.value.notBefore) && InInt64(text[i].body.raw.details.value.notAfter)
  }

  lemma {:induction false} DecodeKeepsWireTimes(text: Text)
    requires WireTimes(text)
    ensures var d := PemDecode(text);
            && WireTimes(d.rest)
            && (d.block.Some? ==> WireTimes([d.block.value]))
  {
    if text != [] {
      assert WireTimes(text[1..]);
      DecodeKeepsWireTimes(text[1..]);
      if text[0].Block? { assert WireTimes([text[0]]); }
    }
  }

  lemma AddKeepsInvariant(cas: CaMap, text: Text, now: int)
    requires PoolInvariant(cas) && WireTimes(text)
    ensures var (r, rest, cas') := AddFromPEM(cas, text, now);
            PoolInvariant(cas') && WireTimes(rest) && (!Entered(r) ==> cas' == cas)
  {
    DecodeKeepsWireTimes(text);
    var (c, _) := FromPEM(text);
    if c.Some? {
      var b := PemDecode(text).block.value;
      assert [b][0] == b;
    }
  }

  // Loading text into an empty pool: None when some block is refused, there is no block where one
  // is expected, or a key makes the library panic; otherwise the map and whether a CA had expired.
  datatype Loaded = LoadFailed | Loaded(cas: CaMap, expired: bool)

  function Load(cas: CaMap, expired: bool, text: Text, now: int): Loaded
    decreases |text|
  {
    var (r, rest, cas') := AddFromPEM(cas, text, now);
    if !Entered(r) then LoadFailed
    else if AllSpace(rest) then Loaded(cas', expired || r == AddedExpired)
    else Load(cas', expired || r == AddedExpired, rest, now)
  }

  class AetherportCAPool {
    var caMap: CaMap
    var certBlocklist: set<HexText>

    ghost predicate Valid() reads this { PoolInvariant(caMap) }

    constructor ()
      ensures Valid() && caMap == map[] && certBlocklist == {}
    {
      caMap, certBlocklist := map[], {};
    }

    method AddCACertificateFromPEM(text: Text, now: int) returns (rest: Text, r: AddResult)
      requires Valid() && WireTimes(text)
      modifies this`caMap
      ensures Valid() && WireTimes(rest)
      ensures (r, rest, caMap) == AddFromPEM(old(caMap), text, now)
    {
      AddKeepsInvariant(caMap, text, now);
      var (c, tail) := FromPEM(text);
      rest := tail;
      if c.None? {
        return rest, NotACert;
      }
      if !c.value.details.isCA {
        return rest, NotCA;
      }
      var raw := GetDetailsRaw(c.value.details);
      if raw.None? {
        return rest, NotSelfSigned;
      }
      if |c.value.details.publicKey| != KEY_LEN {
        return rest, Panicked;
      }
      if c.value.signature != Signed(c.value.details.publicKey, raw.value) {
        return rest, NotSelfSigned;
      }
      caMap := caMap[Fingerprint(c.value) := c.value];
      r := if Expired(c.value, now) then AddedExpired else Added;
    }

    method BlocklistFingerprint(fp: HexText)
      requires Valid()
      modifies this`certBlocklist
      ensures Valid() && certBlocklist == old(certBlocklist) + {fp}
    {
      certBlocklist := certBlocklist + {fp};
    }
  }

  /** `NewCAPoolFromPEM`: the pool it returns satisfies the invariant and holds what Load says. */
  method NewCAPoolFromPEM(pem: Text, now: int) returns (pool: AetherportCAPool, ok: bool, expired: bool)
    requires WireTimes(pem)
    ensures fresh(pool) && pool.Valid() && pool.certBlocklist == {}
    ensures ok ==> Load(map[], false, pem, now) == Loaded(pool.caMap, expired)
    ensures !ok ==> Load(map[], false, pem, now) == LoadFailed
  {
    pool := new AetherportCAPool();
    expired := false;
    var text := pem;
    while true
      invariant fresh(pool) && pool.Valid() && pool.certBlocklist == {} && WireTimes(text)
      invariant Load(pool.caMap, expired, text, now) == Load(map[], false, pem, now)
      decreases |text|
    {
      var rest, r := pool.AddCACertificateFromPEM(text, now);
      if r == AddedExpired {
        expired := true;
      }
      if !Entered(r) {
        return pool, false, expired;
      }
      if AllSpace(rest) {
        return pool, true, expired;
      }
      text := rest;
    }
  }

  // ------------------------------------------------------------------ what loading amounts to

  // A block that may enter the pool.
  predicate GoodBlock(b: Item) {
    && b.Block? && b.banner == CERT_BANNER
    && Unmarshal(b.body).Some? && SelfSigned(Unmarshal(b.body).value)
  }

  function PrintOf(b: Item): HexText
    requires GoodBlock(b)
  {
    Fingerprint(Unmarshal(b.body).value)
  }

  predicate AllGood(text: Text) {
    forall i :: 0 <= i < |text| && text[i].Block? ==> GoodBlock(text[i])
  }

  // There is a block, and nothing but white space follows the last one.
  ghost predicate EndsInBlock(text: Text) {
    exists i :: LastBlock(text, i)
  }

  predicate LastBlock(text: Text, i: int) {
    0 <= i < |text| && text[i].Block? && AllSpace(text[i + 1..])
  }

  lemma {:induction false} FirstBlock(text: Text) returns (j: nat)
    requires PemDecode(text).block.Some?
    ensures j < |text| && text[j] == PemDecode(text).block.value && PemDecode(text).rest == text[j + 1..]
    ensures forall i :: 0 <= i < j ==> !text[i].Block?
  {
    if text[0].Block? {
      j := 0;
    } else {
      var k := FirstBlock(text[1..]);
      j := k + 1;
    }
  }

  // k is the fingerprint of the i-th item, or of some item.
  predicate PrintsAt(text: Text, i: int, k: HexText) {
    0 <= i < |text| && GoodBlock(text[i]) && k == PrintOf(text[i])
  }

  ghost predicate Prints(text: Text, k: HexText) {
    exists i :: PrintsAt(text, i, k)
  }

  lemma AddsFirstBlock(cas: CaMap, text: Text, now: int)
    requires PemDecode(text).block.Some?
    ensures var b := PemDecode(text).block.value;
            AddFromPEM(cas, text, now) ==
            if GoodBlock(b)
            then (if Expired(Unmarshal(b.body).value, now) then AddedExpired else Added,
                  PemDecode(text).rest, cas[PrintOf(b) := Unmarshal(b.body).value])
            else (AddFromPEM(cas, text, now).0, PemDecode(text).rest, cas)
    ensures Entered(AddFromPEM(cas, text, now).0) <==> GoodBlock(PemDecode(text).block.value)
  {
  }

  /** Why the first block is refused: it is no certificate, not a CA's, not signed by its own key, or
      its key has a length at which verifying panics. */
  lemma RefusedWhy(cas: CaMap, text: Text, now: int)
    requires PemDecode(text).block.Some? && !GoodBlock(PemDecode(text).block.value)
    ensures var b, r := PemDecode(text).block.value, AddFromPEM(cas, text, now).0;
            && (r == NotACert <==> b.banner != CERT_BANNER || Unmarshal(b.body).None?)
            && (r == NotCA <==>
                b.banner == CERT_BANNER && Unmarshal(b.body).Some? && !Unmarshal(b.body).value.details.isCA)
            && (r == Panicked ==> |Unmarshal(b.body).value.details.publicKey| > KEY_LEN)
            && (r == NotSelfSigned && |Unmarshal(b.body).value.details.publicKey| == KEY_LEN ==>
                  !CheckSignature(Unmarshal(b.body).value, Unmarshal(b.body).value.details.publicKey))
            && r in {NotACert, NotCA, Panicked, NotSelfSigned}
  {
  }

  /** Loading succeeds exactly when there is a block, every block is a self-signed CA certificate and
      only white space follows the last one; the pool then holds exactly their fingerprints. */
  lemma {:induction false} LoadMeaning(cas: CaMap, expired: bool, text: Text, now: int)
    ensures var l := Load(cas, expired, text, now);
            && (l.Loaded? <==> AllGood(text) && EndsInBlock(text))
            && (l.Loaded? ==> forall k :: k in l.cas <==> k in cas || Prints(text, k))
    decreases |text|
  {
    if PemDecode(text).block.Some? {
      var j := FirstBlock(text);
      AddsFirstBlock(cas, text, now);
      var (r, rest, cas') := AddFromPEM(cas, text, now);
      if GoodBlock(text[j]) {
        assert PrintsAt(text, j, PrintOf(text[j]));
      }
      if AllSpace(rest) {
        NoMoreBlocks(text, j);
      } else if Entered(r) {
        LoadMeaning(cas', expired || r == AddedExpired, rest, now);
        TailMeaning(text, j);
      }
    }
  }

  lemma NoMoreBlocks(text: Text, j: nat)
    requires j < |text| && text[j].Block? && AllSpace(text[j + 1..])
    requires forall i :: 0 <= i < j ==> !text[i].Block?
    ensures forall i :: 0 <= i < |text| && text[i].Block? ==> i == j
    ensures EndsInBlock(text)
  {
    forall i | j < i < |text| ensures text[i] == Space {
      assert text[i] == text[j + 1..][i - j - 1];
    }
    assert LastBlock(text, j);
  }

  lemma TailMeaning(text: Text, j: nat)
    requires j < |text| && GoodBlock(text[j]) && !AllSpace(text[j + 1..])
    requires forall i :: 0 <= i < j ==> !text[i].Block?
    ensures AllGood(text) <==> AllGood(text[j + 1..])
    ensures EndsInBlock(text) <==> EndsInBlock(text[j + 1..])
    ensures forall k :: Prints(text, k) <==> k == PrintOf(text[j]) || Prints(text[j + 1..], k)
  {
    var tail := text[j + 1..];
    assert forall i :: j < i < |text| ==> text[i] == tail[i - j - 1];
    assert forall i :: 0 <= i < |tail| ==> tail[i] == text[i + j + 1];
    if i :| LastBlock(text, i) {
      assert i > j;
      assert tail[i - j - 1 + 1..] == text[i + 1..];
      assert LastBlock(tail, i - j - 1);
    }
    if i :| LastBlock(tail, i) {
      assert text[i + j + 1 + 1..] == tail[i + 1..];
      assert LastBlock(text, i + j + 1);
    }
    forall k ensures Prints(text, k) <==> k == PrintOf(text[j]) || Prints(tail, k) {
      if i :| PrintsAt(text, i, k) {
        if i > j { assert PrintsAt(tail, i - j - 1, k); }
      }
      if i :| PrintsAt(tail, i, k) { assert PrintsAt(text, i + j + 1, k); }
      assert PrintsAt(text, j, PrintOf(text[j]));
    }
  }

  // Some CA of the text is outside its window.
  predicate ExpiredAt(text: Text, i: int, now: int) {
    0 <= i < |text| && GoodBlock(text[i]) && Expired(Unmarshal(text[i].body).value, now)
  }

  ghost predicate AnyExpired(text: Text, now: int) {
    exists i :: ExpiredAt(text, i, now)
  }

  /** Expired CAs enter the pool all the same; the load reports them, and only them. */
  lemma {:induction false} LoadReportsExpiry(cas: CaMap, expired: bool, text: Text, now: int)
    requires Load(cas, expired, text, now).Loaded?
    ensures Load(cas, expired, text, now).expired <==> expired || AnyExpired(text, now)
    decreases |text|
  {
    var j := FirstBlock(text);
    AddsFirstBlock(cas, text, now);
    var (r, rest, cas') := AddFromPEM(cas, text, now);
    ExpirySplits(text, j, now);
    if AllSpace(rest) {
      assert forall i :: 0 <= i < |rest| ==> !GoodBlock(rest[i]);
    } else {
      LoadReportsExpiry(cas', expired || r == AddedExpired, rest, now);
    }
  }

  lemma ExpirySplits(text: Text, j: nat, now: int)
    requires j < |text| && GoodBlock(text[j]) && forall i :: 0 <= i < j ==> !text[i].Block?
    ensures AnyExpired(text, now) <==> Expired(Unmarshal(text[j].body).value, now) || AnyExpired(text[j + 1..], now)
  {
    var tail := text[j + 1..];
    assert forall i :: 0 <= i < |tail| ==> tail[i] == text[i + j + 1];
    if i :| ExpiredAt(text, i, now) {
      if i > j { assert ExpiredAt(tail, i - j - 1, now); }
    }
    if i :| ExpiredAt(tail, i, now) { assert ExpiredAt(text, i + j + 1, now); }
    if Expired(Unmarshal(text[j].body).value, now) { assert ExpiredAt(text, j, now); }
  }

  // ------------------------------------------------------------------ reachable pools

  datatype PoolAct = Add(text: Text, now: int) | Block'(fp: HexText)

  function RunPool(cas: CaMap, blocked: set<HexText>, acts: seq<PoolAct>): (CaMap, set<HexText>)
    decreases |acts|
  {
    if acts == [] then (cas, blocked)
    else
      match acts[0]
      case Add(text, now) => RunPool(AddFromPEM(cas, text, now).2, blocked, acts[1..])
      case Block'(fp) => RunPool(cas, blocked + {fp}, acts[1..])
  }

  /** Every pool reachable by adds and blocklistings keeps the invariant. */
  lemma {:induction false} ReachablePoolsAreSound(cas: CaMap, blocked: set<HexText>, acts: seq<PoolAct>)
    requires PoolInvariant(cas)
    requires forall i :: 0 <= i < |acts| && acts[i].Add? ==> WireTimes(acts[i].text)
    ensures PoolInvariant(RunPool(cas, blocked, acts).0)
    ensures blocked <= RunPool(cas, blocked, acts).1
    decreases |acts|
  {
    if acts != [] {
      match acts[0] {
        case Add(text, now) =>
          AddKeepsInvariant(cas, text, now);
          ReachablePoolsAreSound(AddFromPEM(cas, text, now).2, blocked, acts[1..]);
        case Block'(fp) =>
          ReachablePoolsAreSound(cas, blocked + {fp}, acts[1..]);
      }
    }
  }

  /** The remainder handling: a single certificate written as PEM loads exactly when it is an
      unlabelled self-signed CA that can be stored, and then it is the pool's only entry. */
  lemma SingleCALoads(c: Cert, now: int)
    requires Storable(c) && SelfSigned(c)
    ensures ToPEM(c).Some?
    ensures Load(map[], false, ToPEM(c).value, now) ==
            if c.details.labels == [] then Loaded(map[Fingerprint(c) := c], Expired(c, now)) else LoadFailed
  {
    var text := ToPEM(c).value;
    assert PemDecode(text) == Decoded(Some(text[0]), []);
    assert FromPEM(text).0 == Reload(c);
    if c.details.labels == [] {
      RoundTripIdentity(c);
    } else if Reload(c).Some? {
      SignatureSurvivesIffUnlabelled(c, c.details.publicKey);
      ReloadLaw(c);
    }
  }
}
