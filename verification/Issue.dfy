/**
 Issuing certificates: the three Run methods of cli-certificate.go without their file access, and
 what becomes of their output when it is loaded and verified.
 */
module Issue {
  import opened Bytes
  import opened Certificate
  import opened CAPool

  const SECOND := 1_000_000_000

  type Duration = x: int | InInt64(x)

  // time.Time.Sub saturates.
  function Sub(a: int, b: int): Duration {
    if a - b >= TWO63 then TWO63 - 1 else if a - b < -TWO63 then -TWO63 else a - b
  }

  datatype Signing = Signing(cert: Cert, ok: bool)

  function SignDetails(d: Details, key: seq<byte>, ca: Option<Cert>): Signing {
    var (c, ok) := SignedBy(Cert(d, NoSignature), key, ca);
    Signing(c, ok)
  }

  function CADetails(name: Name, labels: seq<Label>, dur: Duration, now: int, key: seq<byte>): Details {
    Details(name, labels, now, now + dur, key, true, NoText)
  }

  // Note that leaves are marked as CAs, too.
  function LeafDetails(ca: Cert, name: Name, labels: seq<Label>, dur: Duration, now: int, pub: seq<byte>): Details {
    var d := if dur == 0 then Wrap64(Sub(ca.details.notAfter, now) - SECOND) else dur;
    Details(name, labels, now, now + d, pub, true, NoText)
  }

  function RenewedDetails(
    was: Details, name: Option<Name>, labels: seq<Label>, dur: Option<Duration>, now: int): Details
  {
    var d := if dur.Some? then dur.value else Sub(was.notAfter, was.notBefore);
    was.(name := if name.Some? then name.value else was.name,
          labels := if labels != [] then labels else was.labels,
          notBefore := now, notAfter := now + d)
  }

  // What signing does to a certificate.
  lemma SignOutcome(c: Cert, key: seq<byte>, ca: Option<Cert>)
    ensures var (s, ok) := SignedBy(c, key, ca);
            && s.details == c.details.(issuer := s.details.issuer)
            && (ok <==> c.details.name.idna && Serialises(if ca.Some? then ca.value.details else c.details))
            && (ok ==> s.details.issuer == if ca.Some? then Fingerprint(ca.value) else c.details.issuer)
            && (ok && |key| == KEY_LEN ==> CheckSignature(s, key))
  {
    SignsIff(c, key, ca);
    if SignedBy(c, key, ca).1 && |key| == KEY_LEN { SignVerifies(c, key, ca); }
  }

  /** A new CA: on success it is signed by its own key, names no issuer and lasts from now for the
      duration asked for. */
  method GenerateCA(name: Name, labels: seq<Label>, dur: Duration, now: int, key: seq<byte>)
    returns (cert: AetherportCertificate, ok: bool)
    ensures fresh(cert)
    ensures Signing(cert.Value(), ok) == SignDetails(CADetails(name, labels, dur, now, key), key, None)
    ensures ok && |key| == KEY_LEN ==> CheckSignature(cert.Value(), key)
    ensures ok <==> name.idna
    ensures ok ==> cert.details.publicKey == key && cert.details.issuer == NoText
    ensures cert.details.name == name && cert.details.labels == labels && cert.details.isCA
    ensures ok ==> cert.details.notBefore == now && cert.details.notAfter == now + dur
  {
    cert := new AetherportCertificate(Details(name, labels, now, now + dur, key, true, NoText));
    ghost var unsigned := cert.Value();
    ok := cert.Sign(key, None);
    SignOutcome(unsigned, key, None);
  }

  /** A new leaf: on success it is signed by the CA's key and names the CA. It lasts from now for the
      duration asked for, and without one to a second before the CA's end. */
  method Generate(ca: Cert, caKey: seq<byte>, name: Name, labels: seq<Label>, duration: Duration, now: int,
                  pub: seq<byte>)
    returns (cert: AetherportCertificate, ok: bool)
    ensures fresh(cert)
    ensures Signing(cert.Value(), ok) == SignDetails(LeafDetails(ca, name, labels, duration, now, pub), caKey, Some(ca))
    ensures ok && |caKey| == KEY_LEN ==> CheckSignature(cert.Value(), caKey)
    ensures ok <==> name.idna && Serialises(ca.details)
    ensures ok ==> cert.details.publicKey == pub && cert.details.issuer == Fingerprint(ca)
    ensures cert.details.name == name && cert.details.labels == labels && cert.details.isCA
    ensures ok ==> cert.details.notBefore == now
    ensures ok && duration != 0 ==> cert.details.notAfter == now + duration
    ensures ok && duration == 0 && 0 <= ca.details.notAfter - now < TWO63 ==>
              cert.details.notAfter == ca.details.notAfter - SECOND
  {
    var dur := duration;
    if dur == 0 {
      dur := Wrap64(Sub(ca.details.notAfter, now) - SECOND);
    }
    cert := new AetherportCertificate(Details(name, labels, now, now + dur, pub, true, NoText));
    ghost var unsigned := cert.Value();
    ok := cert.Sign(caKey, Some(ca));
    SignOutcome(unsigned, caKey, Some(ca));
    WithinInt64(ca.details.notAfter - now - SECOND);
  }

  lemma WithinInt64(x: int)
    ensures InInt64(x) ==> Wrap64(x) == x
  {
  }

  /** The same certificate again, with the new name, window and labels, under the CA given: on success
      its signature checks, it names that CA, and it lasts from now for the duration asked for, or
      without one for as long as before. */
  method ReSign(cert: AetherportCertificate, ca: Cert, caKey: seq<byte>,
                name: Option<Name>, labels: seq<Label>, duration: Option<Duration>, now: int)
    returns (ok: bool)
    modifies cert
    ensures (cert.Value(), ok) ==
            SignedBy(Cert(RenewedDetails(old(cert.details), name, labels, duration, now), old(cert.signature)),
                     caKey, Some(ca))
    ensures ok && |caKey| == KEY_LEN ==> CheckSignature(cert.Value(), caKey)
    ensures ok <==> cert.details.name.idna && Serialises(ca.details)
    ensures ok ==> cert.details.publicKey == old(cert.details.publicKey) && cert.details.issuer == Fingerprint(ca)
    ensures cert.details.name == if name.Some? then name.value else old(cert.details.name)
    ensures cert.details.labels == if labels != [] then labels else old(cert.details.labels)
    ensures cert.details.isCA == old(cert.details.isCA)
    ensures ok ==> cert.details.notBefore == now
    ensures ok && duration.Some? ==> cert.details.notAfter == now + duration.value
    ensures ok && duration.None? && InInt64(old(cert.details.notAfter - cert.details.notBefore)) ==>
              cert.details.notAfter - now == old(cert.details.notAfter - cert.details.notBefore)
  {
    if name.Some? {
      cert.details := cert.details.(name := name.value);
    }
    var dur := if duration.None? then Sub(cert.details.notAfter, cert.details.notBefore) else duration.value;
    cert.details := cert.details.(notBefore := now);
    cert.details := cert.details.(notAfter := cert.details.notBefore + dur);
    if labels != [] {
      cert.details := cert.details.(labels := labels);
    }
    ghost var unsigned := cert.Value();
    ok := cert.Sign(caKey, Some(ca));
    SignOutcome(unsigned, caKey, Some(ca));
  }

  // The map has the CA under its own fingerprint.
  predicate Holds(cas: CaMap, ca: Cert) {
    Fingerprint(ca) in cas && cas[Fingerprint(ca)] == ca
  }

  lemma WrappedTwice(d: Details)
    ensures DetailsRaw(d.(notBefore := Wrap64(d.notBefore), notAfter := Wrap64(d.notAfter))) == DetailsRaw(d)
  {
  }

  /** Whatever is signed by a CA of the pool, written out and read back is accepted exactly when it
      has no labels and its window, reduced to 64 bits, contains the time and lies within the CA's. */
  lemma IssuedAcceptedIff(c: Cert, ca: Cert, cas: CaMap, blocked: set<HexText>, t: int)
    requires PoolInvariant(cas) && Holds(cas, ca)
    requires var s := SignedBy(c, ca.details.publicKey, Some(ca));
             s.1 && Reload(s.0).Some? && Fingerprint(Reload(s.0).value) !in blocked
    ensures var back := Reload(SignedBy(c, ca.details.publicKey, Some(ca)).0).value;
            Verify(back, t, cas, blocked) == Accepted <==>
            && c.details.labels == []
            && ca.details.notBefore <= Wrap64(c.details.notBefore) <= t
            && t <= Wrap64(c.details.notAfter) <= ca.details.notAfter
  {
    var key := ca.details.publicKey;
    var signed := SignedBy(c, key, Some(ca)).0;
    var back := Reload(signed).value;
    SignVerifies(c, key, Some(ca));
    ReloadLaw(signed);
    WrappedTwice(signed.details);
    if c.details.labels == [] {
      NoLabels();
      assert CheckSignature(back, key);
    } else {
      RawLabelCount(signed.details);
      RawLabelCount(back.details);
    }
    VerifyIffTrusted(back, t, cas, blocked);
  }

  lemma WrapNear(x: int)
    requires -3 * TWO63 <= x < 3 * TWO63
    ensures Wrap64(x) == if x >= TWO63 then x - 2 * TWO63 else if x < -TWO63 then x + 2 * TWO63 else x
  {
    var y, m := x + TWO63, 2 * TWO63;
    if x >= TWO63 {
      assert y == m * 1 + (y - m);
    } else if x < -TWO63 {
      assert y == m * -1 + (y + m);
    }
  }

  // Default duration: the window ends one second before the CA's.
  lemma DefaultWindow(t0: int, dur: Duration, t1: int, t: int)
    requires InInt64(t0) && InInt64(t0 + dur) && InInt64(t1)
    ensures var end := t0 + dur; var na := Wrap64(t1 + Wrap64(Sub(end, t1) - SECOND));
            t0 <= t1 <= t <= na <= end <==> t0 <= t1 <= t <= end - SECOND
  {
    var end, s := t0 + dur, Sub(t0 + dur, t1) - SECOND;
    var w := Wrap64(s);
    var na := Wrap64(t1 + w);
    WrapNear(s);
    WrapNear(t1 + w);
    if t0 <= t1 <= end - SECOND {
      assert InInt64(dur);
      assert end - t1 <= dur;
      assert Sub(end, t1) == end - t1;
      assert InInt64(s);
      assert s == w;
      assert na == end - SECOND;
    } else if t0 <= t1 {
      assert !(t1 <= na <= end);
    }
  }

  // A generated CA survives storing and is all that its own pool holds.
  lemma GeneratedCALoads(caName: Name, dur: Duration, t0: int, key: seq<byte>, loadTime: int)
    requires caName.idna && |key| == KEY_LEN && InInt64(t0) && InInt64(t0 + dur)
    ensures var ca := SignDetails(CADetails(caName, [], dur, t0, key), key, None).cert;
            && ca.details == CADetails(caName, [], dur, t0, key)
            && ToPEM(ca).Some? && Reload(ca) == Some(ca) && SelfSigned(ca)
            && Load(map[], false, ToPEM(ca).value, loadTime) ==
               Loaded(map[Fingerprint(ca) := ca], Expired(ca, loadTime))
            && PoolInvariant(map[Fingerprint(ca) := ca])
  {
    var ca := SignDetails(CADetails(caName, [], dur, t0, key), key, None).cert;
    RoundTripIdentity(ca);
    SingleCALoads(ca, loadTime);
  }

  /** Issue, load, verify: an unlabelled CA from GenerateCA, written as PEM, makes a one-entry pool,
      and a leaf issued from it with the default duration is, after its own trip, accepted at
      exactly the times from its issue to one second before the CA's end. */
  lemma IssueLoadVerify(
    caName: Name, dur: Duration, t0: int, key: seq<byte>,
    name: Name, t1: int, pub: seq<byte>, loadTime: int, t: int)
    requires caName.idna && name.idna && |key| == KEY_LEN && |pub| == KEY_LEN
    requires InInt64(t0) && InInt64(t0 + dur) && InInt64(t1)
    ensures var ca := SignDetails(CADetails(caName, [], dur, t0, key), key, None).cert;
            && ToPEM(ca).Some? && Reload(ca) == Some(ca)
            && var loaded := Load(map[], false, ToPEM(ca).value, loadTime);
            && loaded.Loaded? && PoolInvariant(loaded.cas)
            && var leaf := SignDetails(LeafDetails(ca, name, [], 0, t1, pub), key, Some(ca)).cert;
            && Reload(leaf).Some?
            && (Verify(Reload(leaf).value, t, loaded.cas, {}) == Accepted <==>
                t0 <= t1 <= t <= ca.details.notAfter - SECOND)
  {
    var ca := SignDetails(CADetails(caName, [], dur, t0, key), key, None).cert;
    GeneratedCALoads(caName, dur, t0, key, loadTime);
    var d := LeafDetails(ca, name, [], 0, t1, pub);
    ReloadLaw(SignDetails(d, key, Some(ca)).cert);
    NoLabels();
    IssuedAcceptedIff(Cert(d, NoSignature), ca, map[Fingerprint(ca) := ca], {}, t);
    DefaultWindow(t0, dur, t1, t);
  }

  // A missing CA is generated on the way, with a year's duration only if none was asked for.
  const YEAR := 8760 * 3600 * SECOND

  function AutoDuration(asked: Duration): Duration {
    if asked == 0 then YEAR else 0
  }

  /** Generating a leaf together with its CA: without a duration the leaf is accepted from its issue
      to a second before the CA's end; with any duration it never is, because the CA is made with none. */
  lemma AutoCAOnlyWithDefaultDuration(
    caName: Name, asked: Duration, t0: int, key: seq<byte>, name: Name, t1: int, pub: seq<byte>, t: int)
    requires caName.idna && name.idna && |key| == KEY_LEN && |pub| == KEY_LEN
    requires InInt64(t0) && InInt64(t0 + YEAR) && InInt64(t1) && InInt64(t1 + asked)
    ensures var ca := SignDetails(CADetails(caName, [], AutoDuration(asked), t0, key), key, None).cert;
            var cas := map[Fingerprint(ca) := ca];
            var leaf := SignDetails(LeafDetails(ca, name, [], asked, t1, pub), key, Some(ca)).cert;
            && PoolInvariant(cas) && Reload(leaf).Some?
            && (Verify(Reload(leaf).value, t, cas, {}) == Accepted <==>
                asked == 0 && t0 <= t1 <= t <= t0 + YEAR - SECOND)
  {
    var ca := SignDetails(CADetails(caName, [], AutoDuration(asked), t0, key), key, None).cert;
    GeneratedCALoads(caName, AutoDuration(asked), t0, key, t0);
    var d := LeafDetails(ca, name, [], asked, t1, pub);
    ReloadLaw(SignDetails(d, key, Some(ca)).cert);
    NoLabels();
    IssuedAcceptedIff(Cert(d, NoSignature), ca, map[Fingerprint(ca) := ca], {}, t);
    DefaultWindow(t0, AutoDuration(asked), t1, t);
  }

  /** Re-signing without a new duration keeps the length of the window and starts it now: the result,
      stored, is accepted exactly in that window, provided it lies within the CA's and there are no
      labels, old or new. */
  lemma ReSignedWindow(c: Cert, name: Option<Name>, labels: seq<Label>, now: int, ca: Cert, cas: CaMap, t: int)
    requires PoolInvariant(cas) && Holds(cas, ca) && c.details.name.idna && (name.Some? ==> name.value.idna)
    requires Storable(c) && InInt64(now)
    requires var len := c.details.notAfter - c.details.notBefore; InInt64(len) && InInt64(now + len)
    ensures var n := Cert(RenewedDetails(c.details, name, labels, None, now), c.signature);
            var s := SignedBy(n, ca.details.publicKey, Some(ca));
            var end := now + (c.details.notAfter - c.details.notBefore);
            && s.1
            && (Reload(s.0).Some? ==>
                  (Verify(Reload(s.0).value, t, cas, {}) == Accepted <==>
                   && c.details.labels == [] && labels == []
                   && ca.details.notBefore <= now <= t <= end <= ca.details.notAfter))
  {
    var n := Cert(RenewedDetails(c.details, name, labels, None, now), c.signature);
    var s := SignedBy(n, ca.details.publicKey, Some(ca));
    assert s.1;
    if Reload(s.0).Some? {
      IssuedAcceptedIff(n, ca, cas, {}, t);
    }
  }

  /** A labelled CA never loads, and a labelled leaf is never accepted once it has been stored. */
  lemma LabelledNeverTrusted(c: Cert, ca: Cert, cas: CaMap, t: int, now: int)
    requires c.details.labels != [] && PoolInvariant(cas) && Holds(cas, ca)
    requires SignedBy(c, ca.details.publicKey, Some(ca)).1
    ensures var signed := SignedBy(c, ca.details.publicKey, Some(ca)).0;
            Reload(signed).Some? ==> Verify(Reload(signed).value, t, cas, {}) != Accepted
    ensures Storable(c) && SelfSigned(c) ==> Load(map[], false, ToPEM(c).value, now) == LoadFailed
  {
    if Reload(SignedBy(c, ca.details.publicKey, Some(ca)).0).Some? {
      IssuedAcceptedIff(c, ca, cas, {}, t);
    }
    if Storable(c) && SelfSigned(c) {
      SingleCALoads(c, now);
    }
  }
}
