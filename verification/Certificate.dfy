/**
 Certificates: certificate.go.

 Strings are byte strings, one char per byte. A protobuf encoding is taken to be the record it
 encodes, a SHA-256 digest the record it was computed from, and an Ed25519 signature the public key
 and the message it was made for. Times are nanoseconds since the Unix epoch.
 */
module Certificate {
  import opened Bytes

  // ------------------------------------------------------------------ labels

  datatype Label = Label(key: string, value: string)

  const BLANK := Label("", "")

  function Print(l: Label): string {
    if l.key == "" then "" else l.key + "=" + l.value
  }

  // The index of the first '=', or the length if there is none.
  function IndexOfEq(s: string): (i: nat)
    ensures i <= |s| && (forall k :: 0 <= k < i ==> s[k] != '=') && (i < |s| ==> s[i] == '=')
  {
    if s == "" || s[0] == '=' then 0 else 1 + IndexOfEq(s[1..])
  }

  // `UnmarshalText` on a fresh label; note the key slice ends one byte early.
  function ParseLabel(s: string): Option<Label> {
    if s == "" then Some(BLANK)
    else
      var i := IndexOfEq(s);
      if i == |s| || i < 1 then None
      else Some(Label(s[..i - 1], if i < |s| - 1 then s[i + 1..] else ""))
  }

  lemma EqOfPrint(l: Label)
    requires l.key != ""
    ensures IndexOfEq(Print(l)) == IndexOfEq(l.key)
  {
    var s, i, j := Print(l), IndexOfEq(l.key), IndexOfEq(Print(l));
    assert s[i] == '=';
    assert forall k :: 0 <= k < i ==> s[k] == l.key[k];
  }

  /** Label law: parse after print keeps the value and drops exactly the last byte of a key without
      '='. A key that holds one is cut in front of it, and one that starts with it does not parse. */
  lemma LabelPrintParse(l: Label)
    requires l.key != ""
    ensures '=' !in l.key ==> ParseLabel(Print(l)) == Some(Label(l.key[..|l.key| - 1], l.value))
    ensures '=' in l.key ==>
              var i := IndexOfEq(l.key);
              ParseLabel(Print(l)) ==
              if i == 0 then None else Some(Label(l.key[..i - 1], l.key[i + 1..] + "=" + l.value))
    ensures ParseLabel(Print(l)).Some? <==> l.key[0] != '='
  {
    EqOfPrint(l);
    if IndexOfEq(l.key) < |l.key| {
      assert l.key[IndexOfEq(l.key)] == '=';
      PrintWithEq(l);
    } else {
      PrintWithoutEq(l);
    }
  }

  lemma PrintWithEq(l: Label)
    requires l.key != "" && IndexOfEq(Print(l)) == IndexOfEq(l.key) < |l.key|
    ensures var i := IndexOfEq(l.key);
            ParseLabel(Print(l)) ==
            if i == 0 then None else Some(Label(l.key[..i - 1], l.key[i + 1..] + "=" + l.value))
  {
    var s, i := Print(l), IndexOfEq(l.key);
    assert i > 0 ==> s[..i - 1] == l.key[..i - 1];
    assert s[i + 1..] == l.key[i + 1..] + "=" + l.value;
  }

  lemma PrintWithoutEq(l: Label)
    requires l.key != "" && IndexOfEq(Print(l)) == IndexOfEq(l.key) == |l.key|
    ensures ParseLabel(Print(l)) == Some(Label(l.key[..|l.key| - 1], l.value))
  {
    var s, i := Print(l), |l.key|;
    assert s[..i - 1] == l.key[..i - 1];
    assert s[i + 1..] == l.value;
  }

  // k applications of a partial function, where they succeed.
  function Iterate<T>(f: T -> Option<T>, x: T, k: nat): Option<T> {
    if k == 0 then Some(x)
    else
      var y := Iterate(f, x, k - 1);
      if y.None? then None else f(y.value)
  }

  lemma {:induction false} IterateFollows<T>(f: T -> Option<T>, g: nat -> T, k: nat)
    requires forall j: nat :: f(g(j)) == Some(g(j + 1))
    ensures Iterate(f, g(0), k) == Some(g(k))
  {
    if k > 0 {
      IterateFollows(f, g, k - 1);
      assert f(g(k - 1)) == Some(g(k - 1 + 1));
    }
  }

  // One round of printing and parsing.
  function Round(l: Label): Option<Label> {
    ParseLabel(Print(l))
  }

  function Eroded(l: Label, k: nat): Label {
    if k == 0 then l else if k <= |l.key| then Label(l.key[..|l.key| - k], l.value) else BLANK
  }

  // One more round takes the next byte.
  lemma OneMoreRound(l: Label, k: nat)
    requires '=' !in l.key
    ensures Round(Eroded(l, k)) == Some(Eroded(l, k + 1))
  {
    var e := Eroded(l, k);
    if e.key != "" {
      LabelPrintParse(e);
      assert k > 0 ==> l.key[..|l.key| - k][..|l.key| - k - 1] == l.key[..|l.key| - (k + 1)];
    }
  }

  /** A key of length m without '=' loses one byte a round, is the blank label after m + 1 rounds and
      stays blank. */
  lemma LabelErodes(l: Label, k: nat)
    requires '=' !in l.key
    ensures Iterate(Round, l, k) ==
            Some(if k == 0 then l else if k <= |l.key| then Label(l.key[..|l.key| - k], l.value) else BLANK)
  {
    var g := (j: nat) => Eroded(l, j);
    forall j: nat ensures Round(g(j)) == Some(g(j + 1)) {
      OneMoreRound(l, j);
    }
    IterateFollows(Round, g, k);
  }

  // ------------------------------------------------------------------ records

  const KEY_LEN := 32

  // A name, and whether IDNA lookup accepts it.
  datatype Name = Name(text: string, idna: bool)

  datatype Digest = Sum(of: Raw) | OtherDigest(id: nat)

  // Issuers and fingerprints as text: empty, hexadecimal digits of a digest, or anything else.
  datatype HexText = NoText | Hex(digest: Digest) | NotHex(text: string)

  datatype Signature = NoSignature | Signed(key: seq<byte>, msg: RawDetails) | OtherBytes(id: nat)

  datatype RawDetails = RawDetails(
    name: Name, labels: seq<string>, notBefore: int, notAfter: int,
    publicKey: seq<byte>, isCA: bool, issuer: Option<Digest>)

  datatype Raw = Raw(details: Option<RawDetails>, signature: Signature)

  // Bytes handed to the protobuf decoder.
  datatype Encoded = NoBytes | Garbage | Proto(raw: Raw)

  datatype Details = Details(
    name: Name, labels: seq<Label>, notBefore: int, notAfter: int,
    publicKey: seq<byte>, isCA: bool, issuer: HexText)

  datatype Cert = Cert(details: Details, signature: Signature)

  const TWO63 := 0x8000_0000_0000_0000

  predicate InInt64(x: int) { -TWO63 <= x < TWO63 }

  // A 64-bit nanosecond count wraps around.
  function Wrap64(x: int): (r: int)
    ensures InInt64(r) && (InInt64(x) ==> r == x)
  {
    (x + TWO63) % (2 * TWO63) - TWO63
  }

  function DecodeIssuer(h: HexText): Option<Option<Digest>> {
    match h
    case NoText => Some(None)
    case Hex(d) => Some(Some(d))
    case NotHex(_) => None
  }

  function EncodeIssuer(d: Option<Digest>): HexText {
    if d.None? then NoText else Hex(d.value)
  }

  // ------------------------------------------------------------------ serialising and parsing

  function PrintAll(ls: seq<Label>): (ss: seq<string>)
    ensures |ss| == |ls|
  {
    if ls == [] then [] else PrintAll(ls[..|ls| - 1]) + [Print(ls[|ls| - 1])]
  }

  function ParseAll(ss: seq<string>): (r: Option<seq<Label>>)
    ensures r.Some? ==> |r.value| == |ss|
  {
    if ss == [] then Some([])
    else
      var init, l := ParseAll(ss[..|ss| - 1]), ParseLabel(ss[|ss| - 1]);
      if init.None? || l.None? then None else Some(init.value + [l.value])
  }

  // What `make` gives before anything is appended.
  function Blanks(n: nat): (ss: seq<string>)
    ensures |ss| == n
  {
    if n == 0 then [] else Blanks(n - 1) + [""]
  }

  function BlankLabels(n: nat): (ls: seq<Label>)
    ensures |ls| == n
  {
    if n == 0 then [] else BlankLabels(n - 1) + [BLANK]
  }

  // `getDetailsRaw`: the printed labels are appended to as many empty strings.
  function DetailsRaw(d: Details): Option<RawDetails> {
    if d.issuer.NotHex? || !d.name.idna then None
    else Some(RawDetails(d.name, Blanks(|d.labels|) + PrintAll(d.labels), Wrap64(d.notBefore), Wrap64(d.notAfter),
                         d.publicKey, d.isCA, DecodeIssuer(d.issuer).value))
  }

  function Marshal(c: Cert): Option<Encoded> {
    var dr := DetailsRaw(c.details);
    if dr.None? then None else Some(Proto(Raw(dr, c.signature)))
  }

  // `UnmarshalAetherportCertificate`: the parsed labels are appended to as many blank ones.
  function Unmarshal(e: Encoded): Option<Cert> {
    if !e.Proto? || e.raw.details.None? then None
    else
      var r := e.raw.details.value;
      var ls := ParseAll(r.labels);
      if ls.None? || |r.publicKey| < KEY_LEN || !r.name.idna then None
      else Some(Cert(Details(r.name, BlankLabels(|r.labels|) + ls.value, r.notBefore, r.notAfter,
                             r.publicKey, r.isCA, EncodeIssuer(r.issuer)), e.raw.signature))
  }

  method GetDetailsRaw(d: Details) returns (r: Option<RawDetails>)
    ensures r == DetailsRaw(d)
  {
    var labels := Blanks(|d.labels|);
    for i := 0 to |d.labels|
      invariant labels == Blanks(|d.labels|) + PrintAll(d.labels[..i])
    {
      labels := labels + [Print(d.labels[i])];
      assert d.labels[..i + 1][..i] == d.labels[..i];
    }
    assert d.labels[..|d.labels|] == d.labels;
    var issuer := DecodeIssuer(d.issuer);
    if issuer.None? || !d.name.idna {
      return None;
    }
    r := Some(RawDetails(d.name, labels, Wrap64(d.notBefore), Wrap64(d.notAfter), d.publicKey, d.isCA, issuer.value));
  }

  lemma ParseSnoc(ss: seq<string>, s: string)
    ensures ParseAll(ss + [s]) ==
            if ParseAll(ss).None? || ParseLabel(s).None? then None else Some(ParseAll(ss).value + [ParseLabel(s).value])
  {
    assert (ss + [s])[..|ss|] == ss;
  }

  lemma {:induction false} NoneStays(ss: seq<string>, i: nat)
    requires i <= |ss| && ParseAll(ss[..i]).None?
    ensures ParseAll(ss).None?
  {
    if i < |ss| {
      assert ss[..|ss| - 1][..i] == ss[..i];
      NoneStays(ss[..|ss| - 1], i);
    } else {
      assert ss[..i] == ss;
    }
  }

  lemma ParseNext(ss: seq<string>, i: nat)
    requires i < |ss|
    ensures ParseAll(ss[..i + 1]) ==
            if ParseAll(ss[..i]).None? || ParseLabel(ss[i]).None? then None
            else Some(ParseAll(ss[..i]).value + [ParseLabel(ss[i]).value])
  {
    ParseSnoc(ss[..i], ss[i]);
    assert ss[..i + 1] == ss[..i] + [ss[i]];
  }

  // The label loop: blank labels first, then the parsed ones appended to them.
  method AppendParsed(ss: seq<string>) returns (r: Option<seq<Label>>)
    ensures r == if ParseAll(ss).None? then None else Some(BlankLabels(|ss|) + ParseAll(ss).value)
  {
    var blanks := BlankLabels(|ss|);
    var labels := blanks;
    ghost var parsed := [];
    assert ss[..0] == [] && labels == blanks + parsed;
    for i := 0 to |ss|
      invariant ParseAll(ss[..i]) == Some(parsed) && labels == blanks + parsed
    {
      var l := ParseLabel(ss[i]);
      ParseNext(ss, i);
      if l.None? {
        NoneStays(ss, i + 1);
        return None;
      }
      Assoc(blanks, parsed, [l.value]);
      parsed := parsed + [l.value];
      labels := labels + [l.value];
    }
    assert ss[..|ss|] == ss;
    r := Some(labels);
  }

  method UnmarshalAetherportCertificate(e: Encoded) returns (r: Option<Cert>)
    ensures r == Unmarshal(e)
  {
    if !e.Proto? || e.raw.details.None? {
      return None;
    }
    var raw := e.raw.details.value;
    var labels := AppendParsed(raw.labels);
    if labels.None? || |raw.publicKey| < KEY_LEN || !raw.name.idna {
      return None;
    }
    r := Some(Cert(Details(raw.name, labels.value, raw.notBefore, raw.notAfter, raw.publicKey, raw.isCA,
                           EncodeIssuer(raw.issuer)), e.raw.signature));
  }

  function Reload(c: Cert): Option<Cert> {
    var e := Marshal(c);
    if e.None? then None else Unmarshal(e.value)
  }

  function Fingerprint(c: Cert): HexText {
    var e := Marshal(c);
    if e.None? then NoText else Hex(Sum(e.value.raw))
  }

  // Ed25519 verification; the library panics on keys that are not 32 bytes long.
  predicate CheckSignature(c: Cert, key: seq<byte>)
    requires |key| == KEY_LEN
  {
    DetailsRaw(c.details).Some? && c.signature == Signed(key, DetailsRaw(c.details).value)
  }

  // What a certificate needs to survive a trip unchanged.
  predicate Storable(c: Cert) {
    && c.details.name.idna && !c.details.issuer.NotHex?
    && InInt64(c.details.notBefore) && InInt64(c.details.notAfter)
    && |c.details.publicKey| >= KEY_LEN
  }

  lemma {:induction false} BlanksParse(n: nat)
    ensures ParseAll(Blanks(n)) == Some(BlankLabels(n))
  {
    if n > 0 {
      BlanksParse(n - 1);
      ParseSnoc(Blanks(n - 1), "");
    }
  }

  lemma AfterBlanksSnoc(n: nat, init: seq<string>, s: string)
    requires ParseAll(Blanks(n) + init) ==
             if ParseAll(init).None? then None else Some(BlankLabels(n) + ParseAll(init).value)
    ensures ParseAll(Blanks(n) + (init + [s])) ==
            if ParseAll(init + [s]).None? then None else Some(BlankLabels(n) + ParseAll(init + [s]).value)
  {
    ParseSnoc(Blanks(n) + init, s);
    ParseSnoc(init, s);
    Assoc(Blanks(n), init, [s]);
    if ParseAll(init + [s]).Some? {
      Assoc(BlankLabels(n), ParseAll(init).value, [ParseLabel(s).value]);
    }
  }

  // A property that appending keeps.
  lemma {:induction false} SnocInduction<T(!new)>(p: seq<T> -> bool, s: seq<T>)
    requires p([]) && forall init, x :: p(init) ==> p(init + [x])
    ensures p(s)
  {
    if s != [] {
      var init, x := s[..|s| - 1], s[|s| - 1];
      SnocInduction(p, init);
      assert s == init + [x];
    }
  }

  lemma ParseAfterBlanks(n: nat, ss: seq<string>)
    ensures ParseAll(Blanks(n) + ss) ==
            if ParseAll(ss).None? then None else Some(BlankLabels(n) + ParseAll(ss).value)
  {
    var p := (ss: seq<string>) =>
      ParseAll(Blanks(n) + ss) == if ParseAll(ss).None? then None else Some(BlankLabels(n) + ParseAll(ss).value);
    assert p([]) by {
      assert Blanks(n) + [] == Blanks(n) && BlankLabels(n) + [] == BlankLabels(n);
      BlanksParse(n);
    }
    forall init, s | p(init) ensures p(init + [s]) {
      AfterBlanksSnoc(n, init, s);
    }
    SnocInduction(p, ss);
  }

  predicate Parses(l: Label) {
    l.key == "" || l.key[0] != '='
  }

  lemma PrintedSnoc(init: seq<Label>, l: Label)
    ensures ParseAll(PrintAll(init + [l])).Some? <==> ParseAll(PrintAll(init)).Some? && Parses(l)
  {
    assert (init + [l])[..|init|] == init;
    assert PrintAll(init + [l]) == PrintAll(init) + [Print(l)];
    ParseSnoc(PrintAll(init), Print(l));
    if l.key != "" { LabelPrintParse(l); }
  }

  // A property of lists that each element decides for itself.
  lemma {:induction false} ElementWise<T(!new)>(p: seq<T> -> bool, q: T -> bool, s: seq<T>)
    requires p([]) && forall init, x :: p(init + [x]) == (p(init) && q(x))
    ensures p(s) <==> forall i :: 0 <= i < |s| ==> q(s[i])
  {
    if s != [] {
      var init, x := s[..|s| - 1], s[|s| - 1];
      ElementWise(p, q, init);
      assert s == init + [x];
      assert forall i :: 0 <= i < |init| ==> s[i] == init[i];
    }
  }

  // Printed labels all parse back exactly when no key starts with '='.
  lemma PrintedLabelsParse(ls: seq<Label>)
    ensures ParseAll(PrintAll(ls)).Some? <==> forall i :: 0 <= i < |ls| ==> Parses(ls[i])
  {
    var p := (ls: seq<Label>) => ParseAll(PrintAll(ls)).Some?;
    var q := (l: Label) => Parses(l);
    forall init, l ensures p(init + [l]) == (p(init) && q(l)) {
      PrintedSnoc(init, l);
    }
    ElementWise(p, q, ls);
    assert forall i :: 0 <= i < |ls| ==> q(ls[i]) == Parses(ls[i]);
  }

  // The labels after one trip.
  function ReloadLabels(ls: seq<Label>): Option<seq<Label>> {
    var parsed := ParseAll(PrintAll(ls));
    if parsed.None? then None else Some(BlankLabels(2 * |ls|) + (BlankLabels(|ls|) + parsed.value))
  }

  /** One trip keeps the signature and all details except the labels, of which n become 4n: n empty
      strings are put in front when printing and 2n blank labels when parsing, so that 3n blank ones
      precede the parsed ones. Times are reduced to 64 bits. */
  lemma ReloadLaw(c: Cert)
    ensures var d := c.details;
            Reload(c) ==
            if d.name.idna && !d.issuer.NotHex? && |d.publicKey| >= KEY_LEN && ReloadLabels(d.labels).Some?
            then Some(Cert(d.(labels := ReloadLabels(d.labels).value, notBefore := Wrap64(d.notBefore),
                              notAfter := Wrap64(d.notAfter)), c.signature))
            else None
  {
    var n, printed := |c.details.labels|, PrintAll(c.details.labels);
    ParseAfterBlanks(n, printed);
    assert |Blanks(n) + printed| == 2 * n;
  }

  lemma LabelsQuadruple(c: Cert)
    requires Reload(c).Some?
    ensures |Reload(c).value.details.labels| == 4 * |c.details.labels|
  {
    ReloadLaw(c);
  }

  lemma NoLabels()
    ensures ReloadLabels([]) == Some([])
  {
    assert PrintAll([]) == [] && ParseAll([]) == Some([]) && BlankLabels(0) == [];
    assert BlankLabels(0) + (BlankLabels(0) + []) == [];
  }

  /** Round trip law: parse after serialise is the identity exactly on storable certificates without
      labels; it then preserves the fingerprint and the signature check as well. */
  lemma RoundTripIdentity(c: Cert)
    ensures Reload(c) == Some(c) <==> Storable(c) && c.details.labels == []
  {
    ReloadLaw(c);
    NoLabels();
  }

  // 4^k * n
  function Times4(k: nat, n: nat): nat {
    if k == 0 then n else 4 * Times4(k - 1, n)
  }

  /** k successful trips turn n labels into 4^k * n. */
  lemma LabelsAfterTrips(trips: seq<Cert>)
    requires trips != [] && forall i :: 0 <= i < |trips| - 1 ==> Reload(trips[i]) == Some(trips[i + 1])
    ensures forall k :: 0 <= k < |trips| ==> |trips[k].details.labels| == Times4(k, |trips[0].details.labels|)
  {
    for k := 0 to |trips| - 1
      invariant forall i :: 0 <= i <= k ==> |trips[i].details.labels| == Times4(i, |trips[0].details.labels|)
    {
      assert Reload(trips[k]) == Some(trips[k + 1]);
      LabelsQuadruple(trips[k]);
    }
  }

  /** A signed certificate that reloads still checks out if and only if it has no labels. */
  lemma SignatureSurvivesIffUnlabelled(c: Cert, key: seq<byte>)
    requires |key| == KEY_LEN && CheckSignature(c, key) && Reload(c).Some?
    requires InInt64(c.details.notBefore) && InInt64(c.details.notAfter)
    ensures CheckSignature(Reload(c).value, key) <==> c.details.labels == []
  {
    ReloadLaw(c);
    if c.details.labels == [] {
      assert Reload(c) == Some(c) by { RoundTripIdentity(c); }
    } else {
      RawLabelCount(c.details);
      RawLabelCount(Reload(c).value.details);
    }
  }

  lemma RawLabelCount(d: Details)
    ensures DetailsRaw(d).Some? ==> |DetailsRaw(d).value.labels| == 2 * |d.labels|
  {
  }

  // ------------------------------------------------------------------ any encoding

  // A label on the wire that parses: empty, or a non-empty key in front of '='.
  predicate LabelText(s: string) {
    s == "" || (s[0] != '=' && '=' in s)
  }

  lemma LabelParsesIff(s: string)
    ensures ParseLabel(s).Some? <==> LabelText(s)
  {
    var i := IndexOfEq(s);
    if s != "" && i < |s| {
      assert s[i] == '=';
    }
  }

  lemma {:induction false} LabelsParseIff(ss: seq<string>)
    ensures ParseAll(ss).Some? <==> forall i :: 0 <= i < |ss| ==> LabelText(ss[i])
  {
    if ss != [] {
      LabelsParseIff(ss[..|ss| - 1]);
      LabelParsesIff(ss[|ss| - 1]);
      assert ss == ss[..|ss| - 1] + [ss[|ss| - 1]];
    }
  }

  /** Which encodings parse, of all there are: those of a record with details whose labels are texts
      of labels, whose key has its length at least, and whose name is accepted. */
  lemma ParsesIff(e: Encoded)
    ensures Unmarshal(e).Some? <==>
            && e.Proto? && e.raw.details.Some?
            && var d := e.raw.details.value;
               |d.publicKey| >= 32 && d.name.idna && forall i :: 0 <= i < |d.labels| ==> LabelText(d.labels[i])
  {
    if e.Proto? && e.raw.details.Some? {
      LabelsParseIff(e.raw.details.value.labels);
    }
  }

  /** What was parsed is written back as it came exactly when it had no labels; wire times are 64-bit. */
  lemma ParsedWritesBack(e: Encoded)
    requires Unmarshal(e).Some?
    requires InInt64(e.raw.details.value.notBefore) && InInt64(e.raw.details.value.notAfter)
    ensures Marshal(Unmarshal(e).value) == Some(e) <==> e.raw.details.value.labels == []
  {
    var c := Unmarshal(e).value;
    RawLabelCount(c.details);
    if e.raw.details.value.labels == [] {
      NoLabels();
    }
  }

  // ------------------------------------------------------------------ signing

  // `Sign` as a function of the old value: the new value and whether it succeeded. The issuer is
  // set first and stays set when serialising the details then fails.
  function SignedBy(c: Cert, key: seq<byte>, ca: Option<Cert>): (Cert, bool) {
    if ca.Some? && Marshal(ca.value).None? then (c.(details := c.details.(issuer := NoText)), false)
    else
      var d := if ca.Some? then c.details.(issuer := Fingerprint(ca.value)) else c.details;
      var r := DetailsRaw(d);
      if r.None? then (c.(details := d), false) else (Cert(d, Signed(key, r.value)), true)
  }

  // What the serialised certificate needs: a name that IDNA lookup accepts, and a readable issuer.
  predicate Serialises(d: Details) {
    d.name.idna && !d.issuer.NotHex?
  }

  /** Signing succeeds exactly when the name is accepted and the issuer, which is the signer's
      certificate if one is given and can be serialised itself, is readable. A failure keeps the old
      signature, but the issuer has been set. */
  lemma SignsIff(c: Cert, key: seq<byte>, ca: Option<Cert>)
    ensures SignedBy(c, key, ca).1 <==>
            if ca.Some? then c.details.name.idna && Serialises(ca.value.details) else Serialises(c.details)
    ensures SignedBy(c, key, ca).0.details ==
            c.details.(issuer := if ca.Some? then Fingerprint(ca.value) else c.details.issuer)
    ensures !SignedBy(c, key, ca).1 ==> SignedBy(c, key, ca).0.signature == c.signature
  {
  }

  /** A successful signature verifies under the signer's key and names the signer's certificate. */
  lemma SignVerifies(c: Cert, key: seq<byte>, ca: Option<Cert>)
    requires |key| == KEY_LEN && SignedBy(c, key, ca).1
    ensures CheckSignature(SignedBy(c, key, ca).0, key)
    ensures SignedBy(c, key, ca).0.details ==
            c.details.(issuer := if ca.Some? then Fingerprint(ca.value) else c.details.issuer)
  {
  }

  class AetherportCertificate {
    var details: Details
    var signature: Signature

    function Value(): Cert reads this { Cert(details, signature) }

    constructor (details: Details)
      ensures Value() == Cert(details, NoSignature)
    {
      this.details, signature := details, NoSignature;
    }

    constructor Of(c: Cert)
      ensures Value() == c
    {
      details, signature := c.details, c.signature;
    }

    method Sign(key: seq<byte>, ca: Option<Cert>) returns (ok: bool)
      modifies this
      ensures (Value(), ok) == SignedBy(old(Value()), key, ca)
      ensures details == old(details).(issuer := if ca.Some? then Fingerprint(ca.value) else old(details).issuer)
      ensures if ok then |key| == KEY_LEN ==> CheckSignature(Value(), key) else signature == old(signature)
    {
      if ca.Some? {
        details := details.(issuer := Fingerprint(ca.value));
        if Marshal(ca.value).None? {
          return false;
        }
      }
      var r := GetDetailsRaw(details);
      if r.None? {
        return false;
      }
      signature := Signed(key, r.value);
      ok := true;
    }
  }
}
