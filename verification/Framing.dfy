/**
 The length-prefixed frame format of messenger-chunked-io.go.

 A frame is the payload length in 1 to 8 little-endian bytes, a newline unless all 8 bytes are
 used, and the payload. The newline is searched for from the second byte on, so a length byte
 that happens to equal it ends the header early; the laws below say exactly when.
 */
module Framing {
  import opened Bytes

  const NEWLINE: byte := 0x0a

  function Width(n: nat): nat {
    if n < 0x100 then 1
    else if n < 0x1_0000 then 2
    else if n < 0x100_0000 then 3
    else if n < 0x1_0000_0000 then 4
    else if n < 0x100_0000_0000 then 5
    else if n < 0x1_0000_0000_0000 then 6
    else if n < 0x100_0000_0000_0000 then 7
    else 8
  }

  function HeaderLen(w: nat): nat {
    if w < 8 then w + 1 else w
  }

  function Header(n: nat): (h: seq<byte>)
    ensures |h| == HeaderLen(Width(n))
  {
    var w := Width(n);
    LowBytes(n, w) + if w < 8 then [NEWLINE] else []
  }

  function Frame(payload: seq<byte>): seq<byte> {
    Header(|payload|) + payload
  }

  // The writer picks the least width that holds n.
  lemma WidthIsLeast(n: nat)
    requires n < INT_LIMIT
    ensures 1 <= Width(n) <= 8 && n < Pow256(Width(n))
    ensures forall w :: 1 <= w <= 8 && n < Pow256(w) ==> Width(n) <= w
  {
    Pow256Table();
    forall w | 1 <= w <= 8 && n < Pow256(w) ensures Width(n) <= w {
      if w == 1 {} else if w == 2 {} else if w == 3 {} else if w == 4 {}
      else if w == 5 {} else if w == 6 {} else if w == 7 {}
    }
  }

  // A slice of two bytes or more always has room for its own header.
  lemma HeaderFits(n: nat)
    requires 2 <= n
    ensures HeaderLen(Width(n)) <= n
  {
  }

  // ---------------------------------------------------------------- writing

  datatype WriteResult = Wrote(wire: seq<byte>) | Panicked

  /** `append(b[:h], b...)` on the slice a[..n]: shifts the payload h places inside the same array
      when it has room, and otherwise into a new array that starts with the same h elements. */
  method Shift(a: array<byte>, n: nat, h: nat) returns (b: array<byte>)
    requires n <= a.Length && h <= a.Length
    modifies a
    ensures b.Length >= h + n && b[h..h + n] == old(a[..n])
    ensures b == a <==> h + n <= a.Length
    ensures b == a ==> a[h + n..] == old(a[h + n..])
    ensures b != a ==> fresh(b) && b.Length == h + n && a[..] == old(a[..])
  {
    if h + n <= a.Length {
      b := a;
      forall k | 0 <= k < n { a[h + k] := a[k]; }
    } else {
      b := new byte[h + n];
      forall k | 0 <= k < h { b[k] := a[k]; }
      forall k | 0 <= k < n { b[h + k] := a[k]; }
    }
  }

  // The delimiter and the cascade of length bytes, written over the first bytes of b.
  method PutHeader(b: array<byte>, n: nat)
    requires HeaderLen(Width(n)) <= b.Length
    modifies b
    ensures b[..HeaderLen(Width(n))] == Header(n)
    ensures b[HeaderLen(Width(n))..] == old(b[HeaderLen(Width(n))..])
  {
    var w := Width(n);
    if w < 8 {
      b[w] := NEWLINE;
    }
    ghost var bytes := LowBytes(n, w);
    var rest := n;
    for k := 0 to w
      invariant LowBytes(rest, w - k) == bytes[k..]
      invariant forall i :: 0 <= i < k ==> b[i] == bytes[i]
      invariant forall i :: w <= i < HeaderLen(w) ==> b[i] == NEWLINE
      invariant forall i :: HeaderLen(w) <= i < b.Length ==> b[i] == old(b[i])
    {
      NextByte(rest, w - k);
      assert bytes[k..][0] == bytes[k] && bytes[k..][1..] == bytes[k + 1..];
      b[k] := rest % 256;
      rest := rest / 256;
    }
    IsHeader(b[..HeaderLen(w)], n);
  }

  lemma NextByte(n: nat, w: nat)
    requires w > 0
    ensures LowBytes(n, w)[0] == n % 256 && LowBytes(n, w)[1..] == LowBytes(n / 256, w - 1)
  {
  }

  lemma IsHeader(h: seq<byte>, n: nat)
    requires |h| == HeaderLen(Width(n))
    requires forall i :: 0 <= i < Width(n) ==> h[i] == LowBytes(n, Width(n))[i]
    requires forall i :: Width(n) <= i < |h| ==> h[i] == NEWLINE
    ensures h == Header(n)
  {
  }

  lemma Stitch(b: seq<byte>, h: nat, n: nat, header: seq<byte>, shifted: seq<byte>, payload: seq<byte>)
    requires h + n <= |b| && b[..h] == header && b[h..] == shifted && payload == shifted[..n]
    ensures b[..h + n] == header + payload && b[h + n..] == shifted[n..]
    ensures b == (header + payload) + shifted[n..]
  {
    assert b == b[..h] + b[h..];
    assert b[h..h + n] == b[h..][..n];
  }

  lemma PrefixOfSuffix(b: seq<byte>, h: nat, n: nat)
    requires h + n <= |b|
    ensures b[h..][..n] == b[h..h + n]
  {
  }

  /** `write` on the Go slice holding the first n elements of `a`, whose capacity is a.Length.
      Reslicing past the capacity panics; nothing else can go wrong before the transport. */
  method Write(a: array<byte>, n: nat) returns (r: WriteResult)
    requires n <= a.Length < INT_LIMIT
    modifies a
    ensures r.Panicked? <==> a.Length < 2
    ensures r.Wrote? ==> r.wire == Frame(old(a[..n]))
    ensures r.Wrote? && |r.wire| <= a.Length ==> a[..] == r.wire + old(a[|r.wire|..])
    ensures r.Panicked? || |r.wire| > a.Length ==> a[..] == old(a[..])
  {
    var h := HeaderLen(Width(n));
    if a.Length < h {
      return Panicked;
    }
    var b := Shift(a, n, h);
    ghost var shifted := b[h..];
    PrefixOfSuffix(b[..], h, n);
    PutHeader(b, n);
    Stitch(b[..], h, n, Header(n), shifted, shifted[..n]);
    r := Wrote(b[..h + n]);
  }

  // ---------------------------------------------------------------- reading

  // The number of length bytes the reader takes from its peeked bytes: it stops in front of the
  // first newline at index 1 or later, or at the end of what it peeked.
  function Stop(p: seq<byte>, from: nat): (j: nat)
    requires 1 <= from <= |p|
    ensures from <= j <= |p|
    ensures forall k :: from <= k < j ==> p[k] != NEWLINE
    ensures j < |p| ==> p[j] == NEWLINE
    decreases |p| - from
  {
    if from == |p| || p[from] == NEWLINE then from else Stop(p, from + 1)
  }

  // The decoding closure of `read`: or-ing in byte k shifted left by 8k adds byte k times 256^k.
  method DecodeHeader(p: seq<byte>) returns (nbl: nat, n: nat)
    requires 1 <= |p| <= 8
    ensures nbl == Stop(p, 1)
    ensures n == Value(p[..nbl])
  {
    nbl, n := 1, p[0];
    var scale: nat := 256;
    assert p[..1] == [p[0]];
    while nbl < |p| && p[nbl] != NEWLINE
      invariant 1 <= nbl <= |p|
      invariant Stop(p, nbl) == Stop(p, 1)
      invariant n == Value(p[..nbl]) && scale == Pow256(nbl)
    {
      ValueSnoc(p[..nbl], p[nbl]);
      assert p[..nbl + 1] == p[..nbl] + [p[nbl]];
      n := n + p[nbl] * scale;
      scale := scale * 256;
      nbl := nbl + 1;
    }
  }

  datatype Outcome = Ok(payload: seq<byte>) | Failed | Crashed

  function Head(s: seq<byte>): seq<byte> {
    s[..Min(8, |s|)]
  }

  function LengthBytes(s: seq<byte>): (w: nat)
    requires s != []
    ensures 1 <= w <= |Head(s)|
  {
    Stop(Head(s), 1)
  }

  // Where the frame at the front of s ends, header included, by what its header announces.
  function FrameEnd(s: seq<byte>): nat
    requires s != []
  {
    HeaderLen(LengthBytes(s)) + Value(s[..LengthBytes(s)])
  }

  lemma FrameEndOfHead(s: seq<byte>, t: seq<byte>)
    requires s != [] && Head(s) == Head(t)
    ensures t != [] && LengthBytes(s) == LengthBytes(t) && FrameEnd(s) == FrameEnd(t)
  {
    var w := LengthBytes(s);
    assert s[..w] == Head(s)[..w] == t[..w];
  }

  // What `read` returns when the transport goes on to deliver exactly the bytes s and then ends:
  // Failed is an error, Crashed an allocation or slice bound that does not fit a Go int.
  function Parse(s: seq<byte>): Outcome {
    if |s| < 2 then Failed
    else if FrameEnd(s) >= INT_LIMIT then Crashed
    else if |s| < FrameEnd(s) then Failed
    else Ok(s[HeaderLen(LengthBytes(s))..FrameEnd(s)])
  }

  // A length is good when none of its bytes above the lowest reads as the newline.
  predicate Good(n: nat) {
    var bs := LowBytes(n, Width(n));
    forall k :: 1 <= k < |bs| ==> bs[k] != NEWLINE
  }

  // The index at which a reader of n's header stops.
  function StopOf(n: nat): (j: nat)
    ensures 1 <= j <= Width(n)
    ensures j == Width(n) <==> Good(n)
  {
    Stop(LowBytes(n, Width(n)), 1)
  }

  lemma StopIsUnique(p: seq<byte>, from: nat, j: nat)
    requires 1 <= from <= j <= |p|
    requires forall k :: from <= k < j ==> p[k] != NEWLINE
    requires j < |p| ==> p[j] == NEWLINE
    ensures Stop(p, from) == j
  {
  }

  /** Header exactness: the reader stops at StopOf(n), where it has read n modulo 256^j, and
      recovers both the width and n if and only if n is good. */
  lemma HeaderExactness(n: nat, rest: seq<byte>)
    requires n < INT_LIMIT
    ensures var s := Header(n) + rest;
            && |s| >= 2
            && LengthBytes(s) == StopOf(n)
            && Value(s[..StopOf(n)]) == n % Pow256(StopOf(n))
            && ((LengthBytes(s) == Width(n) && Value(s[..LengthBytes(s)]) == n) <==> Good(n))
  {
    WidthIsLeast(n);
    var w, j := Width(n), StopOf(n);
    var bs, s := LowBytes(n, w), Header(n) + rest;
    assert forall k :: 0 <= k < w ==> s[k] == bs[k];
    assert w < 8 ==> s[w] == NEWLINE;
    StopIsUnique(Head(s), 1, j);
    assert s[..j] == bs[..j];
    ValueOfLowBytes(n, w, j);
    if j == w { ModUnique(n, Pow256(w), 0, n); }
  }

  lemma ModBelow(n: nat, j: nat)
    requires n < INT_LIMIT && 1 <= j < Width(n)
    ensures n % Pow256(j) < n
  {
    WidthIsLeast(n);
    assert !(n < Pow256(j));
  }

  /** Frame round trip: the payload comes back if and only if its length is good. Otherwise the
      reader still succeeds, with the bytes it takes for a shorter payload. */
  lemma FrameRoundTrip(payload: seq<byte>, rest: seq<byte>)
    requires |Frame(payload)| < INT_LIMIT
    ensures Parse(Frame(payload) + rest) == Ok(payload) <==> Good(|payload|)
    ensures var j := StopOf(|payload|); var m := |payload| % Pow256(j);
            && HeaderLen(j) + m <= |Frame(payload)|
            && Parse(Frame(payload) + rest) == Ok(Frame(payload)[HeaderLen(j)..HeaderLen(j) + m])
            && (!Good(|payload|) ==> m < |payload|)
  {
    var n, s := |payload|, Frame(payload) + rest;
    assert s == Header(n) + (payload + rest);
    HeaderExactness(n, payload + rest);
    var j := StopOf(n);
    if Good(n) {
      assert n % Pow256(j) == n;
      assert s[HeaderLen(j)..HeaderLen(j) + n] == payload;
    } else {
      ModBelow(n, j);
    }
  }

  // Bytes that hold a whole frame: a delimited header of width w and all the bytes it announces.
  predicate HoldsFrame(s: seq<byte>, w: int) {
    && 1 <= w <= 8 && |s| >= HeaderLen(w)
    && (forall k :: 1 <= k < w ==> s[k] != NEWLINE)
    && (w < 8 ==> s[w] == NEWLINE)
    && |s| >= HeaderLen(w) + Value(s[..w])
  }

  lemma WholeFramePasses(s: seq<byte>, w: nat)
    requires !Parse(s).Crashed? && HoldsFrame(s, w)
    ensures Parse(s) == Ok(s[HeaderLen(w)..HeaderLen(w) + Value(s[..w])])
  {
    StopIsUnique(Head(s), 1, w);
  }

  lemma OnlyWholeFramesPass(s: seq<byte>)
    requires Parse(s).Ok?
    ensures HoldsFrame(s, LengthBytes(s))
  {
    var w := LengthBytes(s);
    assert w == |Head(s)| ==> |Head(s)| == 8;
  }

  /** Truncation never passes: on any finite stream whose announced length fits, `read` succeeds
      exactly when a whole frame is there, and then returns exactly its payload. In particular the
      branches that decode a short peek without a delimiter always end in an error. */
  lemma TruncationNeverPasses(s: seq<byte>)
    requires !Parse(s).Crashed?
    ensures Parse(s).Ok? <==> exists w :: HoldsFrame(s, w)
    ensures forall w :: HoldsFrame(s, w) ==>
              Parse(s) == Ok(s[HeaderLen(w)..HeaderLen(w) + Value(s[..w])])
    ensures |s| < 8 && (forall k :: 1 <= k < |s| ==> s[k] != NEWLINE) ==> Parse(s) == Failed
  {
    if Parse(s).Ok? {
      OnlyWholeFramesPass(s);
    }
    forall w | HoldsFrame(s, w)
      ensures Parse(s) == Ok(s[HeaderLen(w)..HeaderLen(w) + Value(s[..w])])
    {
      WholeFramePasses(s, w);
    }
  }
}
