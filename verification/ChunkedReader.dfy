/**
 `chunkedIOMessenger.read` over a transport that hands out its bytes in read segments.

 `read` has a value receiver, so each call works on a copy of a buffered reader that is empty
 when the call starts, and whatever the call buffered past its frame is gone when it returns.
 */
module ChunkedReader {
  import opened Bytes
  import opened Framing
  import opened Segmented

  // Buffer size of a default bufio.Reader.
  const BUFFER: nat := 4096

  // What underlying reads will deliver.
  type Segments = Source<byte>

  // `Peek(8)`: fill the buffer until it holds 8 bytes or the stream ends.
  datatype Peeked = Peeked(buf: seq<byte>, segs: Segments)

  function Peek(segs: Segments, buf: seq<byte>): Peeked
    decreases |segs|, 8 - |buf|
  {
    if |buf| >= 8 || segs == [] then Peeked(buf, segs)
    else Peek(After(segs, BUFFER - |buf|), buf + Chunk(segs, BUFFER - |buf|))
  }

  // State of `io.ReadFull` on the buffered reader: bytes handed over, bytes buffered, transport.
  datatype Full = Full(got: seq<byte>, buf: seq<byte>, segs: Segments)

  // One `Read` of the buffered reader that still owes `need` bytes. An empty buffer is refilled
  // by one underlying read, which a large request bypasses.
  function FillOnce(f: Full, need: nat): Full
    requires need > 0 && (f.buf == [] ==> f.segs != [])
  {
    if f.buf == [] && need >= BUFFER then
      Full(f.got + Chunk(f.segs, need), [], After(f.segs, need))
    else
      var buf := if f.buf == [] then Chunk(f.segs, BUFFER) else f.buf;
      var segs := if f.buf == [] then After(f.segs, BUFFER) else f.segs;
      var k := Min(need, |buf|);
      Full(f.got + buf[..k], buf[k..], segs)
  }

  // `io.ReadFull` for `total` bytes; it gives up when the stream ends first.
  function ReadFull(f: Full, total: nat): Full
    requires NonEmpty(f.segs)
    decreases total - |f.got|
  {
    if |f.got| >= total || (f.buf == [] && f.segs == []) then f
    else
      var g := FillOnce(f, total - |f.got|);
      FillProgress(f, total - |f.got|);
      ReadFull(g, total)
  }

  lemma FillProgress(f: Full, need: nat)
    requires NonEmpty(f.segs) && need > 0 && (f.buf == [] ==> f.segs != [])
    ensures var g := FillOnce(f, need);
            && NonEmpty(g.segs)
            && |f.got| < |g.got| <= |f.got| + need
            && g.got + g.buf + Flatten(g.segs) == f.got + f.buf + Flatten(f.segs)
  {
    if f.buf == [] {
      TakeKeepsBytes(f.segs, if need >= BUFFER then need else BUFFER);
    }
  }

  // Result of one call: what it returns, what it threw away, what the transport still holds.
  datatype Call = Call(outcome: Outcome, lost: seq<byte>, segs: Segments)

  // Everything after the peek.
  function Finish(p: Peeked): Call
    requires NonEmpty(p.segs)
  {
    if |p.buf| < 2 then Call(Failed, p.buf, p.segs)
    else if FrameEnd(p.buf) >= INT_LIMIT then Call(Crashed, p.buf, p.segs)
    else
      var f := ReadFull(Full([], p.buf, p.segs), FrameEnd(p.buf));
      if |f.got| < FrameEnd(p.buf) then Call(Failed, f.buf, f.segs)
      else Call(Ok(f.got[HeaderLen(LengthBytes(p.buf))..]), f.buf, f.segs)
  }

  function ReadCall(segs: Segments): Call
    requires NonEmpty(segs)
  {
    PeekKeepsBytes(segs, []);
    Finish(Peek(segs, []))
  }

  lemma {:induction false} PeekKeepsBytes(segs: Segments, buf: seq<byte>)
    requires NonEmpty(segs)
    ensures var p := Peek(segs, buf);
            && NonEmpty(p.segs)
            && p.buf + Flatten(p.segs) == buf + Flatten(segs)
            && (|p.buf| < 8 ==> p.segs == [])
    decreases |segs|, 8 - |buf|
  {
    if |buf| < 8 && segs != [] {
      var chunk, after := Chunk(segs, BUFFER - |buf|), After(segs, BUFFER - |buf|);
      TakeKeepsBytes(segs, BUFFER - |buf|);
      PeekKeepsBytes(after, buf + chunk);
      Assoc(buf, chunk, Flatten(after));
    }
  }

  lemma {:induction false} ReadFullKeepsBytes(f: Full, total: nat)
    requires NonEmpty(f.segs) && |f.got| <= total
    ensures var g := ReadFull(f, total);
            && NonEmpty(g.segs)
            && |g.got| <= total
            && g.got + g.buf + Flatten(g.segs) == f.got + f.buf + Flatten(f.segs)
            && (|g.got| < total ==> g.buf == [] && g.segs == [])
    decreases total - |f.got|
  {
    if |f.got| < total && !(f.buf == [] && f.segs == []) {
      FillProgress(f, total - |f.got|);
      ReadFullKeepsBytes(FillOnce(f, total - |f.got|), total);
    }
  }

  lemma ReadFullTakesPrefix(p: Peeked, s: seq<byte>, end: nat)
    requires NonEmpty(p.segs) && s == p.buf + Flatten(p.segs)
    ensures var f := ReadFull(Full([], p.buf, p.segs), end);
            && NonEmpty(f.segs)
            && (|f.got| < end <==> |s| < end)
            && (|s| >= end ==> f.got == s[..end] && s == s[..end] + f.buf + Flatten(f.segs))
  {
    ReadFullKeepsBytes(Full([], p.buf, p.segs), end);
    var f := ReadFull(Full([], p.buf, p.segs), end);
    assert s == f.got + f.buf + Flatten(f.segs);
  }

  lemma FinishMeaning(p: Peeked, s: seq<byte>)
    requires NonEmpty(p.segs) && s == p.buf + Flatten(p.segs) && (|p.buf| < 8 ==> p.segs == [])
    ensures var c := Finish(p);
            && NonEmpty(c.segs)
            && c.outcome == Parse(s)
            && (c.outcome.Ok? ==> s == s[..FrameEnd(s)] + c.lost + Flatten(c.segs))
  {
    if |p.buf| >= 2 {
      assert Head(p.buf) == Head(s);
      FrameEndOfHead(p.buf, s);
      ReadFullTakesPrefix(p, s, FrameEnd(s));
    } else {
      assert s == p.buf;
    }
  }

  /** One call returns what the plain parser makes of the bytes to come, however they are cut into
      segments, and what it loses is exactly what its underlying reads delivered past the frame:
      frame, lost bytes and remaining transport make up the stream. */
  lemma ReadCallMeaning(segs: Segments)
    requires NonEmpty(segs)
    ensures var c := ReadCall(segs); var s := Flatten(segs);
            && NonEmpty(c.segs)
            && c.outcome == Parse(s)
            && (c.outcome.Ok? ==> s == s[..FrameEnd(s)] + c.lost + Flatten(c.segs))
  {
    PeekKeepsBytes(segs, []);
    FinishMeaning(Peek(segs, []), Flatten(segs));
  }

  predicate IsTail(rest: seq<byte>, s: seq<byte>) {
    |rest| <= |s| && rest == s[|s| - |rest|..]
  }

  lemma TailOfTail(a: seq<byte>, b: seq<byte>, c: seq<byte>)
    requires IsTail(a, b) && IsTail(b, c)
    ensures IsTail(a, c)
  {
    assert c[|c| - |b|..][|b| - |a|..] == c[|c| - |a|..];
  }

  lemma BehindIsTail(a: seq<byte>, b: seq<byte>)
    ensures IsTail(b, a + b)
  {
  }

  lemma {:induction false} ReadFullDrops(f: Full, total: nat)
    requires NonEmpty(f.segs)
    ensures IsTail(Flatten(ReadFull(f, total).segs), Flatten(f.segs))
    decreases total - |f.got|
  {
    if |f.got| < total && !(f.buf == [] && f.segs == []) {
      var g := FillOnce(f, total - |f.got|);
      FillProgress(f, total - |f.got|);
      ReadFullDrops(g, total);
      FillDrops(f, total - |f.got|);
      TailOfTail(Flatten(ReadFull(g, total).segs), Flatten(g.segs), Flatten(f.segs));
    }
  }

  lemma FillDrops(f: Full, need: nat)
    requires NonEmpty(f.segs) && need > 0 && (f.buf == [] ==> f.segs != [])
    ensures IsTail(Flatten(FillOnce(f, need).segs), Flatten(f.segs))
  {
    if f.buf == [] {
      var room := if need >= BUFFER then need else BUFFER;
      TakeKeepsBytes(f.segs, room);
      BehindIsTail(Chunk(f.segs, room), Flatten(After(f.segs, room)));
    }
  }

  lemma FinishDrops(p: Peeked)
    requires NonEmpty(p.segs)
    ensures IsTail(Flatten(Finish(p).segs), Flatten(p.segs))
  {
    if |p.buf| >= 2 && FrameEnd(p.buf) < INT_LIMIT {
      ReadFullDrops(Full([], p.buf, p.segs), FrameEnd(p.buf));
    }
  }

  // Whatever a call returns, it leaves a tail of the stream, and takes the 8 bytes that it peeks.
  lemma ReadCallConsumes(segs: Segments)
    requires NonEmpty(segs)
    ensures var rest, s := Flatten(ReadCall(segs).segs), Flatten(segs);
            IsTail(rest, s) && |rest| + Min(8, |s|) <= |s|
  {
    PeekKeepsBytes(segs, []);
    var p := Peek(segs, []);
    assert Flatten(segs) == p.buf + Flatten(p.segs);
    FinishDrops(p);
    BehindIsTail(p.buf, Flatten(p.segs));
    TailOfTail(Flatten(ReadCall(segs).segs), Flatten(p.segs), Flatten(segs));
  }

  // ------------------------------------------------- segments that do not cross a frame end

  lemma {:induction false} PeekWithin(g: Segments, rest: Segments, buf: seq<byte>)
    requires NonEmpty(g) && |buf| + |Flatten(g)| >= 8
    ensures var p := Peek(g, buf); Peek(g + rest, buf) == p.(segs := p.segs + rest)
    decreases |g|, 8 - |buf|
  {
    if |buf| < 8 {
      var room := BUFFER - |buf|;
      TakeWithin(g, rest, room);
      TakeKeepsBytes(g, room);
      var g', buf' := After(g, room), buf + Chunk(g, room);
      assert Peek(g, buf) == Peek(g', buf');
      assert Peek(g + rest, buf) == Peek(g' + rest, buf');
      PeekWithin(g', rest, buf');
    }
  }

  lemma {:induction false} ReadFullWithin(f: Full, rest: Segments, total: nat)
    requires NonEmpty(f.segs) && NonEmpty(rest)
    requires |f.got| + |f.buf| + |Flatten(f.segs)| >= total
    ensures var g := ReadFull(f, total); ReadFull(f.(segs := f.segs + rest), total) == g.(segs := g.segs + rest)
    decreases total - |f.got|
  {
    if |f.got| < total {
      var need := total - |f.got|;
      if f.buf == [] {
        TakeWithin(f.segs, rest, if need >= BUFFER then need else BUFFER);
      }
      FillProgress(f, need);
      var g := FillOnce(f, need);
      assert FillOnce(f.(segs := f.segs + rest), need) == g.(segs := g.segs + rest);
      ReadFullWithin(g, rest, total);
    }
  }

  lemma FinishWithin(p: Peeked, rest: Segments)
    requires NonEmpty(p.segs) && NonEmpty(rest) && |p.buf| >= 2
    requires FrameEnd(p.buf) <= |p.buf| + |Flatten(p.segs)|
    ensures NonEmpty(p.segs + rest)
    ensures var c := Finish(p); Finish(p.(segs := p.segs + rest)) == c.(segs := c.segs + rest)
  {
    if FrameEnd(p.buf) < INT_LIMIT {
      ReadFullWithin(Full([], p.buf, p.segs), rest, FrameEnd(p.buf));
    }
  }

  /** A call is local: it never reaches past segments that hold the peeked bytes and the whole frame.
      So what it loses lies within the segments up to the one in which the frame ends. */
  lemma CallWithin(g: Segments, rest: Segments)
    requires NonEmpty(g) && NonEmpty(rest) && |Flatten(g)| >= 8 && Parse(Flatten(g)).Ok?
    ensures NonEmpty(g + rest)
    ensures var c := ReadCall(g); ReadCall(g + rest) == c.(segs := c.segs + rest)
    ensures |ReadCall(g + rest).lost| <= |Flatten(g)| - FrameEnd(Flatten(g))
  {
    PeekWithin(g, rest, []);
    PeeksFrameEnd(g);
    FinishWithin(Peek(g, []), rest);
    ReadCallMeaning(g);
  }

  lemma PeeksFrameEnd(g: Segments)
    requires NonEmpty(g) && |Flatten(g)| >= 8
    ensures var p := Peek(g, []);
            && NonEmpty(p.segs) && |p.buf| >= 8 && |p.buf| + |Flatten(p.segs)| == |Flatten(g)|
            && FrameEnd(p.buf) == FrameEnd(Flatten(g))
  {
    PeekKeepsBytes(g, []);
    var p, s := Peek(g, []), Flatten(g);
    assert s == p.buf + Flatten(p.segs);
    assert Head(s) == Head(p.buf);
    FrameEndOfHead(s, p.buf);
  }

  /** A call that starts at segments cut out of one frame of at least 8 bytes and good length
      returns the payload, loses nothing and leaves exactly the segments that follow. */
  lemma ReadsOneFrame(g: Segments, rest: Segments, payload: seq<byte>)
    requires NonEmpty(g) && NonEmpty(rest) && Flatten(g) == Frame(payload)
    requires 6 <= |payload| && |Frame(payload)| < INT_LIMIT && Good(|payload|)
    ensures NonEmpty(g + rest) && ReadCall(g + rest) == Call(Ok(payload), [], rest)
  {
    WholeFrame(payload, []);
    assert Frame(payload) + [] == Flatten(g);
    CallWithin(g, rest);
    ReadCallMeaning(g);
    var c := ReadCall(g);
    assert |c.lost| + |Flatten(c.segs)| == 0;
    NoBytesNoSegments(c.segs);
    assert [] + rest == rest;
  }

  // A frame of good length is announced and parsed as it is.
  lemma WholeFrame(payload: seq<byte>, more: seq<byte>)
    requires |Frame(payload)| < INT_LIMIT && Good(|payload|)
    ensures var s := Frame(payload) + more;
            FrameEnd(s) == |Frame(payload)| && LengthBytes(s) == Width(|payload|) && Parse(s) == Ok(payload)
  {
    FrameRoundTrip(payload, more);
    var rest := payload + more;
    assert Frame(payload) + more == Header(|payload|) + rest;
    HeaderExactness(|payload|, rest);
  }

  lemma PeekFirst(segs: Segments)
    requires NonEmpty(segs) && segs != [] && |segs[0]| >= 8
    ensures Peek(segs, []) == Peeked(Chunk(segs, BUFFER), After(segs, BUFFER))
    ensures NonEmpty(After(segs, BUFFER))
  {
    TakeKeepsBytes(segs, BUFFER);
    var buf := [] + Chunk(segs, BUFFER);
    assert buf == Chunk(segs, BUFFER) && |buf| >= 8;
    assert Peek(segs, []) == Peek(After(segs, BUFFER), buf);
  }

  // Where the last of the reads for n bytes of one segment ends: a frame beyond the first buffer is
  // finished by a second one, and beyond that by a read of exactly what is missing.
  function ReadsUpTo(n: nat, size: nat): nat {
    if n <= BUFFER then Min(BUFFER, size) else if n < 2 * BUFFER then Min(2 * BUFFER, size) else n
  }

  function From(seg: seq<byte>, n: nat, rest: Segments): Segments
    requires n <= |seg|
  {
    if n == |seg| then rest else [seg[n..]] + rest
  }

  lemma TakesFromOne(seg: seq<byte>, n: nat, rest: Segments, room: nat)
    requires n < |seg| && room > 0
    ensures var segs, m := From(seg, n, rest), Min(n + room, |seg|);
            segs != [] && Chunk(segs, room) == seg[n..m] && After(segs, room) == From(seg, m, rest)
  {
    var segs, m := From(seg, n, rest), Min(n + room, |seg|);
    assert segs[0] == seg[n..] && segs[1..] == rest;
    assert seg[n..][..m - n] == seg[n..m];
    if m < |seg| { assert seg[n..][room..] == seg[m..]; }
  }

  // Behind a full first buffer.
  lemma FinishesBeyond(seg: seq<byte>, rest: Segments, n: nat)
    requires NonEmpty(rest) && BUFFER < n <= |seg|
    ensures NonEmpty(From(seg, BUFFER, rest))
    ensures var m := ReadsUpTo(n, |seg|);
            ReadFull(Full([], seg[..BUFFER], From(seg, BUFFER, rest)), n)
            == Full(seg[..n], seg[n..m], From(seg, m, rest))
  {
    var segs, need, m := From(seg, BUFFER, rest), n - BUFFER, ReadsUpTo(n, |seg|);
    var f := Full([], seg[..BUFFER], segs);
    assert FillOnce(f, n) == Full(seg[..BUFFER], [], segs) by {
      assert [] + seg[..BUFFER][..BUFFER] == seg[..BUFFER];
    }
    TakesFromOne(seg, BUFFER, rest, if need >= BUFFER then need else BUFFER);
    assert seg[..BUFFER] + seg[BUFFER..n] == seg[..n];
    assert need < BUFFER ==> seg[BUFFER..m][..need] == seg[BUFFER..n] && seg[BUFFER..m][need..] == seg[n..m];
    assert FillOnce(Full(seg[..BUFFER], [], segs), need) == Full(seg[..n], seg[n..m], From(seg, m, rest));
    ReadsInTwo(f, n, Full(seg[..BUFFER], [], segs), Full(seg[..n], seg[n..m], From(seg, m, rest)));
  }

  lemma ReadsInTwo(f: Full, n: nat, g: Full, h: Full)
    requires NonEmpty(f.segs) && NonEmpty(g.segs) && NonEmpty(h.segs) && |f.got| < |g.got| < |h.got| == n
    requires f.buf != [] && g.buf == [] && g.segs != []
    requires g == FillOnce(f, n - |f.got|) && h == FillOnce(g, n - |g.got|)
    ensures ReadFull(f, n) == h
  {
    assert ReadFull(h, n) == h;
    assert ReadFull(g, n) == ReadFull(h, n);
  }

  /** What the underlying reads for a frame within one segment brought along is lost: with a frame that
      fits the buffer all of the segment up to a full one, with a larger one up to a second, and
      nothing from twice the buffer's size on. */
  lemma LostBehindFrame(seg: seq<byte>, rest: Segments, payload: seq<byte>)
    requires NonEmpty(rest) && |Frame(payload)| <= |seg| && seg[..|Frame(payload)|] == Frame(payload)
    requires 6 <= |payload| && Good(|payload|) && |Frame(payload)| < INT_LIMIT
    ensures NonEmpty([seg] + rest)
    ensures var n := |Frame(payload)|; var m := ReadsUpTo(n, |seg|);
            ReadCall([seg] + rest) == Call(Ok(payload), seg[n..m], From(seg, m, rest))
  {
    var n, b := |Frame(payload)|, Min(BUFFER, |seg|);
    PeeksOne(seg, rest);
    SeesHeader(seg, b, payload);
    ReadsAll(seg, rest, n);
    assert seg[..n][HeaderLen(Width(|payload|))..] == payload;
  }

  lemma SeesHeader(seg: seq<byte>, b: nat, payload: seq<byte>)
    requires |Frame(payload)| <= |seg| && seg[..|Frame(payload)|] == Frame(payload) && 8 <= b <= |seg|
    requires Good(|payload|) && |Frame(payload)| < INT_LIMIT
    ensures FrameEnd(seg[..b]) == |Frame(payload)| && LengthBytes(seg[..b]) == Width(|payload|)
  {
    var n := |Frame(payload)|;
    assert seg == Frame(payload) + seg[n..];
    WholeFrame(payload, seg[n..]);
    assert Head(seg[..b]) == Head(seg);
    FrameEndOfHead(seg, seg[..b]);
  }

  lemma ReadsAll(seg: seq<byte>, rest: Segments, n: nat)
    requires NonEmpty(rest) && 0 < n <= |seg|
    ensures var b, m := Min(BUFFER, |seg|), ReadsUpTo(n, |seg|);
            && NonEmpty(From(seg, b, rest))
            && ReadFull(Full([], seg[..b], From(seg, b, rest)), n) == Full(seg[..n], seg[n..m], From(seg, m, rest))
  {
    var b := Min(BUFFER, |seg|);
    if n <= BUFFER {
      ServedFromBuffer(Peeked(seg[..b], From(seg, b, rest)), n);
      assert seg[..b][..n] == seg[..n] && seg[..b][n..] == seg[n..b];
    } else {
      FinishesBeyond(seg, rest, n);
    }
  }

  lemma PeeksOne(seg: seq<byte>, rest: Segments)
    requires NonEmpty(rest) && |seg| >= 8
    ensures NonEmpty([seg] + rest) && NonEmpty(From(seg, Min(BUFFER, |seg|), rest))
    ensures var b := Min(BUFFER, |seg|);
            ReadCall([seg] + rest) == Finish(Peeked(seg[..b], From(seg, b, rest)))
  {
    var segs, b := [seg] + rest, Min(BUFFER, |seg|);
    PeekFirst(segs);
    assert From(seg, 0, rest) == segs by { assert seg[0..] == seg; }
    TakesFromOne(seg, 0, rest, BUFFER);
    assert Peek(segs, []) == Peeked(seg[..b], From(seg, b, rest)) by { assert seg[0..b] == seg[..b]; }
  }

  /** Two frames in one underlying read: the first call returns the first payload and swallows the
      second frame whole. */
  lemma SecondFrameLost(p: seq<byte>, q: seq<byte>)
    requires 6 <= |p| && Good(|p|) && |Frame(p) + Frame(q)| <= BUFFER
    ensures NonEmpty([Frame(p) + Frame(q)])
    ensures ReadCall([Frame(p) + Frame(q)]) == Call(Ok(p), Frame(q), [])
  {
    var seg := Frame(p) + Frame(q);
    LostBehindFrame(seg, [], p);
    assert [seg] + [] == [seg];
    assert seg[|Frame(p)|..] == Frame(q);
  }

  /** The other side of that bound: behind a frame shorter than the 8 peeked bytes, a call that
      finds more data returns the right payload but swallows some of what follows. */
  lemma ShortFrameLoses(g: Segments, rest: Segments, payload: seq<byte>)
    requires NonEmpty(g) && NonEmpty(rest) && rest != [] && Flatten(g) == Frame(payload)
    requires |payload| < 6
    ensures NonEmpty(g + rest)
    ensures var c := ReadCall(g + rest); c.outcome == Ok(payload) && c.lost != []
  {
    var frame, p := Frame(payload), Peek(g + rest, []);
    PeekKeepsBytes(g + rest, []);
    FlattenConcat(g, rest);
    assert |Flatten(rest)| >= |rest[0]| >= 1;
    PeeksPast(p, frame, Flatten(rest));
    ShortHeader(payload, p.buf[|frame|..]);
    ServedFromBuffer(p, |frame|);
  }

  lemma PeeksPast(p: Peeked, frame: seq<byte>, more: seq<byte>)
    requires p.buf + Flatten(p.segs) == frame + more && (|p.buf| < 8 ==> p.segs == [])
    requires |frame| < 8 && more != []
    ensures |p.buf| > |frame| && p.buf == frame + p.buf[|frame|..]
  {
    var s := frame + more;
    if |p.buf| < 8 {
      assert p.buf == s;
    }
    assert p.buf == s[..|p.buf|];
    assert s[..|frame|] == frame;
  }

  lemma ServedFromBuffer(p: Peeked, end: nat)
    requires NonEmpty(p.segs) && 0 < end <= |p.buf|
    ensures ReadFull(Full([], p.buf, p.segs), end) == Full(p.buf[..end], p.buf[end..], p.segs)
  {
    assert FillOnce(Full([], p.buf, p.segs), end) == Full(p.buf[..end], p.buf[end..], p.segs);
  }

  lemma ShortHeader(payload: seq<byte>, rest: seq<byte>)
    requires |payload| < 6
    ensures var s := Frame(payload) + rest;
            LengthBytes(s) == 1 && FrameEnd(s) == |Frame(payload)| && Frame(payload)[2..] == payload
  {
    var s := Frame(payload) + rest;
    assert s == Header(|payload|) + (payload + rest);
    HeaderExactness(|payload|, payload + rest);
  }

  // The segments are a cutting of the frames, none of them crossing a frame end.
  ghost predicate CutOf(segs: Segments, payloads: seq<seq<byte>>)
    decreases |payloads|
  {
    if payloads == [] then segs == []
    else exists k: nat :: CutAt(segs, payloads, k)
  }

  ghost predicate CutAt(segs: Segments, payloads: seq<seq<byte>>, k: nat)
    requires payloads != []
    decreases |payloads|, 0
  {
    k <= |segs| && Flatten(segs[..k]) == Frame(payloads[0]) && CutOf(segs[k..], payloads[1..])
  }

  // A payload that a call reads back, from a frame of at least the 8 peeked bytes.
  predicate Carries(payload: seq<byte>) {
    6 <= |payload| && |Frame(payload)| < INT_LIMIT && Good(|payload|)
  }

  predicate Carried(payloads: seq<seq<byte>>) {
    forall i :: 0 <= i < |payloads| ==> Carries(payloads[i])
  }

  // Successive calls on one transport.
  function ReadCalls(segs: Segments, calls: nat): (seq<Outcome>, Segments)
    requires NonEmpty(segs)
    decreases calls
  {
    if calls == 0 then ([], segs)
    else
      ReadCallMeaning(segs);
      var c := ReadCall(segs);
      var (more, rest) := ReadCalls(c.segs, calls - 1);
      ([c.outcome] + more, rest)
  }

  function Oks(payloads: seq<seq<byte>>): seq<Outcome> {
    seq(|payloads|, i requires 0 <= i < |payloads| => Ok(payloads[i]))
  }

  /** One call takes the first payload and leaves a cutting of the others. */
  lemma ReadsFirstFrame(segs: Segments, payloads: seq<seq<byte>>)
    requires NonEmpty(segs) && payloads != [] && Carries(payloads[0]) && CutOf(segs, payloads)
    ensures var c := ReadCall(segs);
            && c.outcome == Ok(payloads[0]) && c.lost == []
            && NonEmpty(c.segs) && CutOf(c.segs, payloads[1..])
  {
    var k: nat :| CutAt(segs, payloads, k);
    ReadsOneFrame(segs[..k], segs[k..], payloads[0]);
    assert segs[..k] + segs[k..] == segs;
  }

  lemma OksSplit(payloads: seq<seq<byte>>)
    requires payloads != []
    ensures Oks(payloads) == [Ok(payloads[0])] + Oks(payloads[1..])
  {
  }

  /** Buffered framing refines plain framing: whatever the cutting, successive calls return the
      payloads in order, although each starts from an empty buffer. */
  lemma {:induction false} BufferedRefinesPlain(segs: Segments, payloads: seq<seq<byte>>)
    requires NonEmpty(segs) && Carried(payloads) && CutOf(segs, payloads)
    ensures ReadCalls(segs, |payloads|) == (Oks(payloads), [])
    decreases |payloads|
  {
    if payloads != [] {
      ReadsFirstFrame(segs, payloads);
      ReadCallMeaning(segs);
      BufferedRefinesPlain(ReadCall(segs).segs, payloads[1..]);
      OksSplit(payloads);
    }
  }

  // Appending the cutting of one more frame.
  lemma {:induction false} CutSnoc(segs: Segments, payloads: seq<seq<byte>>, cut: Segments, payload: seq<byte>)
    requires CutOf(segs, payloads) && Flatten(cut) == Frame(payload)
    ensures CutOf(segs + cut, payloads + [payload])
    decreases |payloads|
  {
    if payloads == [] {
      assert segs + cut == cut && cut[..|cut|] == cut && cut[|cut|..] == [];
      assert CutOf(cut[|cut|..], [payload][1..]);
      assert CutAt(cut, [payload], |cut|);
      assert payloads + [payload] == [payload];
    } else {
      var k: nat :| CutAt(segs, payloads, k);
      CutSnoc(segs[k..], payloads[1..], cut, payload);
      assert (segs + cut)[..k] == segs[..k] && (segs + cut)[k..] == segs[k..] + cut;
      assert (payloads + [payload])[1..] == payloads[1..] + [payload];
      assert CutAt(segs + cut, payloads + [payload], k);
    }
  }

  // ------------------------------------------------------------- the reader as the code runs it

  // The receiving end of a connection; a read blocks until a segment is there or the stream ends.
  class Transport {
    var segs: Segments

    ghost predicate Valid() reads this { NonEmpty(segs) }

    constructor (segs: Segments)
      requires NonEmpty(segs)
      ensures Valid() && this.segs == segs
    {
      this.segs := segs;
    }

    // An empty chunk is the end of the stream.
    method ReadInto(room: nat) returns (chunk: seq<byte>)
      requires Valid() && room > 0
      modifies this
      ensures Valid()
      ensures old(segs) == [] ==> chunk == [] && segs == []
      ensures old(segs) != [] ==> chunk == Chunk(old(segs), room) != [] && segs == After(old(segs), room)
    {
      if segs == [] {
        return [];
      }
      TakeKeepsBytes(segs, room);
      chunk := Chunk(segs, room);
      segs := After(segs, room);
    }

    method PeekEight() returns (buf: seq<byte>)
      requires Valid()
      modifies this
      ensures Valid()
      ensures Peeked(buf, segs) == Peek(old(segs), [])
    {
      buf := [];
      while |buf| < 8 && segs != []
        invariant Valid() && Peek(segs, buf) == Peek(old(segs), [])
        decreases |segs|, 8 - |buf|
      {
        ghost var was := Peek(segs, buf);
        var chunk := ReadInto(BUFFER - |buf|);
        buf := buf + chunk;
        assert Peek(segs, buf) == was;
      }
    }

    method ReadFully(peeked: seq<byte>, total: nat) returns (got: seq<byte>, buf: seq<byte>)
      requires Valid()
      modifies this
      ensures Valid()
      ensures Full(got, buf, segs) == ReadFull(Full([], peeked, old(segs)), total)
    {
      got, buf := [], peeked;
      while |got| < total && (buf != [] || segs != [])
        invariant Valid()
        invariant ReadFull(Full(got, buf, segs), total) == ReadFull(Full([], peeked, old(segs)), total)
        decreases total - |got|
      {
        var need := total - |got|;
        FillProgress(Full(got, buf, segs), need);
        if buf == [] && need >= BUFFER {
          var chunk := ReadInto(need);
          got := got + chunk;
        } else {
          if buf == [] {
            buf := ReadInto(BUFFER);
          }
          var k := Min(need, |buf|);
          got, buf := got + buf[..k], buf[k..];
        }
      }
    }

    // Decode the header and read the whole frame.
    method ReadFrame(buf: seq<byte>) returns (r: Outcome, lost: seq<byte>)
      requires Valid()
      modifies this
      ensures Valid()
      ensures Call(r, lost, segs) == Finish(Peeked(buf, old(segs)))
    {
      if |buf| < 2 {
        return Failed, buf;
      }
      var w, n := DecodeHeader(Head(buf));
      assert Head(buf)[..w] == buf[..w];
      if n + HeaderLen(w) >= INT_LIMIT {
        return Crashed, buf;
      }
      var got;
      got, lost := ReadFully(buf, n + HeaderLen(w));
      r := if |got| < n + HeaderLen(w) then Failed else Ok(got[HeaderLen(w)..]);
    }

    /** One `read` call, on a fresh empty buffer. */
    method Read() returns (r: Outcome, lost: seq<byte>)
      requires Valid()
      modifies this
      ensures Valid()
      ensures Call(r, lost, segs) == ReadCall(old(segs))
    {
      var buf := PeekEight();
      r, lost := ReadFrame(buf);
    }
  }
}
