/**
 Signalling by copy and paste: signal-tty.go writes a string as one line, the base-62 numeral of
 its compressed bytes.

 The reading methods have value receivers, so each call works on a copy of a buffered reader that
 is empty when the call starts; what it buffered past the line it returns is gone.
 */
module Tty {
  import opened Bytes
  import opened Segmented
  import opened Base62

  // ------------------------------------------------------------------ lines

  // zlib, and what is used of it: it is invertible, and its first byte is the non-zero CMF byte of
  // section 2.2 of RFC 1950.
  datatype Zlib = Zlib(deflate: string -> seq<byte>, inflate: seq<byte> -> Option<string>)

  ghost predicate Lawful(z: Zlib) {
    forall s :: z.inflate(z.deflate(s)) == Some(s) && z.deflate(s) != [] && z.deflate(s)[0] != 0
  }

  // What `write` sends.
  function Line(z: Zlib, s: string): string {
    EncodeBytes(z.deflate(s)) + "\n"
  }

  datatype Reading = Got(line: string) | Bad | Crashed

  function FindNewline(s: string): (i: nat)
    ensures i <= |s| && (forall k :: 0 <= k < i ==> s[k] != '\n') && (i < |s| ==> s[i] == '\n')
  {
    if s == "" || s[0] == '\n' then 0 else 1 + FindNewline(s[1..])
  }

  // What the text of one line decodes to.
  type Decoder = string -> Option<string>

  function DecodeLine(z: Zlib): Decoder {
    text =>
      var bs := DecodeBytes(text);
      if bs.None? then None else z.inflate(bs.value)
  }

  // Where the first line of s ends, its newline included.
  function LineEnd(s: string): (n: nat)
    ensures n <= |s| && (s != [] ==> n > 0)
  {
    Min(FindNewline(s) + 1, |s|)
  }

  // What `readLine` returns when the input goes on with exactly these characters and then ends, and
  // what follows the lines it took. Lines that decode to nothing are skipped. At the end of the
  // input the read error is not looked at: the last byte of an unterminated line is dropped all the
  // same, and the slice of an empty one panics.
  function ReadLine(d: Decoder, input: string): (Reading, string)
    decreases |input|
  {
    if input == [] then (Crashed, [])
    else
      var n := LineEnd(input);
      var line, rest := d(input[..n - 1]), input[n..];
      if line.None? then (Bad, rest)
      else if line.value == [] then ReadLine(d, rest)
      else (Got(line.value), rest)
  }

  lemma FoundNewline(s: string, i: nat)
    requires i <= |s| && (forall k :: 0 <= k < i ==> s[k] != '\n') && (i < |s| ==> s[i] == '\n')
    ensures FindNewline(s) == i
  {
    var j := FindNewline(s);
    assert i < |s| && j < |s| ==> !(i < j) && !(j < i);
  }

  // ------------------------------------------------------------------ the buffered reader

  // Buffer size of the terminal's reader.
  const SIZE: nat := 10240

  // What `ReadBytes` hands over, what stays in the buffer, what the terminal still holds.
  datatype Taken = Taken(line: string, buf: string, segs: Source<char>)

  // `ReadBytes('\n')` with the full buffers `acc` already set aside.
  function TakeBytes(acc: string, buf: string, segs: Source<char>): Taken
    requires NonEmpty(segs) && |buf| <= SIZE
    decreases |Flatten(segs)|, |buf|
  {
    var i := FindNewline(buf);
    if i < |buf| then Taken(acc + buf[..i + 1], buf[i + 1..], segs)
    else if |buf| == SIZE then TakeBytes(acc + buf, [], segs)
    else if segs == [] then Taken(acc + buf, [], [])
    else
      TakeKeepsBytes(segs, SIZE - |buf|);
      TakeBytes(acc, buf + Chunk(segs, SIZE - |buf|), After(segs, SIZE - |buf|))
  }

  lemma LineEndIn(buf: string, more: string)
    ensures LineEnd(buf + more) == if '\n' in buf then FindNewline(buf) + 1 else |buf| + LineEnd(more)
    ensures '\n' in buf <==> FindNewline(buf) < |buf|
  {
    var i, j := FindNewline(buf), FindNewline(more);
    if i < |buf| {
      assert buf[i] == '\n';
      FoundNewlineIn(buf, more, i);
    } else {
      assert forall k :: 0 <= k < |buf| ==> buf[k] != '\n';
      FoundNewlineBehind(buf, more, j);
    }
  }

  lemma FoundNewlineIn(buf: string, more: string, i: nat)
    requires i < |buf| && FindNewline(buf) == i
    ensures FindNewline(buf + more) == i
  {
    assert forall k :: 0 <= k < |buf| ==> (buf + more)[k] == buf[k];
    FoundNewline(buf + more, i);
  }

  lemma FoundNewlineBehind(buf: string, more: string, j: nat)
    requires '\n' !in buf && FindNewline(more) == j
    ensures FindNewline(buf + more) == |buf| + j
  {
    var s := buf + more;
    assert forall k :: 0 <= k < |buf| ==> s[k] == buf[k];
    assert forall k :: |buf| <= k < |s| ==> s[k] == more[k - |buf|];
    FoundNewline(s, |buf| + j);
  }

  // The first line of s was handed over behind acc, and the rest is in the buffer or still to come.
  predicate HandsOver(t: Taken, acc: string, s: string) {
    && NonEmpty(t.segs) && |t.buf| <= SIZE
    && t.line == acc + s[..LineEnd(s)]
    && t.buf + Flatten(t.segs) == s[LineEnd(s)..]
  }

  lemma HandsOverBuffered(acc: string, buf: string, segs: Source<char>)
    requires NonEmpty(segs) && |buf| <= SIZE && '\n' in buf
    ensures var i := FindNewline(buf);
            i < |buf| && HandsOver(Taken(acc + buf[..i + 1], buf[i + 1..], segs), acc, buf + Flatten(segs))
  {
    LineEndIn(buf, Flatten(segs));
    SplitWithin(buf, Flatten(segs), FindNewline(buf) + 1);
  }

  lemma SplitWithin(buf: string, more: string, n: nat)
    requires n <= |buf|
    ensures (buf + more)[..n] == buf[..n] && (buf + more)[n..] == buf[n..] + more
  {
  }

  lemma HandsOverBehind(t: Taken, acc: string, buf: string, s: string)
    requires HandsOver(t, acc + buf, s) && '\n' !in buf
    ensures HandsOver(t, acc, buf + s)
  {
    LineEndIn(buf, s);
    var n := LineEnd(s);
    assert (buf + s)[..|buf| + n] == buf + s[..n] && (buf + s)[|buf| + n..] == s[n..];
    Assoc(acc, buf, s[..n]);
  }

  // Whatever the cutting, the first line is handed over and no byte behind it is gone yet.
  lemma {:induction false} TakeBytesMeaning(acc: string, buf: string, segs: Source<char>, s: string)
    requires NonEmpty(segs) && |buf| <= SIZE && s == buf + Flatten(segs)
    ensures HandsOver(TakeBytes(acc, buf, segs), acc, s)
    decreases |Flatten(segs)|, |buf|
  {
    LineEndIn(buf, Flatten(segs));
    if '\n' in buf {
      HandsOverBuffered(acc, buf, segs);
    } else if |buf| == SIZE {
      TakeBytesMeaning(acc + buf, [], segs, Flatten(segs));
      HandsOverBehind(TakeBytes(acc + buf, [], segs), acc, buf, Flatten(segs));
    } else if segs == [] {
      assert s == buf;
    } else {
      var room := SIZE - |buf|;
      TakeKeepsBytes(segs, room);
      Assoc(buf, Chunk(segs, room), Flatten(After(segs, room)));
      TakeBytesMeaning(acc, buf + Chunk(segs, room), After(segs, room), s);
    }
  }

  // How many more bytes fill the buffer, at position n of a line.
  function ToFull(n: nat): nat {
    if n == 0 then 0 else if n <= SIZE then SIZE - n else ToFull(n - SIZE)
  }

  // Position d of one source is position n + d of the other.
  ghost predicate Shifted(a: Source<char>, b: Source<char>, n: nat) {
    forall d :: d > 0 ==> ToEnd(a, d) == ToEnd(b, n + d)
  }

  lemma ShiftedTwice(a: Source<char>, b: Source<char>, c: Source<char>, n: nat, m: nat)
    requires Shifted(a, b, n) && Shifted(b, c, m)
    ensures Shifted(a, c, m + n)
  {
    forall d | d > 0 ensures ToEnd(a, d) == ToEnd(c, m + n + d) {
      assert ToEnd(b, n + d) == ToEnd(c, m + (n + d));
      assert m + (n + d) == m + n + d;
    }
  }

  lemma AfterIsShifted(segs: Source<char>, room: nat)
    requires segs != []
    ensures Shifted(After(segs, room), segs, |Chunk(segs, room)|)
  {
    var k := |Chunk(segs, room)|;
    forall d | d > 0 ensures ToEnd(After(segs, room), d) == ToEnd(segs, k + d) {
      ToEndAfter(segs, room, k + d);
      assert k + d - k == d;
    }
  }

  // What stays buffered behind a line of which n bytes were still to come. A line that was not all
  // buffered is followed by what is left of its segment, up to a full buffer.
  ghost predicate Leaves(t: Taken, buffered: nat, segs: Source<char>, n: nat) {
    if n <= buffered then |t.buf| == buffered - n && t.segs == segs
    else
      && |t.buf| == Min(ToEnd(segs, n - buffered), ToFull(n))
      && Shifted(t.segs, segs, n - buffered + |t.buf|)
  }

  // A read ends at the end of its segment or of the buffer, whichever comes first.
  lemma ReadEnds(segs: Source<char>, buffered: nat, past: nat)
    requires segs != [] && buffered < SIZE && 0 < past <= |Chunk(segs, SIZE - buffered)|
    ensures |Chunk(segs, SIZE - buffered)| - past == Min(ToEnd(segs, past), ToFull(buffered + past))
  {
  }

  lemma LeavesPast(t: Taken, buffered: nat, after: Source<char>, k: nat, segs: Source<char>, n: nat)
    requires Shifted(after, segs, k) && n > buffered
    requires n - buffered <= k ==> k - (n - buffered) == Min(ToEnd(segs, n - buffered), ToFull(n))
    requires Leaves(t, buffered + k, after, n)
    ensures Leaves(t, buffered, segs, n)
  {
    var past := n - buffered;
    if past > k {
      assert ToEnd(after, past - k) == ToEnd(segs, k + (past - k));
      ShiftedTwice(t.segs, after, segs, past - k + |t.buf|, k);
    }
  }

  lemma LeavesRead(t: Taken, buffered: nat, segs: Source<char>, n: nat)
    requires segs != [] && buffered < SIZE && n > buffered
    requires Leaves(t, buffered + |Chunk(segs, SIZE - buffered)|, After(segs, SIZE - buffered), n)
    ensures Leaves(t, buffered, segs, n)
  {
    var room := SIZE - buffered;
    var k := |Chunk(segs, room)|;
    AfterIsShifted(segs, room);
    if n - buffered <= k {
      ReadEnds(segs, buffered, n - buffered);
    }
    LeavesPast(t, buffered, After(segs, room), k, segs, n);
  }

  lemma LeavesFlushed(t: Taken, segs: Source<char>, n: nat)
    requires n > 0 && Leaves(t, 0, segs, n)
    ensures Leaves(t, SIZE, segs, SIZE + n)
  {
  }

  // A line with n bytes to come, in the buffer and behind it.
  predicate Coming(buf: string, segs: Source<char>, n: nat) {
    && NonEmpty(segs) && |buf| <= SIZE
    && FindNewline(buf + Flatten(segs)) + 1 == n <= |buf + Flatten(segs)|
  }

  lemma RefillComes(acc: string, buf: string, segs: Source<char>, n: nat)
    requires Coming(buf, segs, n) && |buf| < SIZE && '\n' !in buf
    ensures segs != [] && n > |buf|
    ensures var chunk, after := Chunk(segs, SIZE - |buf|), After(segs, SIZE - |buf|);
            && Coming(buf + chunk, after, n)
            && |Flatten(after)| < |Flatten(segs)|
            && TakeBytes(acc, buf, segs) == TakeBytes(acc, buf + chunk, after)
  {
    LineEndIn(buf, Flatten(segs));
    TakeKeepsBytes(segs, SIZE - |buf|);
    Assoc(buf, Chunk(segs, SIZE - |buf|), Flatten(After(segs, SIZE - |buf|)));
  }

  lemma FlushComes(acc: string, buf: string, segs: Source<char>, n: nat)
    requires Coming(buf, segs, n) && |buf| == SIZE && '\n' !in buf
    ensures n > SIZE && Coming([], segs, n - SIZE)
    ensures TakeBytes(acc, buf, segs) == TakeBytes(acc + buf, [], segs)
  {
    LineEndIn(buf, Flatten(segs));
    assert [] + Flatten(segs) == Flatten(segs);
  }

  lemma {:induction false} TakeBytesLeaves(
    acc: string, buf: string, segs: Source<char>, n: nat, t: Taken, buffered: nat)
    requires Coming(buf, segs, n) && t == TakeBytes(acc, buf, segs) && buffered == |buf|
    ensures Leaves(t, buffered, segs, n)
    decreases |Flatten(segs)|, |buf|, 1
  {
    if '\n' in buf {
      LineEndIn(buf, Flatten(segs));
    } else if |buf| == SIZE {
      FlushComes(acc, buf, segs, n);
      TakeBytesLeaves(acc + buf, [], segs, n - SIZE, t, 0);
      LeavesFlushed(t, segs, n - SIZE);
    } else {
      RefillLeaves(acc, buf, segs, n, t, buffered);
    }
  }

  lemma {:induction false} RefillLeaves(
    acc: string, buf: string, segs: Source<char>, n: nat, t: Taken, buffered: nat)
    requires Coming(buf, segs, n) && t == TakeBytes(acc, buf, segs) && buffered == |buf|
    requires buffered < SIZE && '\n' !in buf
    ensures Leaves(t, buffered, segs, n)
    decreases |Flatten(segs)|, |buf|, 0
  {
    RefillComes(acc, buf, segs, n);
    var chunk, after := Chunk(segs, SIZE - buffered), After(segs, SIZE - buffered);
    TakeBytesLeaves(acc, buf + chunk, after, n, t, buffered + |chunk|);
    LeavesRead(t, buffered, segs, n);
  }

  // ------------------------------------------------------------------ one call

  // What a call returns, what it threw away, what the terminal still holds.
  datatype Call = Call(reading: Reading, lost: string, segs: Source<char>)

  // The loop of `readLine` with what is buffered.
  function LineFrom(d: Decoder, buf: string, segs: Source<char>): Call
    requires NonEmpty(segs) && |buf| <= SIZE
    decreases |buf| + |Flatten(segs)|
  {
    TakeBytesMeaning([], buf, segs, buf + Flatten(segs));
    var t := TakeBytes([], buf, segs);
    if t.line == [] then Call(Crashed, t.buf, t.segs)
    else
      var line := d(t.line[..|t.line| - 1]);
      if line.None? then Call(Bad, t.buf, t.segs)
      else if line.value == [] then LineFrom(d, t.buf, t.segs)
      else Call(Got(line.value), t.buf, t.segs)
  }

  // One `readLine`, on a fresh empty buffer.
  function LineCall(d: Decoder, segs: Source<char>): Call
    requires NonEmpty(segs)
  {
    LineFrom(d, [], segs)
  }

  // The call agrees with the plain reader.
  predicate Agrees(c: Call, r: (Reading, string)) {
    NonEmpty(c.segs) && c.reading == r.0 && c.lost + Flatten(c.segs) == r.1
  }

  // There is a line, and it decodes to nothing.
  predicate Skipped(d: Decoder, s: string) {
    s != [] && d(s[..LineEnd(s) - 1]) == Some([])
  }

  lemma HandedText(t: Taken, s: string)
    requires HandsOver(t, [], s)
    ensures t.line == s[..LineEnd(s)]
    ensures s != [] ==> t.line != [] && t.line[..|t.line| - 1] == s[..LineEnd(s) - 1]
  {
    var n := LineEnd(s);
    assert t.line == s[..n];
    assert s != [] ==> s[..n][..n - 1] == s[..n - 1];
  }

  lemma TakesText(buf: string, segs: Source<char>, s: string)
    requires NonEmpty(segs) && |buf| <= SIZE && s == buf + Flatten(segs)
    ensures var t := TakeBytes([], buf, segs);
            && HandsOver(t, [], s)
            && (s == [] <==> t.line == [])
            && (s != [] ==> t.line[..|t.line| - 1] == s[..LineEnd(s) - 1])
  {
    TakeBytesMeaning([], buf, segs, s);
    HandedText(TakeBytes([], buf, segs), s);
  }

  lemma PlainStops(d: Decoder, s: string)
    requires s != [] && !Skipped(d, s)
    ensures var line := d(s[..LineEnd(s) - 1]);
            ReadLine(d, s) == (if line.None? then Bad else Got(line.value), s[LineEnd(s)..])
  {
  }

  lemma CallStops(d: Decoder, buf: string, segs: Source<char>, s: string)
    requires NonEmpty(segs) && |buf| <= SIZE && s == buf + Flatten(segs) && s != [] && !Skipped(d, s)
    ensures var line, t := d(s[..LineEnd(s) - 1]), TakeBytes([], buf, segs);
            LineFrom(d, buf, segs) == Call(if line.None? then Bad else Got(line.value), t.buf, t.segs)
  {
    TakesText(buf, segs, s);
  }

  lemma StopsAlike(d: Decoder, buf: string, segs: Source<char>, s: string)
    requires NonEmpty(segs) && |buf| <= SIZE && s == buf + Flatten(segs) && !Skipped(d, s)
    ensures Agrees(LineFrom(d, buf, segs), ReadLine(d, s))
  {
    TakesText(buf, segs, s);
    if s != [] {
      PlainStops(d, s);
      CallStops(d, buf, segs, s);
    }
  }

  lemma SkipsAlike(d: Decoder, buf: string, segs: Source<char>, s: string)
    requires NonEmpty(segs) && |buf| <= SIZE && s == buf + Flatten(segs) && Skipped(d, s)
    ensures var t := TakeBytes([], buf, segs);
            && NonEmpty(t.segs) && |t.buf| <= SIZE && t.buf + Flatten(t.segs) == s[LineEnd(s)..]
            && LineFrom(d, buf, segs) == LineFrom(d, t.buf, t.segs)
    ensures ReadLine(d, s) == ReadLine(d, s[LineEnd(s)..])
  {
    TakesText(buf, segs, s);
  }

  lemma {:induction false} LineFromMeaning(d: Decoder, buf: string, segs: Source<char>, s: string)
    requires NonEmpty(segs) && |buf| <= SIZE && s == buf + Flatten(segs)
    ensures Agrees(LineFrom(d, buf, segs), ReadLine(d, s))
    decreases |s|
  {
    if Skipped(d, s) {
      SkipsAlike(d, buf, segs, s);
      var t := TakeBytes([], buf, segs);
      LineFromMeaning(d, t.buf, t.segs, s[LineEnd(s)..]);
    } else {
      StopsAlike(d, buf, segs, s);
    }
  }

  /** One call returns what the plain reader makes of the input to come, however it is cut into
      underlying reads; what it loses is exactly what was read past the lines it took: the lost
      bytes and what the terminal still holds are the rest of the input. */
  lemma LineCallMeaning(d: Decoder, segs: Source<char>)
    requires NonEmpty(segs)
    ensures var c := LineCall(d, segs);
            NonEmpty(c.segs) && (c.reading, c.lost + Flatten(c.segs)) == ReadLine(d, Flatten(segs))
  {
    assert [] + Flatten(segs) == Flatten(segs);
    LineFromMeaning(d, [], segs, Flatten(segs));
  }

  // The text of the first line: up to its newline, or without the last byte when there is none.
  predicate FirstText(input: string, text: string) {
    && |text| < |input| && text == input[..|text|]
    && '\n' !in text
    && (input[|text|] == '\n' || (|text| + 1 == |input| && '\n' !in input))
  }

  /** What the first line decides, for every cutting of every input: without any, the call panics; one
      that does not decode is reported and nothing behind it is looked at; a non-empty string is
      returned; one that decodes to nothing is skipped. */
  lemma FirstLineDecides(d: Decoder, segs: Source<char>, text: string)
    requires NonEmpty(segs)
    ensures Flatten(segs) == [] ==> LineCall(d, segs).reading == Crashed
    ensures FirstText(Flatten(segs), text) ==>
              var c, rest := LineCall(d, segs), Flatten(segs)[|text| + 1..];
              match d(text)
              case None => c.reading == Bad && c.lost + Flatten(c.segs) == rest
              case Some(s) =>
                if s == [] then (c.reading, c.lost + Flatten(c.segs)) == ReadLine(d, rest)
                else c.reading == Got(s) && c.lost + Flatten(c.segs) == rest
  {
    LineCallMeaning(d, segs);
    if FirstText(Flatten(segs), text) {
      FirstTextEnds(Flatten(segs), text);
    }
  }

  lemma FirstTextEnds(input: string, text: string)
    requires FirstText(input, text)
    ensures LineEnd(input) == |text| + 1 && input[..LineEnd(input) - 1] == text
  {
    if input[|text|] == '\n' {
      assert forall k :: 0 <= k < |text| ==> input[k] == text[k];
      FoundNewline(input, |text|);
    } else {
      FoundNewline(input, |input|);
    }
  }

  lemma {:induction false} ToFullCompletes(n: nat)
    ensures (n + ToFull(n)) % SIZE == 0 && ToFull(n) < SIZE
  {
    if n > SIZE {
      ToFullCompletes(n - SIZE);
      assert n + ToFull(n) == (n - SIZE + ToFull(n - SIZE)) + SIZE;
    }
  }

  // ------------------------------------------------------------------ round trip

  function Copies(line: string, k: nat): string {
    if k == 0 then [] else line + Copies(line, k - 1)
  }

  // A line with one newline, at its end, that decodes to s.
  predicate Reads(d: Decoder, line: string, s: string) {
    line != [] && FindNewline(line) + 1 == |line| && d(line[..|line| - 1]) == Some(s)
  }

  lemma LineComes(buf: string, segs: Source<char>, line: string, more: string)
    requires line != [] && FindNewline(line) + 1 == |line|
    requires NonEmpty(segs) && |buf| <= SIZE && buf + Flatten(segs) == line + more
    ensures Coming(buf, segs, |line|)
  {
    FoundNewlineIn(line, more, |line| - 1);
  }

  lemma LineLeaves(buf: string, segs: Source<char>, line: string, more: string, t: Taken)
    requires line != [] && FindNewline(line) + 1 == |line|
    requires NonEmpty(segs) && |buf| <= SIZE && buf + Flatten(segs) == line + more
    requires t == TakeBytes([], buf, segs)
    ensures Leaves(t, |buf|, segs, |line|)
  {
    LineComes(buf, segs, line, more);
    TakeBytesLeaves([], buf, segs, |line|, t, |buf|);
  }

  lemma TakesLine(d: Decoder, buf: string, segs: Source<char>, line: string, s: string, more: string)
    requires Reads(d, line, s) && NonEmpty(segs) && |buf| <= SIZE && buf + Flatten(segs) == line + more
    ensures var t := TakeBytes([], buf, segs);
            NonEmpty(t.segs) && |t.buf| <= SIZE && t.buf + Flatten(t.segs) == more && t.line == line
  {
    var input := line + more;
    LineEndIn(line, more);
    TakeBytesMeaning([], buf, segs, input);
    assert input[..|line|] == line && input[|line|..] == more;
  }

  // The call takes exactly this line: it goes on behind it or returns its string.
  lemma SkipsLine(d: Decoder, buf: string, segs: Source<char>, line: string, more: string)
    requires Reads(d, line, []) && NonEmpty(segs) && |buf| <= SIZE && buf + Flatten(segs) == line + more
    ensures var t := TakeBytes([], buf, segs);
            && NonEmpty(t.segs) && |t.buf| <= SIZE && t.buf + Flatten(t.segs) == more
            && LineFrom(d, buf, segs) == LineFrom(d, t.buf, t.segs)
  {
    TakesLine(d, buf, segs, line, [], more);
  }

  lemma ReturnsLine(d: Decoder, buf: string, segs: Source<char>, line: string, s: string, more: string)
    requires Reads(d, line, s) && s != [] && NonEmpty(segs) && |buf| <= SIZE && buf + Flatten(segs) == line + more
    ensures var t := TakeBytes([], buf, segs);
            && NonEmpty(t.segs) && t.buf + Flatten(t.segs) == more
            && LineFrom(d, buf, segs) == Call(Got(s), t.buf, t.segs)
  {
    TakesLine(d, buf, segs, line, s, more);
  }

  // What is lost behind the n characters a call takes: at most the rest of their segment, and all
  // of it when it fits into the buffer together with them.
  predicate LostBehind(lost: nat, buffered: nat, segs: Source<char>, n: nat) {
    if n <= buffered then lost == buffered - n
    else
      var rest := ToEnd(segs, n - buffered);
      lost <= rest && (n + rest <= SIZE ==> lost == rest)
  }

  lemma LostBehindLine(t: Taken, buffered: nat, segs: Source<char>, n: nat)
    requires Leaves(t, buffered, segs, n)
    ensures LostBehind(|t.buf|, buffered, segs, n)
  {
  }

  lemma LostBehindLines(t: Taken, lost: nat, buffered: nat, segs: Source<char>, n: nat, total: nat)
    requires 0 < n < total && Leaves(t, buffered, segs, n) && LostBehind(lost, |t.buf|, t.segs, total - n)
    ensures LostBehind(lost, buffered, segs, total)
  {
    if n > buffered {
      var past, m := n - buffered, total - n;
      if m > |t.buf| {
        assert ToEnd(t.segs, m - |t.buf|) == ToEnd(segs, past + |t.buf| + (m - |t.buf|));
        assert past + |t.buf| + (m - |t.buf|) == total - buffered;
      } else {
        ToEndFurther(segs, past, m);
        assert past + m == total - buffered;
      }
    }
  }

  // A call that returns s, leaves `more`, and loses what lies behind n characters.
  predicate Returns(c: Call, s: string, more: string, buffered: nat, segs: Source<char>, n: nat) {
    && NonEmpty(c.segs) && c.reading == Got(s) && c.lost + Flatten(c.segs) == more
    && LostBehind(|c.lost|, buffered, segs, n)
  }

  lemma ReturnsBehind(
    c: Call, s: string, more: string, t: Taken, buffered: nat, segs: Source<char>, n: nat, total: nat)
    requires 0 < n < total && Leaves(t, buffered, segs, n) && Returns(c, s, more, |t.buf|, t.segs, total - n)
    ensures Returns(c, s, more, buffered, segs, total)
  {
    LostBehindLines(t, |c.lost|, buffered, segs, n, total);
  }

  // Before this line, the call f goes on where the read g ends.
  ghost predicate SkipsOne(f: (string, Source<char>) -> Call, g: (string, Source<char>) -> Taken, empty: string,
                           buf: string, segs: Source<char>, rest: string)
  {
    NonEmpty(segs) && |buf| <= SIZE && buf + Flatten(segs) == empty + rest ==>
      var t := g(buf, segs);
      && NonEmpty(t.segs) && |t.buf| <= SIZE && t.buf + Flatten(t.segs) == rest
      && f(buf, segs) == f(t.buf, t.segs)
      && Leaves(t, |buf|, segs, |empty|)
  }

  // Before `tail`, the call f returns s and goes n characters far.
  predicate Ends(f: (string, Source<char>) -> Call, tail: string, s: string, more: string, n: nat,
                 buf: string, segs: Source<char>)
  {
    NonEmpty(segs) && |buf| <= SIZE && buf + Flatten(segs) == tail ==>
      Returns(f(buf, segs), s, more, |buf|, segs, n)
  }

  lemma {:induction false} SkipsCopies(
    f: (string, Source<char>) -> Call, g: (string, Source<char>) -> Taken, empty: string, k: nat,
    tail: string, s: string, more: string, m: nat, buf: string, segs: Source<char>, n: nat)
    requires empty != [] && m > 0 && n == |Copies(empty, k)| + m
    requires forall b, h, rest :: SkipsOne(f, g, empty, b, h, rest)
    requires forall b, h :: Ends(f, tail, s, more, m, b, h)
    requires NonEmpty(segs) && |buf| <= SIZE && buf + Flatten(segs) == Copies(empty, k) + tail
    ensures Returns(f(buf, segs), s, more, |buf|, segs, n)
    decreases k
  {
    if k == 0 {
      assert Copies(empty, k) + tail == tail;
      assert Ends(f, tail, s, more, m, buf, segs);
    } else {
      var t, rest := g(buf, segs), Copies(empty, k - 1);
      Assoc(empty, rest, tail);
      assert SkipsOne(f, g, empty, buf, segs, rest + tail);
      SkipsCopies(f, g, empty, k - 1, tail, s, more, m, t.buf, t.segs, n - |empty|);
      ReturnsBehind(f(t.buf, t.segs), s, more, t, |buf|, segs, |empty|, n);
    }
  }

  // One read and the loop of a call, as functions of any buffer.
  function Taker(): (string, Source<char>) -> Taken {
    (buf, segs) => if NonEmpty(segs) && |buf| <= SIZE then TakeBytes([], buf, segs) else Taken([], [], [])
  }

  function Caller(d: Decoder): (string, Source<char>) -> Call {
    (buf, segs) => if NonEmpty(segs) && |buf| <= SIZE then LineFrom(d, buf, segs) else Call(Bad, [], [])
  }

  lemma CallerSkips(d: Decoder, empty: string, buf: string, segs: Source<char>, rest: string)
    requires Reads(d, empty, [])
    ensures SkipsOne(Caller(d), Taker(), empty, buf, segs, rest)
  {
    if NonEmpty(segs) && |buf| <= SIZE && buf + Flatten(segs) == empty + rest {
      SkipsLine(d, buf, segs, empty, rest);
      LineLeaves(buf, segs, empty, rest, TakeBytes([], buf, segs));
    }
  }

  lemma CallerEnds(d: Decoder, line: string, s: string, more: string, buf: string, segs: Source<char>)
    requires Reads(d, line, s) && s != []
    ensures Ends(Caller(d), line + more, s, more, |line|, buf, segs)
  {
    if NonEmpty(segs) && |buf| <= SIZE && buf + Flatten(segs) == line + more {
      var t := TakeBytes([], buf, segs);
      ReturnsLine(d, buf, segs, line, s, more);
      LineLeaves(buf, segs, line, more, t);
      LostBehindLine(t, |buf|, segs, |line|);
    }
  }

  lemma LineReads(z: Zlib, s: string)
    requires Lawful(z)
    ensures Reads(DecodeLine(z), Line(z, s), s)
  {
    var text := EncodeBytes(z.deflate(s));
    BytesRoundTrip(z.deflate(s));
    assert forall k :: 0 <= k < |text| ==> Line(z, s)[k] == text[k];
    FoundNewline(Line(z, s), |text|);
    assert Line(z, s)[..|text|] == text;
  }

  /** TTY round trip: however the input is cut into underlying reads, behind any number of lines that
      encode the empty string a written non-empty string is read back. Lost is a piece of what
      follows its line, within the segment the line ends in: all the rest of that segment when the
      call's input and that rest fit into the buffer together. */
  lemma TtyRoundTrip(z: Zlib, empty: string, k: nat, s: string, more: string, segs: Source<char>)
    requires Lawful(z) && empty == "" && s != "" && NonEmpty(segs)
    requires Flatten(segs) == Copies(Line(z, empty), k) + (Line(z, s) + more)
    ensures var c := LineCall(DecodeLine(z), segs); var n := |Flatten(segs)| - |more|;
            && c.reading == Got(s)
            && c.lost + Flatten(c.segs) == more
            && |c.lost| <= ToEnd(segs, n)
            && (n + ToEnd(segs, n) <= SIZE ==> |c.lost| == ToEnd(segs, n))
  {
    LineReads(z, empty);
    LineReads(z, s);
    CallReturns(DecodeLine(z), Line(z, empty), k, Line(z, s), s, more, segs);
  }

  lemma CallReturns(
    d: Decoder, empty: string, k: nat, line: string, s: string, more: string, segs: Source<char>)
    requires Reads(d, empty, []) && Reads(d, line, s) && s != [] && NonEmpty(segs)
    requires Flatten(segs) == Copies(empty, k) + (line + more)
    ensures Returns(LineCall(d, segs), s, more, 0, segs, |Flatten(segs)| - |more|)
    ensures |Flatten(segs)| > |more|
  {
    forall b, h, rest ensures SkipsOne(Caller(d), Taker(), empty, b, h, rest) {
      CallerSkips(d, empty, b, h, rest);
    }
    forall b, h ensures Ends(Caller(d), line + more, s, more, |line|, b, h) {
      CallerEnds(d, line, s, more, b, h);
    }
    var start := [];
    assert start + Flatten(segs) == Flatten(segs);
    SkipsCopies(
      Caller(d), Taker(), empty, k, line + more, s, more, |line|, start, segs, |Flatten(segs)| - |more|);
  }

  /** Without empty lines in front the loss is exact for lines of any length: it goes to the end of
      the line's segment or of a full buffer, whichever comes first. Nothing is lost if and only if
      the line ends its segment or its length is a multiple of the buffer's. */
  lemma LostExactly(z: Zlib, s: string, more: string, segs: Source<char>)
    requires Lawful(z) && s != "" && NonEmpty(segs) && Flatten(segs) == Line(z, s) + more
    ensures var c := LineCall(DecodeLine(z), segs); var n := |Line(z, s)|;
            && c.reading == Got(s) && NonEmpty(c.segs)
            && c.lost + Flatten(c.segs) == more
            && |c.lost| == Min(ToEnd(segs, n), ToFull(n))
            && (c.lost == [] <==> ToEnd(segs, n) == 0 || n % SIZE == 0)
            && Shifted(c.segs, segs, n + |c.lost|)
  {
    LineReads(z, s);
    FullIffMultiple(|Line(z, s)|);
    LosesExactly(DecodeLine(z), Line(z, s), s, more, segs);
  }

  lemma LosesExactly(d: Decoder, line: string, s: string, more: string, segs: Source<char>)
    requires Reads(d, line, s) && s != [] && NonEmpty(segs) && Flatten(segs) == line + more
    ensures var c := LineCall(d, segs);
            && c.reading == Got(s) && NonEmpty(c.segs)
            && c.lost + Flatten(c.segs) == more
            && |c.lost| == Min(ToEnd(segs, |line|), ToFull(|line|))
            && Shifted(c.segs, segs, |line| + |c.lost|)
  {
    assert [] + Flatten(segs) == Flatten(segs);
    ReturnsLine(d, [], segs, line, s, more);
    LineLeaves([], segs, line, more, TakeBytes([], [], segs));
  }

  lemma {:induction false} FullIffMultiple(n: nat)
    ensures ToFull(n) == 0 <==> n % SIZE == 0
  {
    if n > SIZE {
      FullIffMultiple(n - SIZE);
    }
  }

  // Successive calls on one terminal.
  function LineCalls(d: Decoder, segs: Source<char>, calls: nat): seq<Reading>
    requires NonEmpty(segs)
    decreases calls
  {
    if calls == 0 then []
    else
      LineCallMeaning(d, segs);
      var c := LineCall(d, segs);
      [c.reading] + LineCalls(d, c.segs, calls - 1)
  }

  // Lines, one behind the other.
  function Joined(lines: seq<string>): string {
    if lines == [] then [] else lines[0] + Joined(lines[1..])
  }

  // No underlying read reaches across the end of a line.
  predicate EndsAtLines(lines: seq<string>, segs: Source<char>) {
    forall i :: 0 <= i <= |lines| ==> ToEnd(segs, |Joined(lines[..i])|) == 0
  }

  lemma EndsAtFirst(lines: seq<string>, segs: Source<char>)
    requires lines != [] && EndsAtLines(lines, segs)
    ensures ToEnd(segs, |lines[0]|) == 0
  {
    assert lines[..1][1..] == [] && Joined(lines[..1]) == lines[0];
  }

  lemma EndsBehindFirst(lines: seq<string>, segs: Source<char>, after: Source<char>)
    requires lines != [] && EndsAtLines(lines, segs) && Shifted(after, segs, |lines[0]|)
    ensures EndsAtLines(lines[1..], after)
  {
    forall i | 0 <= i <= |lines| - 1 ensures ToEnd(after, |Joined(lines[1..][..i])|) == 0 {
      assert lines[..i + 1][1..] == lines[1..][..i];
      assert |Joined(lines[..i + 1])| == |lines[0]| + |Joined(lines[1..][..i])|;
    }
  }

  function Gots(strs: seq<string>): seq<Reading> {
    seq(|strs|, i requires 0 <= i < |strs| => Got(strs[i]))
  }

  lemma {:induction false} CallsReturn(
    d: Decoder, lines: seq<string>, strs: seq<string>, more: string, segs: Source<char>)
    requires |lines| == |strs| && forall i :: 0 <= i < |strs| ==> strs[i] != [] && Reads(d, lines[i], strs[i])
    requires NonEmpty(segs) && Flatten(segs) == Joined(lines) + more && EndsAtLines(lines, segs)
    ensures LineCalls(d, segs, |strs|) == Gots(strs)
    decreases |strs|
  {
    if strs != [] {
      var tail := Joined(lines[1..]) + more;
      Assoc(lines[0], Joined(lines[1..]), more);
      EndsAtFirst(lines, segs);
      LosesExactly(d, lines[0], strs[0], tail, segs);
      var c := LineCall(d, segs);
      EndsBehindFirst(lines, segs, c.segs);
      assert [] + Flatten(c.segs) == Flatten(c.segs);
      CallsReturn(d, lines[1..], strs[1..], more, c.segs);
      assert Gots(strs) == [Got(strs[0])] + Gots(strs[1..]);
    }
  }

  function LinesOf(z: Zlib, strs: seq<string>): (lines: seq<string>)
    ensures |lines| == |strs|
  {
    seq(|strs|, i requires 0 <= i < |strs| => Line(z, strs[i]))
  }

  /** Strings written by one side are read by as many calls, in order, when every line ends the
      underlying read it came with, as it does when they are pasted one at a time. */
  lemma LinesArrive(z: Zlib, strs: seq<string>, more: string, segs: Source<char>)
    requires Lawful(z) && NonEmpty(segs) && Flatten(segs) == Joined(LinesOf(z, strs)) + more
    requires (forall i :: 0 <= i < |strs| ==> strs[i] != "") && EndsAtLines(LinesOf(z, strs), segs)
    ensures LineCalls(DecodeLine(z), segs, |strs|) == Gots(strs)
  {
    forall i | 0 <= i < |strs| ensures Reads(DecodeLine(z), LinesOf(z, strs)[i], strs[i]) {
      LineReads(z, strs[i]);
    }
    CallsReturn(DecodeLine(z), LinesOf(z, strs), strs, more, segs);
  }

  /** Two lines in one underlying read: the first call swallows the second line whole, and the next
      call finds the input exhausted. */
  lemma SecondLineLost(z: Zlib, s: string, t: string)
    requires Lawful(z) && s != "" && |Line(z, s) + Line(z, t)| <= SIZE
    ensures NonEmpty([Line(z, s) + Line(z, t)])
    ensures LineCall(DecodeLine(z), [Line(z, s) + Line(z, t)]) == Call(Got(s), Line(z, t), [])
    ensures LineCall(DecodeLine(z), []).reading == Crashed
  {
    LineReads(z, s);
    SecondLost(DecodeLine(z), Line(z, s), s, Line(z, t));
  }

  lemma SecondLost(d: Decoder, line: string, s: string, second: string)
    requires Reads(d, line, s) && s != [] && |line + second| <= SIZE
    ensures NonEmpty([line + second]) && LineCall(d, [line + second]) == Call(Got(s), second, [])
    ensures LineCall(d, []).reading == Crashed
  {
    var segs := [line + second];
    assert Flatten(segs) == segs[0] + Flatten(segs[1..]);
    LosesExactly(d, line, s, second, segs);
    var c := LineCall(d, segs);
    assert |c.lost| == |second|;
    assert Flatten(c.segs) == [];
    NoBytesNoSegments(c.segs);
    assert c.lost + [] == c.lost;
  }

  // ------------------------------------------------------------------ the terminal as the code runs it

  // Standard input; a read blocks until a segment is there or the input ends.
  class Terminal {
    var segs: Source<char>

    ghost predicate Valid() reads this { NonEmpty(segs) }

    constructor (segs: Source<char>)
      requires NonEmpty(segs)
      ensures Valid() && this.segs == segs
    {
      this.segs := segs;
    }

    // `ReadBytes('\n')` on a buffer.
    method ReadBytes(buffered: string) returns (line: string, buf: string)
      requires Valid() && |buffered| <= SIZE
      modifies this
      ensures Valid()
      ensures Taken(line, buf, segs) == TakeBytes([], buffered, old(segs))
    {
      var acc;
      acc, buf := [], buffered;
      while true
        invariant Valid() && |buf| <= SIZE
        invariant TakeBytes(acc, buf, segs) == TakeBytes([], buffered, old(segs))
        decreases |Flatten(segs)|, |buf|
      {
        var i := FindNewline(buf);
        if i < |buf| {
          return acc + buf[..i + 1], buf[i + 1..];
        }
        if |buf| == SIZE {
          acc, buf := acc + buf, [];
        } else if segs == [] {
          return acc + buf, [];
        } else {
          TakeKeepsBytes(segs, SIZE - |buf|);
          buf, segs := buf + Chunk(segs, SIZE - |buf|), After(segs, SIZE - |buf|);
        }
      }
    }

    /** One `readLine`, on a fresh empty buffer that is gone when it returns. */
    method Next(d: Decoder) returns (r: Reading, lost: string)
      requires Valid()
      modifies this
      ensures Valid()
      ensures Call(r, lost, segs) == LineCall(d, old(segs))
    {
      lost := [];
      while true
        invariant Valid() && |lost| <= SIZE
        invariant LineFrom(d, lost, segs) == LineCall(d, old(segs))
        decreases |lost| + |Flatten(segs)|
      {
        TakeBytesMeaning([], lost, segs, lost + Flatten(segs));
        var b;
        b, lost := ReadBytes(lost);
        if b == [] {
          return Crashed, lost;
        }
        var line := d(b[..|b| - 1]);
        if line.None? {
          return Bad, lost;
        }
        if line.value != [] {
          return Got(line.value), lost;
        }
      }
    }
  }
}
