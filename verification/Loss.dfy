/**
 What a message of bad length does to everything behind it: runs with messages of any length, over a
 transport that cuts and a reader that may read from the middle of a frame.
 */
module Loss {
  import opened Bytes
  import opened Framing
  import opened Segmented
  import opened ChunkedReader
  import opened Delivery
  import Noise

  // Everything one side has put on the wire, from the first message on.
  function Stream(a: Aead, key: Noise.Key, sent: seq<Bytestring>): Bytestring {
    if sent == [] then []
    else Stream(a, key, sent[..|sent| - 1]) + Frame(a.seal(key, |sent| - 1, sent[|sent| - 1]))
  }

  // Where the frame of message n starts; behind the last one, the end.
  function Start(a: Aead, key: Noise.Key, sent: seq<Bytestring>, n: nat): nat
    requires n <= |sent|
  {
    |Stream(a, key, sent[..n])|
  }

  // Where the ciphertext of message n starts.
  function Place(a: Aead, key: Noise.Key, sent: seq<Bytestring>, n: nat): nat
    requires n < |sent|
  {
    Start(a, key, sent, n) + HeaderLen(Width(|a.seal(key, n, sent[n])|))
  }

  // No forgeries among the pieces of a stream: under nonce n nothing opens but the ciphertext of
  // message n, where it stands.
  ghost predicate OpensInPlace(a: Aead, key: Noise.Key, sent: seq<Bytestring>) {
    var s := Stream(a, key, sent);
    forall n: nat, x, y :: n <= |sent| && 0 <= x <= y <= |s| && a.open(key, n, s[x..y]).Some? ==>
                             n < |sent| && x == Place(a, key, sent, n) && y == Start(a, key, sent, n + 1)
  }

  lemma StreamSnoc(a: Aead, key: Noise.Key, sent: seq<Bytestring>, plain: Bytestring)
    ensures Stream(a, key, sent + [plain]) == Stream(a, key, sent) + Frame(a.seal(key, |sent|, plain))
  {
    assert (sent + [plain])[..|sent|] == sent;
  }

  lemma {:induction false} StreamPrefix(a: Aead, key: Noise.Key, sent: seq<Bytestring>, all: seq<Bytestring>)
    requires sent <= all
    ensures Stream(a, key, sent) <= Stream(a, key, all)
    decreases |all|
  {
    if sent != all {
      var init := all[..|all| - 1];
      StreamPrefix(a, key, sent, init);
      assert Stream(a, key, all) == Stream(a, key, init) + Frame(a.seal(key, |all| - 1, all[|all| - 1]));
    }
  }

  lemma PlaceInPrefix(a: Aead, key: Noise.Key, sent: seq<Bytestring>, all: seq<Bytestring>, n: nat)
    requires sent <= all && n < |sent|
    ensures Place(a, key, sent, n) == Place(a, key, all, n)
    ensures Start(a, key, sent, n) == Start(a, key, all, n) && Start(a, key, sent, n + 1) == Start(a, key, all, n + 1)
    ensures Start(a, key, all, n + 1) == Start(a, key, all, n) + |Frame(a.seal(key, n, all[n]))|
  {
    assert sent[..n] == all[..n] && sent[..n + 1] == all[..n + 1];
    assert all[..n + 1] == all[..n] + [all[n]];
    StreamSnoc(a, key, all[..n], all[n]);
  }

  // A piece of the stream that is not the ciphertext of the next message does not open.
  lemma ElsewhereNothingOpens(
    a: Aead, key: Noise.Key, sent: seq<Bytestring>, all: seq<Bytestring>, k: nat, x: nat, y: nat)
    requires sent <= all && k < |sent| && OpensInPlace(a, key, all)
    requires x <= y <= |Stream(a, key, sent)|
    requires x != Place(a, key, sent, k) || y != Start(a, key, sent, k + 1)
    ensures a.open(key, k, Stream(a, key, sent)[x..y]) == None
  {
    StreamPrefix(a, key, sent, all);
    PlaceInPrefix(a, key, sent, all, k);
    assert Stream(a, key, sent)[x..y] == Stream(a, key, all)[x..y];
  }

  // ------------------------------------------------------------------ the two states of a link

  predicate AllFit(sent: seq<Bytestring>) {
    forall k :: 0 <= k < |sent| ==> Fits(sent[k])
  }

  predicate GoodBefore(sent: seq<Bytestring>, n: nat)
    requires n <= |sent|
  {
    forall k :: 0 <= k < n ==> Good(|sent[k]| + TAG)
  }

  // What both have in common: counters, keys, and reads that are a prefix of the writes, none of
  // them of a bad length.
  ghost predicate Basics(l: Link) {
    && l.enc.key == l.dec.key && Counting(l) && l.enc.n <= MAX_NONCE + 1
    && l.rcvd <= l.sent && NonEmpty(l.segs)
    && AllFit(l.sent) && GoodBefore(l.sent, |l.rcvd|)
  }

  // Nothing was lost: the transport holds a cutting of the frames that were not read.
  ghost predicate InStep(a: Aead, l: Link) {
    && Basics(l) && l.errors == 0
    && CutOf(l.segs, InFlight(a, l))
    && Stream(a, l.enc.key, l.sent) == Stream(a, l.enc.key, l.sent[..|l.rcvd|]) + Flatten(l.segs)
  }

  // The next message has a bad length and some read was spent on it: what is left of the stream
  // starts behind its header.
  ghost predicate Stalled(a: Aead, l: Link) {
    && Basics(l) && l.errors > 0
    && |l.rcvd| < |l.sent| && !Good(|l.sent[|l.rcvd|]| + TAG)
    && IsTail(Flatten(l.segs), Stream(a, l.enc.key, l.sent))
    && |Stream(a, l.enc.key, l.sent)| - |Flatten(l.segs)| >= Place(a, l.enc.key, l.sent, |l.rcvd|)
  }

  ghost predicate Tracked(a: Aead, l: Link) {
    InStep(a, l) || Stalled(a, l)
  }

  // ------------------------------------------------------------------ writes

  lemma SendBasics(a: Aead, l: Link, plain: Bytestring, cut: Segments)
    requires Basics(l) && Fits(plain) && NonEmpty(cut)
    ensures Basics(Send(a, l, plain, cut))
    ensures l.sent <= Send(a, l, plain, cut).sent
  {
  }

  lemma SendInStep(a: Aead, l: Link, plain: Bytestring, cut: Segments)
    requires InStep(a, l) && Fits(plain) && NonEmpty(cut)
    requires Flatten(cut) == Frame(a.seal(l.enc.key, l.enc.n, plain))
    ensures InStep(a, Send(a, l, plain, cut))
  {
    SendBasics(a, l, plain, cut);
    if l.enc.n <= MAX_NONCE {
      var l', key := Send(a, l, plain, cut), l.enc.key;
      SendAddsToFlight(a, l, plain, cut);
      CutSnoc(l.segs, InFlight(a, l), cut, a.seal(key, l.enc.n, plain));
      StreamSnoc(a, key, l.sent, plain);
      FlattenConcat(l.segs, cut);
      assert l'.sent[..|l.rcvd|] == l.sent[..|l.rcvd|];
      Assoc(Stream(a, key, l.sent[..|l.rcvd|]), Flatten(l.segs), Flatten(cut));
    }
  }

  lemma SendStalled(a: Aead, l: Link, plain: Bytestring, cut: Segments)
    requires Stalled(a, l) && Fits(plain) && NonEmpty(cut)
    requires Flatten(cut) == Frame(a.seal(l.enc.key, l.enc.n, plain))
    ensures Stalled(a, Send(a, l, plain, cut))
  {
    SendBasics(a, l, plain, cut);
    if l.enc.n <= MAX_NONCE {
      var l', key := Send(a, l, plain, cut), l.enc.key;
      StreamSnoc(a, key, l.sent, plain);
      FlattenConcat(l.segs, cut);
      PlaceInPrefix(a, key, l.sent, l'.sent, |l.rcvd|);
      TailSnoc(Flatten(l.segs), Stream(a, key, l.sent), Flatten(cut));
    }
  }

  lemma TailSnoc(rest: Bytestring, s: Bytestring, more: Bytestring)
    requires IsTail(rest, s)
    ensures IsTail(rest + more, s + more)
  {
  }

  // ------------------------------------------------------------------ reads

  lemma ReceiveIdle(a: Aead, l: Link)
    requires InStep(a, l) && |l.rcvd| == |l.sent|
    ensures Receive(a, l) == l
  {
    assert InFlight(a, l) == [];
  }

  lemma FrontFrame(segs: Segments, payloads: seq<Bytestring>)
    requires payloads != [] && CutOf(segs, payloads)
    ensures var f, s := Frame(payloads[0]), Flatten(segs); |f| <= |s| && s == f + s[|f|..]
  {
    var k: nat :| CutAt(segs, payloads, k);
    FlattenConcat(segs[..k], segs[k..]);
    assert segs[..k] + segs[k..] == segs;
  }

  // The head of the transport is the frame of the next message.
  lemma HeadFrame(a: Aead, l: Link)
    requires InStep(a, l) && |l.rcvd| < |l.sent|
    ensures var sealed := a.seal(l.enc.key, |l.rcvd|, l.sent[|l.rcvd|]); var s := Flatten(l.segs);
            && |InFlight(a, l)| > 0 && InFlight(a, l)[0] == sealed
            && |Frame(sealed)| <= |s| && s == Frame(sealed) + s[|Frame(sealed)|..]
  {
    assert |InFlight(a, l)| > 0;
    FrontFrame(l.segs, InFlight(a, l));
  }

  lemma ReadsHead(a: Aead, l: Link)
    requires Lawful(a) && InStep(a, l) && |l.rcvd| < |l.sent| && Good(|l.sent[|l.rcvd|]| + TAG)
    ensures var c := ReadCall(l.segs);
            && c.outcome == Ok(a.seal(l.enc.key, |l.rcvd|, l.sent[|l.rcvd|])) && c.lost == []
            && NonEmpty(c.segs) && CutOf(c.segs, InFlight(a, l)[1..])
    ensures !Blocks(l.segs)
  {
    HeadFrame(a, l);
    assert Fits(l.sent[|l.rcvd|]);
    ReadsFirstFrame(l.segs, InFlight(a, l));
  }

  lemma ReceiveGood(a: Aead, l: Link)
    requires Lawful(a) && InStep(a, l) && |l.rcvd| < |l.sent| && Good(|l.sent[|l.rcvd|]| + TAG)
    ensures InStep(a, Receive(a, l))
    ensures Receive(a, l) == OneRead(l, ReadCall(l.segs).segs)
  {
    ReadsHead(a, l);
    assert Receive(a, l) == OneRead(l, ReadCall(l.segs).segs);
    TakesHead(a, l, ReadCall(l.segs).segs);
    OneReadInStep(a, l, ReadCall(l.segs).segs);
  }

  lemma OneReadBasics(l: Link, segs: Segments)
    requires Basics(l) && |l.rcvd| < |l.sent| && Good(|l.sent[|l.rcvd|]| + TAG) && NonEmpty(segs)
    ensures Basics(OneRead(l, segs))
    ensures l.sent[..|OneRead(l, segs).rcvd|] == l.sent[..|l.rcvd| + 1]
  {
  }

  lemma OneReadFlight(a: Aead, l: Link, segs: Segments)
    requires |l.rcvd| < |l.sent|
    ensures InFlight(a, OneRead(l, segs)) == InFlight(a, l)[1..]
  {
  }

  lemma OneReadInStep(a: Aead, l: Link, segs: Segments)
    requires InStep(a, l) && |l.rcvd| < |l.sent| && Good(|l.sent[|l.rcvd|]| + TAG)
    requires NonEmpty(segs) && CutOf(segs, InFlight(a, l)[1..])
    requires Stream(a, l.enc.key, l.sent) == Stream(a, l.enc.key, l.sent[..|l.rcvd| + 1]) + Flatten(segs)
    ensures InStep(a, OneRead(l, segs))
  {
    OneReadBasics(l, segs);
    OneReadFlight(a, l, segs);
  }

  lemma TakesHead(a: Aead, l: Link, segs: Segments)
    requires Lawful(a) && InStep(a, l) && |l.rcvd| < |l.sent| && Good(|l.sent[|l.rcvd|]| + TAG)
    requires var c := ReadCall(l.segs); c.outcome.Ok? && c.lost == [] && c.segs == segs
    ensures Stream(a, l.enc.key, l.sent) == Stream(a, l.enc.key, l.sent[..|l.rcvd| + 1]) + Flatten(segs)
  {
    var key, n := l.enc.key, |l.rcvd|;
    HeadFrame(a, l);
    assert Fits(l.sent[n]);
    TakesFrame(l.segs, a.seal(key, n, l.sent[n]));
    StreamNext(a, key, l.sent, n, Flatten(segs));
  }

  lemma TakesFrame(segs: Segments, payload: Bytestring)
    requires NonEmpty(segs) && |Frame(payload)| < INT_LIMIT && Good(|payload|)
    requires var s := Flatten(segs); |Frame(payload)| <= |s| && s == Frame(payload) + s[|Frame(payload)|..]
    requires ReadCall(segs).outcome.Ok? && ReadCall(segs).lost == []
    ensures Flatten(segs) == Frame(payload) + Flatten(ReadCall(segs).segs)
  {
    ReadCallMeaning(segs);
    HeadEnds(payload, Flatten(segs));
  }

  lemma StreamNext(a: Aead, key: Noise.Key, sent: seq<Bytestring>, n: nat, rest: Bytestring)
    requires n < |sent|
    ensures Stream(a, key, sent[..n]) + (Frame(a.seal(key, n, sent[n])) + rest) == Stream(a, key, sent[..n + 1]) + rest
  {
    assert sent[..n + 1] == sent[..n] + [sent[n]];
    StreamSnoc(a, key, sent[..n], sent[n]);
    Assoc(Stream(a, key, sent[..n]), Frame(a.seal(key, n, sent[n])), rest);
  }

  lemma HeadEnds(payload: Bytestring, s: Bytestring)
    requires |Frame(payload)| <= |s| && s == Frame(payload) + s[|Frame(payload)|..]
    requires |Frame(payload)| < INT_LIMIT && Good(|payload|)
    ensures FrameEnd(s) == |Frame(payload)|
  {
    var rest := payload + s[|Frame(payload)|..];
    assert s == Header(|payload|) + rest;
    HeaderExactness(|payload|, rest);
  }

  lemma PieceOfTail(rest: Bytestring, s: Bytestring, x: nat, y: nat)
    requires IsTail(rest, s) && x <= y <= |rest|
    ensures rest[x..y] == s[|s| - |rest| + x..|s| - |rest| + y]
  {
  }

  // What a read returns is a piece of the stream, at least two bytes behind where it starts.
  lemma ReadsPiece(segs: Segments, stream: Bytestring) returns (x: nat)
    requires NonEmpty(segs) && ReadCall(segs).outcome.Ok? && IsTail(Flatten(segs), stream)
    ensures var b := ReadCall(segs).outcome.payload;
            && |stream| - |Flatten(segs)| + 2 <= x && x + |b| <= |stream|
            && b == stream[x..x + |b|]
  {
    ReadCallMeaning(segs);
    var s, b := Flatten(segs), ReadCall(segs).outcome.payload;
    var h := HeaderLen(LengthBytes(s));
    x := |stream| - |s| + h;
    assert b == s[h..h + |b|];
    PieceOfTail(s, stream, h, h + |b|);
    assert x + |b| == |stream| - |s| + (h + |b|);
  }

  // A read that opens nothing leaves the counters and the reads alone.
  lemma FailedReceive(a: Aead, l: Link)
    requires Basics(l) && !Blocks(l.segs)
    requires ReadCall(l.segs).outcome.Ok? ==> a.open(l.dec.key, l.dec.n, ReadCall(l.segs).outcome.payload).None?
    ensures Receive(a, l) == l.(segs := ReadCall(l.segs).segs, errors := l.errors + 1)
    ensures Basics(Receive(a, l))
  {
    ReadCallConsumes(l.segs);
    ReadCallMeaning(l.segs);
  }

  lemma ShorterOpensNothing(
    a: Aead, key: Noise.Key, sent: seq<Bytestring>, all: seq<Bytestring>, n: nat, x: nat, y: nat)
    requires sent <= all && n < |sent| && OpensInPlace(a, key, all)
    requires x <= y <= |Stream(a, key, sent)| && y - x < |a.seal(key, n, sent[n])|
    ensures a.open(key, n, Stream(a, key, sent)[x..y]) == None
  {
    PlaceInPrefix(a, key, sent, sent, n);
    ElsewhereNothingOpens(a, key, sent, all, n, x, y);
  }

  lemma BadHeadReads(a: Aead, l: Link)
    requires Lawful(a) && InStep(a, l) && |l.rcvd| < |l.sent| && !Good(|l.sent[|l.rcvd|]| + TAG)
    ensures var c := ReadCall(l.segs);
            && c.outcome.Ok? && |c.outcome.payload| < |a.seal(l.enc.key, |l.rcvd|, l.sent[|l.rcvd|])|
    ensures !Blocks(l.segs)
  {
    var n := |l.rcvd|;
    HeadFrame(a, l);
    assert Fits(l.sent[n]);
    BadHead(a.seal(l.enc.key, n, l.sent[n]), Flatten(l.segs));
    ReadCallMeaning(l.segs);
  }

  // The read at a frame of bad length returns fewer bytes, which do not open.
  lemma BadOpensNothing(a: Aead, l: Link, all: seq<Bytestring>)
    requires Lawful(a) && InStep(a, l) && l.sent <= all && OpensInPlace(a, l.enc.key, all)
    requires |l.rcvd| < |l.sent| && !Good(|l.sent[|l.rcvd|]| + TAG)
    ensures ReadCall(l.segs).outcome.Ok?
    ensures a.open(l.dec.key, l.dec.n, ReadCall(l.segs).outcome.payload).None?
  {
    var key, n := l.enc.key, |l.rcvd|;
    BehindIsTail(Stream(a, key, l.sent[..n]), Flatten(l.segs));
    BadHeadReads(a, l);
    var x := ReadsPiece(l.segs, Stream(a, key, l.sent));
    ShorterOpensNothing(a, key, l.sent, all, n, x, x + |ReadCall(l.segs).outcome.payload|);
  }

  lemma ReceiveBad(a: Aead, l: Link, all: seq<Bytestring>)
    requires Lawful(a) && InStep(a, l) && l.sent <= all && OpensInPlace(a, l.enc.key, all)
    requires |l.rcvd| < |l.sent| && !Good(|l.sent[|l.rcvd|]| + TAG)
    ensures Stalled(a, Receive(a, l)) && Receive(a, l).rcvd == l.rcvd
  {
    BadOpensNothing(a, l, all);
    BadHeadReads(a, l);
    FailedReceive(a, l);
    HeadFrame(a, l);
    BehindIsTail(Stream(a, l.enc.key, l.sent[..|l.rcvd|]), Flatten(l.segs));
    ReadCallConsumes(l.segs);
    TailOfTail(Flatten(ReadCall(l.segs).segs), Flatten(l.segs), Stream(a, l.enc.key, l.sent));
  }

  // A frame of bad length is read as a shorter one.
  lemma BadHead(payload: Bytestring, s: Bytestring)
    requires |Frame(payload)| <= |s| && s == Frame(payload) + s[|Frame(payload)|..]
    requires |Frame(payload)| < INT_LIMIT && !Good(|payload|)
    ensures Parse(s).Ok? && |Parse(s).payload| < |payload|
  {
    FrameRoundTrip(payload, s[|Frame(payload)|..]);
  }

  lemma StalledOpensNothing(a: Aead, l: Link, all: seq<Bytestring>)
    requires Stalled(a, l) && l.sent <= all && OpensInPlace(a, l.enc.key, all)
    requires ReadCall(l.segs).outcome.Ok?
    ensures a.open(l.dec.key, l.dec.n, ReadCall(l.segs).outcome.payload).None?
  {
    var key, n := l.enc.key, |l.rcvd|;
    var x := ReadsPiece(l.segs, Stream(a, key, l.sent));
    ElsewhereNothingOpens(a, key, l.sent, all, n, x, x + |ReadCall(l.segs).outcome.payload|);
  }

  lemma ReceiveStalled(a: Aead, l: Link, all: seq<Bytestring>)
    requires Stalled(a, l) && l.sent <= all && OpensInPlace(a, l.enc.key, all)
    ensures Stalled(a, Receive(a, l)) && Receive(a, l).rcvd == l.rcvd
  {
    if !Blocks(l.segs) {
      if ReadCall(l.segs).outcome.Ok? {
        StalledOpensNothing(a, l, all);
      }
      FailedReceive(a, l);
      ReadCallConsumes(l.segs);
      TailOfTail(Flatten(ReadCall(l.segs).segs), Flatten(l.segs), Stream(a, l.enc.key, l.sent));
    }
  }

  // ------------------------------------------------------------------ steps and runs

  // A stalled link reads nothing more.
  ghost predicate Steps(a: Aead, l: Link, l': Link) {
    && Tracked(a, l') && l.sent <= l'.sent && l'.enc.key == l.enc.key
    && (Stalled(a, l) ==> Stalled(a, l') && l'.rcvd == l.rcvd)
  }

  lemma SendSteps(a: Aead, l: Link, plain: Bytestring, cut: Segments)
    requires Tracked(a, l) && Fits(plain) && NonEmpty(cut)
    requires Flatten(cut) == Frame(a.seal(l.enc.key, l.enc.n, plain))
    ensures Steps(a, l, Send(a, l, plain, cut))
  {
    SendBasics(a, l, plain, cut);
    if InStep(a, l) {
      SendInStep(a, l, plain, cut);
    } else {
      SendStalled(a, l, plain, cut);
    }
  }

  lemma ReceiveSteps(a: Aead, l: Link, all: seq<Bytestring>)
    requires Lawful(a) && Tracked(a, l) && l.sent <= all && OpensInPlace(a, l.enc.key, all)
    ensures Steps(a, l, Receive(a, l))
  {
    if Stalled(a, l) {
      ReceiveStalled(a, l, all);
    } else if |l.rcvd| == |l.sent| {
      ReceiveIdle(a, l);
    } else if Good(|l.sent[|l.rcvd|]| + TAG) {
      ReceiveGood(a, l);
    } else {
      ReceiveBad(a, l, all);
    }
  }

  ghost predicate BothTracked(a: Aead, s: Session) {
    Tracked(a, s.toResponder) && Tracked(a, s.toInitiator)
  }

  ghost predicate BothStep(a: Aead, s: Session, s': Session) {
    Steps(a, s.toResponder, s'.toResponder) && Steps(a, s.toInitiator, s'.toInitiator)
  }

  // Both directions of a session, and everything that will have been sent on them.
  ghost predicate BothOpenInPlace(a: Aead, s: Session, all: Session) {
    && s.toResponder.sent <= all.toResponder.sent && s.toInitiator.sent <= all.toInitiator.sent
    && OpensInPlace(a, s.toResponder.enc.key, all.toResponder.sent)
    && OpensInPlace(a, s.toInitiator.enc.key, all.toInitiator.sent)
  }

  lemma DoSteps(a: Aead, s: Session, act: Act, all: Session)
    requires Lawful(a) && BothTracked(a, s) && Allowed(a, s, act) && BothOpenInPlace(a, s, all)
    ensures BothStep(a, s, Do(a, s, act))
  {
    match act {
      case Write(byI, plain, cut) => SendSteps(a, if byI then s.toResponder else s.toInitiator, plain, cut);
      case Read(byI) =>
        if byI {
          ReceiveSteps(a, s.toInitiator, all.toInitiator.sent);
        } else {
          ReceiveSteps(a, s.toResponder, all.toResponder.sent);
        }
    }
  }

  lemma SentGrows(a: Aead, states: seq<Session>, acts: seq<Act>, i: nat)
    requires IsRun(a, states, acts) && i < |states|
    ensures states[i].toResponder.sent <= states[|acts|].toResponder.sent
    ensures states[i].toInitiator.sent <= states[|acts|].toInitiator.sent
  {
    for k := i to |acts|
      invariant states[i].toResponder.sent <= states[k].toResponder.sent
      invariant states[i].toInitiator.sent <= states[k].toInitiator.sent
    {
      assert Follows(a, states[k], acts[k], states[k + 1]);
    }
  }

  // The session has the keys that its two ends agreed on, and nothing was sent yet.
  predicate Fresh(s: Session) {
    && s.toResponder == FreshLink(s.toResponder.enc.key, s.toResponder.enc.key)
    && s.toInitiator == FreshLink(s.toInitiator.enc.key, s.toInitiator.enc.key)
  }

  ghost predicate FinalOpensInPlace(a: Aead, s: Session) {
    && OpensInPlace(a, s.toResponder.enc.key, s.toResponder.sent)
    && OpensInPlace(a, s.toInitiator.enc.key, s.toInitiator.sent)
  }

  lemma FreshIsTracked(a: Aead, l: Link)
    requires l == FreshLink(l.enc.key, l.enc.key)
    ensures Tracked(a, l)
  {
    assert InFlight(a, l) == [];
  }

  lemma CountingOf(s: Session)
    requires Fresh(s)
    ensures Counting(s.toResponder) && Counting(s.toInitiator)
  {
  }

  lemma RunIsTracked(a: Aead, states: seq<Session>, acts: seq<Act>)
    requires Lawful(a) && IsRun(a, states, acts) && Fresh(states[0]) && FinalOpensInPlace(a, states[|acts|])
    ensures forall i :: 0 <= i < |states| ==> BothTracked(a, states[i])
    ensures forall i :: 0 <= i < |acts| ==> BothStep(a, states[i], states[i + 1])
  {
    FreshIsTracked(a, states[0].toResponder);
    FreshIsTracked(a, states[0].toInitiator);
    CountingOf(states[0]);
    CountersCount(a, states, acts);
    for k := 0 to |acts|
      invariant forall i :: 0 <= i <= k ==> BothTracked(a, states[i])
      invariant forall i :: 0 <= i < k ==> BothStep(a, states[i], states[i + 1])
    {
      assert Follows(a, states[k], acts[k], states[k + 1]);
      SentGrows(a, states, acts, k);
      assert BothOpenInPlace(a, states[k], states[|acts|]);
      DoSteps(a, states[k], acts[k], states[|acts|]);
    }
  }

  // What one direction has delivered: messages in order, all of good length; once a read was spent
  // on the next one, that one is of bad length.
  predicate DeliveredGood(l: Link) {
    && Counting(l) && l.rcvd <= l.sent && GoodBefore(l.sent, |l.rcvd|)
    && (l.errors > 0 ==> |l.rcvd| < |l.sent| && !Good(|l.sent[|l.rcvd|]| + TAG))
    && (l.errors == 0 && l.segs == [] ==> l.rcvd == l.sent)
  }

  lemma TrackedDelivers(a: Aead, l: Link)
    requires Tracked(a, l)
    ensures DeliveredGood(l) && NonEmpty(l.segs)
    ensures Stalled(a, l) <==> l.errors > 0
  {
    if InStep(a, l) && |l.rcvd| < |l.sent| {
      HeadFrame(a, l);
    }
  }

  /** Exactly what gets through, in every run with messages of any length, any cutting and any reads:
      each side has read a prefix of what the other wrote, all of good length; the first read that
      goes wrong is spent on a message of bad length, and after it nothing is ever read again. */
  lemma NothingBehindBadLength(a: Aead, states: seq<Session>, acts: seq<Act>)
    requires Lawful(a) && IsRun(a, states, acts) && Fresh(states[0]) && FinalOpensInPlace(a, states[|acts|])
    ensures forall i :: 0 <= i < |states| ==>
              DeliveredGood(states[i].toResponder) && DeliveredGood(states[i].toInitiator)
    ensures forall i, j :: 0 <= i <= j < |states| ==>
              && (states[i].toResponder.errors > 0 ==> states[j].toResponder.rcvd == states[i].toResponder.rcvd)
              && (states[i].toInitiator.errors > 0 ==> states[j].toInitiator.rcvd == states[i].toInitiator.rcvd)
  {
    RunIsTracked(a, states, acts);
    forall i | 0 <= i < |states|
      ensures DeliveredGood(states[i].toResponder) && DeliveredGood(states[i].toInitiator)
    {
      assert BothTracked(a, states[i]);
      TrackedDelivers(a, states[i].toResponder);
      TrackedDelivers(a, states[i].toInitiator);
    }
    forall i, j | 0 <= i <= j < |states|
      ensures states[i].toResponder.errors > 0 ==> states[j].toResponder.rcvd == states[i].toResponder.rcvd
      ensures states[i].toInitiator.errors > 0 ==> states[j].toInitiator.rcvd == states[i].toInitiator.rcvd
    {
      StalledStays(a, states, acts, i, j);
    }
  }

  lemma StalledStays(a: Aead, states: seq<Session>, acts: seq<Act>, i: nat, j: nat)
    requires IsRun(a, states, acts) && i <= j < |states|
    requires forall i :: 0 <= i < |states| ==> BothTracked(a, states[i])
    requires forall i :: 0 <= i < |acts| ==> BothStep(a, states[i], states[i + 1])
    ensures states[i].toResponder.errors > 0 ==> states[j].toResponder.rcvd == states[i].toResponder.rcvd
    ensures states[i].toInitiator.errors > 0 ==> states[j].toInitiator.rcvd == states[i].toInitiator.rcvd
  {
    assert BothTracked(a, states[i]);
    TrackedDelivers(a, states[i].toResponder);
    TrackedDelivers(a, states[i].toInitiator);
    for k := i to j
      invariant states[i].toResponder.errors > 0 ==>
                  Stalled(a, states[k].toResponder) && states[k].toResponder.rcvd == states[i].toResponder.rcvd
      invariant states[i].toInitiator.errors > 0 ==>
                  Stalled(a, states[k].toInitiator) && states[k].toInitiator.rcvd == states[i].toInitiator.rcvd
    {
      assert BothStep(a, states[k], states[k + 1]);
    }
  }

  // The session of a completed handshake is such a start.
  lemma ConnectIsFresh(
    i: Noise.Identity, ei: Noise.Secret, vi: Bytestring -> bool,
    r: Noise.Identity, er: Noise.Secret, vr: Bytestring -> bool)
    requires Noise.Offer(i, ei).Some? && !vr([])
    requires Noise.Respond(r, er, Noise.Offer(i, ei).value.msg, vr).Some?
    requires var hello, acc := Noise.Offer(i, ei).value, Noise.Respond(r, er, Noise.Offer(i, ei).value.msg, vr).value;
             Noise.Conclude(i, hello, acc.reply, vi).Some?
    ensures var hello, acc := Noise.Offer(i, ei).value, Noise.Respond(r, er, Noise.Offer(i, ei).value.msg, vr).value;
            Fresh(Connect(Noise.Conclude(i, hello, acc.reply, vi).value, acc.m))
  {
    Noise.HandshakePairing(i, ei, vi, r, er, vr);
  }

  // ------------------------------------------------------------------ an example of what is assumed

  // A cipher that marks both ends of a message with its nonce.
  function Mark(i: nat): (m: Bytestring)
    requires i < 100
    ensures |m| == 8 && forall k :: 0 <= k < 8 ==> m[k] == 100 + i
  {
    seq(8, _ => 100 + i)
  }

  function Marked(n: nat, plain: Bytestring): (c: Bytestring)
    ensures |c| == |plain| + TAG
  {
    Mark(2 * (n % 50)) + plain + Mark(2 * (n % 50) + 1)
  }

  function Unmarked(n: nat, c: Bytestring): Option<Bytestring> {
    if |c| < TAG || c[..8] != Mark(2 * (n % 50)) || c[|c| - 8..] != Mark(2 * (n % 50) + 1) then None
    else Some(c[8..|c| - 8])
  }

  function Marker(): Aead {
    Aead((k, n, p) => Marked(n, p), (k, n, c) => Unmarked(n, c))
  }

  lemma MarkerIsLawful()
    ensures Lawful(Marker())
  {
    forall k, n: nat, p
      ensures |Marker().seal(k, n, p)| == |p| + TAG && Marker().open(k, n, Marker().seal(k, n, p)) == Some(p)
    {
      var c := Marked(n, p);
      assert c[..8] == Mark(2 * (n % 50)) && c[|c| - 8..] == Mark(2 * (n % 50) + 1) && c[8..|c| - 8] == p;
    }
  }

  // Two messages, the first of a bad length, and their frames byte by byte.
  const LONG: nat := 2544

  function Letters(n: nat): (p: Bytestring)
    ensures |p| == n && forall k :: 0 <= k < n ==> p[k] == 85
  {
    seq(n, _ => 85)
  }

  function LongThenShort(): seq<Bytestring> {
    [Letters(LONG), Letters(2)]
  }

  lemma MarkedBytes(n: nat, plain: Bytestring, i: nat)
    requires n < 50 && i < |plain| + TAG
    ensures Marked(n, plain)[i] ==
            if i < 8 then 100 + 2 * n else if i < |plain| + 8 then plain[i - 8] else 101 + 2 * n
  {
  }

  function ByteAt(i: nat): byte {
    if i < 3 then (if i == 0 then 0 else NEWLINE)
    else if i < 11 then 100
    else if i < 2555 then 85
    else if i < 2563 then 101
    else if i < 2565 then (if i == 2563 then 18 else NEWLINE)
    else if i < 2573 then 102
    else if i < 2575 then 85
    else 103
  }

  lemma Headers()
    ensures Header(2560) == [0, NEWLINE, NEWLINE] && Header(18) == [18, NEWLINE]
  {
    NextByte(2560, 2);
    NextByte(10, 1);
    NextByte(18, 1);
    assert LowBytes(2560, 2) == [0] + LowBytes(10, 1);
    assert LowBytes(10, 1) == [10] + LowBytes(0, 0);
    assert LowBytes(18, 1) == [18] + LowBytes(0, 0);
  }

  lemma ExampleStream(key: Noise.Key)
    ensures var sent := LongThenShort();
            && Stream(Marker(), key, sent) == Frame(Marked(0, sent[0])) + Frame(Marked(1, sent[1]))
            && Start(Marker(), key, sent, 0) == 0
            && Start(Marker(), key, sent, 1) == |Frame(Marked(0, sent[0]))|
            && Start(Marker(), key, sent, 2) == |Stream(Marker(), key, sent)|
  {
    var sent := LongThenShort();
    assert sent[..0] == [] && sent[..1] == [] + [sent[0]] && sent[..2] == sent == [sent[0]] + [sent[1]];
    StreamSnoc(Marker(), key, [], sent[0]);
    StreamSnoc(Marker(), key, [sent[0]], sent[1]);
  }

  lemma ExampleBytes(key: Noise.Key)
    ensures var s := Stream(Marker(), key, LongThenShort());
            |s| == 2583 && forall i :: 0 <= i < 2583 ==> s[i] == ByteAt(i)
    ensures Place(Marker(), key, LongThenShort(), 0) == 3 && Start(Marker(), key, LongThenShort(), 1) == 2563
    ensures Place(Marker(), key, LongThenShort(), 1) == 2565 && Start(Marker(), key, LongThenShort(), 2) == 2583
  {
    var sent := LongThenShort();
    Headers();
    ExampleStream(key);
    var s, c, d := Stream(Marker(), key, sent), Marked(0, sent[0]), Marked(1, sent[1]);
    assert s == [0, NEWLINE, NEWLINE] + c + ([18, NEWLINE] + d);
    forall i | 0 <= i < 2583 ensures s[i] == ByteAt(i) {
      if 3 <= i < 2563 {
        MarkedBytes(0, sent[0], i - 3);
      } else if 2565 <= i {
        MarkedBytes(1, sent[1], i - 2565);
      }
    }
  }

  lemma ExampleOpensInPlace(key: Noise.Key)
    ensures OpensInPlace(Marker(), key, LongThenShort())
  {
    var sent := LongThenShort();
    var s := Stream(Marker(), key, sent);
    ExampleBytes(key);
    forall n: nat, x, y | n <= |sent| && 0 <= x <= y <= |s| && Marker().open(key, n, s[x..y]).Some?
      ensures n < |sent| && x == Place(Marker(), key, sent, n) && y == Start(Marker(), key, sent, n + 1)
    {
      var c := s[x..y];
      assert c[..8][0] == c[0] == s[x] && c[..8][7] == c[7] == s[x + 7];
      assert c[|c| - 8..][0] == c[|c| - 8] == s[y - 8] && c[|c| - 8..][7] == c[|c| - 1] == s[y - 1];
    }
  }

  // What is assumed of the pieces of a stream can be met by a stream with a message of bad length, so
  // the theorem is not about nothing.
  lemma BadLengthInPlaceExists(key: Noise.Key)
    ensures exists a, sent :: Lawful(a) && OpensInPlace(a, key, sent) && |sent| == 2 && !Good(|sent[0]| + TAG)
  {
    MarkerIsLawful();
    ExampleOpensInPlace(key);
    Headers();
    assert LowBytes(2560, 2)[1] == NEWLINE by {
      NextByte(2560, 2);
      NextByte(10, 1);
      assert LowBytes(2560, 2)[1] == LowBytes(2560, 2)[1..][0];
    }
    assert !Good(|LongThenShort()[0]| + TAG);
  }
}
