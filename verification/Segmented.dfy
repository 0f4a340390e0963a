/**
 A byte source seen through its underlying reads: each hands out at most one segment, and fewer
 bytes when the buffer has less room. The source ends after the last segment.
 */
module Segmented {
  import opened Bytes

  type Source<T> = seq<seq<T>>

  predicate NonEmpty<T>(segs: Source<T>) {
    forall i :: 0 <= i < |segs| ==> segs[i] != []
  }

  function Flatten<T>(segs: Source<T>): seq<T> {
    if segs == [] then [] else segs[0] + Flatten(segs[1..])
  }

  // One underlying read into a buffer of `room` bytes.
  function Chunk<T>(segs: Source<T>, room: nat): seq<T>
    requires segs != []
  {
    segs[0][..Min(room, |segs[0]|)]
  }

  function After<T>(segs: Source<T>, room: nat): Source<T>
    requires segs != []
  {
    if |segs[0]| <= room then segs[1..] else [segs[0][room..]] + segs[1..]
  }

  lemma TakeKeepsBytes<T>(segs: Source<T>, room: nat)
    requires segs != [] && NonEmpty(segs) && room > 0
    ensures NonEmpty(After(segs, room)) && 1 <= |Chunk(segs, room)| <= room
    ensures Chunk(segs, room) + Flatten(After(segs, room)) == Flatten(segs)
  {
    var head, tail := segs[0], segs[1..];
    if |head| > room {
      var after := After(segs, room);
      assert after[0] == head[room..] && after[1..] == tail;
      assert Flatten(after) == head[room..] + Flatten(tail);
      Assoc(head[..room], head[room..], Flatten(tail));
      assert head[..room] + head[room..] == head;
    }
  }

  lemma {:induction false} FlattenConcat<T>(a: Source<T>, b: Source<T>)
    ensures Flatten(a + b) == Flatten(a) + Flatten(b)
  {
    if a == [] {
      assert a + b == b;
      assert Flatten(a) + Flatten(b) == Flatten(b);
    } else {
      assert (a + b)[0] == a[0] && (a + b)[1..] == a[1..] + b;
      FlattenConcat(a[1..], b);
      Assoc(a[0], Flatten(a[1..]), Flatten(b));
    }
  }

  // Underlying reads never reach past the segments g while g still holds bytes.
  lemma TakeWithin<T>(g: Source<T>, rest: Source<T>, room: nat)
    requires g != []
    ensures After(g + rest, room) == After(g, room) + rest
    ensures Chunk(g + rest, room) == Chunk(g, room)
  {
    assert (g + rest)[0] == g[0] && (g + rest)[1..] == g[1..] + rest;
  }

  lemma NoBytesNoSegments<T>(g: Source<T>)
    requires NonEmpty(g) && Flatten(g) == []
    ensures g == []
  {
  }

  // How many bytes follow position n in its segment: 0 at the end of a segment.
  function ToEnd<T>(segs: Source<T>, n: nat): nat {
    if n == 0 || segs == [] then 0
    else if n <= |segs[0]| then |segs[0]| - n
    else ToEnd(segs[1..], n - |segs[0]|)
  }

  lemma ToEndAfter<T>(segs: Source<T>, room: nat, n: nat)
    requires segs != [] && n > |Chunk(segs, room)|
    ensures ToEnd(After(segs, room), n - |Chunk(segs, room)|) == ToEnd(segs, n)
  {
    if |segs[0]| > room {
      assert After(segs, room)[1..] == segs[1..];
    }
  }

  lemma {:induction false} ToEndFurther<T>(segs: Source<T>, n: nat, m: nat)
    requires n > 0 && m <= ToEnd(segs, n)
    ensures ToEnd(segs, n + m) == ToEnd(segs, n) - m
  {
    if segs != [] && n > |segs[0]| {
      ToEndFurther(segs[1..], n - |segs[0]|, m);
      assert n + m - |segs[0]| == n - |segs[0]| + m;
    }
  }
}
