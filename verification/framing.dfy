/** Delimiter framing shared by every component of the system.

    A sender writes each payload followed by one delimiter element. A receiver
    appends whatever arrives to a buffer and, while the buffer still holds a
    delimiter, cuts off everything before the first one as a frame. What
    remains after the last delimiter is kept for the next read.

    The model is generic in the element type, so it covers the byte buffers
    of the program as well as the decoded text. */
module Framing {

  /** The delimiter of every stream in the system: the price feed and the
      order connection alike. */
  const Delim: char := '*'

  /** The frames cut from a buffer, in order, and the partial frame left over. */
  datatype Split<T> = Split(frames: seq<seq<T>>, rest: seq<T>)

  /** What an encoder writes for `frames`: each payload followed by `d`. */
  function Join<T>(frames: seq<seq<T>>, d: T): seq<T>
  {
    if |frames| == 0 then [] else frames[0] + [d] + Join(frames[1..], d)
  }

  /** A single encoded frame. */
  function Encode<T>(payload: seq<T>, d: T): seq<T>
  {
    payload + [d]
  }

  /** Concatenation of the chunks delivered by successive reads. */
  function Flatten<T>(chunks: seq<seq<T>>): seq<T>
  {
    if |chunks| == 0 then [] else chunks[0] + Flatten(chunks[1..])
  }

  /** No frame in `frames` contains the delimiter. */
  ghost predicate DelimFree<T>(frames: seq<seq<T>>, d: T)
  {
    forall i :: 0 <= i < |frames| ==> d !in frames[i]
  }

  /** How many times `d` occurs in `s`. */
  function Count<T(==)>(s: seq<T>, d: T): nat
  {
    if |s| == 0 then 0 else (if s[0] == d then 1 else 0) + Count(s[1..], d)
  }

  /** Position of the first `d` in `s`: what `split(d, 1)` cuts at. */
  function IndexOf<T(==)>(s: seq<T>, d: T): (i: nat)
    requires d in s
    ensures i < |s| && s[i] == d
    ensures d !in s[..i]
  {
    if s[0] == d then 0
    else
      var j := IndexOf(s[1..], d);
      assert s[..j + 1] == [s[0]] + s[1..][..j];
      1 + j
  }

  /** The receive loop run to completion on `buf`: every complete frame, in
      order, and the trailing partial frame. */
  function SplitFrames<T(==)>(buf: seq<T>, d: T): (r: Split<T>)
    ensures d !in r.rest
    ensures DelimFree(r.frames, d)
    ensures Join(r.frames, d) + r.rest == buf
    decreases |buf|
  {
    if d in buf then
      var i := IndexOf(buf, d);
      var tail := SplitFrames(buf[i + 1..], d);
      CutFirst(buf, i, tail.frames, tail.rest, d);
      Split([buf[..i]] + tail.frames, tail.rest)
    else
      Split([], buf)
  }

  /** One step of the receive loop: the frame before the first delimiter,
      followed by a correct split of what comes after it, splits `buf`. */
  lemma CutFirst<T>(buf: seq<T>, i: nat, frames: seq<seq<T>>, rest: seq<T>, d: T)
    requires i < |buf| && buf[i] == d && d !in buf[..i]
    requires DelimFree(frames, d) && d !in rest
    requires Join(frames, d) + rest == buf[i + 1..]
    ensures DelimFree([buf[..i]] + frames, d)
    ensures Join([buf[..i]] + frames, d) + rest == buf
  {
    ConsFrame(buf[..i], frames, d);
    calc {
      Join([buf[..i]] + frames, d) + rest;
      buf[..i] + [d] + Join(frames, d) + rest;
      buf[..i] + [d] + (Join(frames, d) + rest);
      buf[..i] + [d] + buf[i + 1..];
      buf;
    }
  }

  /** Putting a delimiter-free frame in front of delimiter-free frames. */
  lemma ConsFrame<T>(f: seq<T>, frames: seq<seq<T>>, d: T)
    requires d !in f
    requires DelimFree(frames, d)
    ensures DelimFree([f] + frames, d)
    ensures Join([f] + frames, d) == f + [d] + Join(frames, d)
  {
    assert ([f] + frames)[1..] == frames;
    forall k | 0 <= k < |[f] + frames|
      ensures d !in ([f] + frames)[k]
    {
      if k > 0 {
        assert ([f] + frames)[k] == frames[k - 1];
      }
    }
  }

  /** The frames after the first of delimiter-free frames are delimiter-free. */
  lemma DropFrame<T>(frames: seq<seq<T>>, d: T)
    requires |frames| > 0
    requires DelimFree(frames, d)
    ensures d !in frames[0]
    ensures DelimFree(frames[1..], d)
  {
    forall k | 0 <= k < |frames[1..]|
      ensures d !in frames[1..][k]
    {
      assert frames[1..][k] == frames[k + 1];
    }
  }

  /** The loop `while d in buffer: frame, buffer = buffer.split(d, 1)` as the
      program writes it; it computes exactly `SplitFrames`. */
  method DrainBuffer<T(==)>(buffer: seq<T>, d: T) returns (frames: seq<seq<T>>, rest: seq<T>)
    ensures d !in rest
    ensures DelimFree(frames, d)
    ensures Join(frames, d) + rest == buffer
    ensures Split(frames, rest) == SplitFrames(buffer, d)
  {
    frames := [];
    rest := buffer;
    while d in rest
      invariant DelimFree(frames, d)
      invariant Join(frames, d) + rest == buffer
      decreases |rest|
    {
      var i := IndexOf(rest, d);
      SnocFrame(frames, rest, i, d);
      frames := frames + [rest[..i]];
      rest := rest[i + 1..];
    }
    SplitUnique(frames, rest, d);
  }

  /** One iteration of the receive loop keeps the buffer accounted for. */
  lemma SnocFrame<T>(frames: seq<seq<T>>, rest: seq<T>, i: nat, d: T)
    requires DelimFree(frames, d)
    requires i < |rest| && rest[i] == d && d !in rest[..i]
    ensures DelimFree(frames + [rest[..i]], d)
    ensures Join(frames + [rest[..i]], d) + rest[i + 1..] == Join(frames, d) + rest
  {
    var f := rest[..i];
    assert Join(frames + [f], d) + rest[i + 1..] == Join(frames, d) + rest by {
      JoinAppend(frames, [f], d);
      assert Join([f], d) == f + [d] by {
        assert [f][1..] == [];
      }
      assert f + [d] + rest[i + 1..] == rest;
    }
    assert DelimFree(frames + [f], d) by {
      forall k | 0 <= k < |frames + [f]|
        ensures d !in (frames + [f])[k]
      {
        if k < |frames| {
          assert (frames + [f])[k] == frames[k];
        }
      }
    }
  }

  lemma {:induction false} JoinAppend<T>(a: seq<seq<T>>, b: seq<seq<T>>, d: T)
    ensures Join(a + b, d) == Join(a, d) + Join(b, d)
    decreases |a|
  {
    if |a| == 0 {
      assert a + b == b;
    } else {
      assert (a + b)[0] == a[0];
      assert (a + b)[1..] == a[1..] + b;
      JoinAppend(a[1..], b, d);
    }
  }

  /** `SplitFrames` is the only way to cut a buffer into delimiter-free
      frames plus a delimiter-free remainder: decoding inverts encoding. */
  lemma {:induction false} SplitUnique<T>(frames: seq<seq<T>>, rest: seq<T>, d: T)
    requires DelimFree(frames, d)
    requires d !in rest
    ensures SplitFrames(Join(frames, d) + rest, d) == Split(frames, rest)
    decreases |frames|
  {
    var buf := Join(frames, d) + rest;
    if |frames| == 0 {
      assert buf == rest;
    } else {
      var f := frames[0];
      assert d !in f;
      var after := Join(frames[1..], d) + rest;
      assert buf == f + [d] + after;
      assert buf[|f|] == d;
      var i := IndexOf(buf, d);
      assert i == |f|;
      assert buf[..i] == f;
      assert buf[i + 1..] == after;
      DropFrame(frames, d);
      SplitUnique(frames[1..], rest, d);
      assert [f] + frames[1..] == frames;
    }
  }

  /** Round trip for a whole stream: encoding delimiter-free payloads and
      decoding the result gives the payloads back, with nothing left over. */
  lemma DecodeEncoded<T>(payloads: seq<seq<T>>, d: T)
    requires DelimFree(payloads, d)
    ensures SplitFrames(Join(payloads, d), d) == Split(payloads, [])
  {
    assert Join(payloads, d) + [] == Join(payloads, d);
    SplitUnique(payloads, [], d);
  }

  /** Round trip for one frame. */
  lemma DecodeEncodedFrame<T>(payload: seq<T>, d: T)
    requires d !in payload
    ensures SplitFrames(Encode(payload, d), d) == Split([payload], [])
  {
    assert [payload][1..] == [];
    assert Join([payload], d) == Encode(payload, d);
    DecodeEncoded([payload], d);
  }

  /** Splitting `x + y` in one go gives the frames of `x`, then the frames
      that complete once `y` is appended to the leftover of `x`. */
  lemma SplitAppend<T>(x: seq<T>, y: seq<T>, d: T)
    ensures
      var a := SplitFrames(x, d);
      var b := SplitFrames(a.rest + y, d);
      SplitFrames(x + y, d) == Split(a.frames + b.frames, b.rest)
  {
    var a := SplitFrames(x, d);
    var b := SplitFrames(a.rest + y, d);
    var frames := a.frames + b.frames;
    assert x + y == Join(frames, d) + b.rest by {
      JoinAppend(a.frames, b.frames, d);
      Regroup(x, y, Join(a.frames, d), a.rest, Join(b.frames, d), b.rest);
    }
    assert DelimFree(frames, d) by {
      forall k | 0 <= k < |frames|
        ensures d !in frames[k]
      {
        if k < |a.frames| {
          assert frames[k] == a.frames[k];
        } else {
          assert frames[k] == b.frames[k - |a.frames|];
        }
      }
    }
    SplitUnique(frames, b.rest, d);
  }

  /** Head and tail of a concatenation whose front is not empty. */
  lemma ConsAppend<T>(a: seq<T>, b: seq<T>)
    requires |a| > 0
    ensures (a + b)[0] == a[0] && (a + b)[1..] == a[1..] + b
  {
  }

  /** Regrouping for a function that maps `a + b` to the head of `a`
      followed by its value on `a[1..] + b`. */
  lemma Reassociate<T>(ab: seq<T>, a: seq<T>, b: seq<T>, h: seq<T>, tb: seq<T>, t: seq<T>)
    requires ab == h + tb && tb == t + b && a == h + t
    ensures ab == a + b
  {
  }

  /** Regrouping: `x` is `p + q` and `q + y` is `r + t`, so `x + y` is `p + r` then `t`. */
  lemma Regroup<T>(x: seq<T>, y: seq<T>, p: seq<T>, q: seq<T>, r: seq<T>, t: seq<T>)
    requires x == p + q
    requires q + y == r + t
    ensures x + y == (p + r) + t
  {
    calc {
      x + y;
      (p + q) + y;
      p + (q + y);
      p + (r + t);
      (p + r) + t;
    }
  }

  /** The receiver after a sequence of reads: each read appends its chunk to
      the buffer and drains every complete frame. */
  function FeedAll<T(==)>(buffer: seq<T>, chunks: seq<seq<T>>, d: T): (r: Split<T>)
    ensures |chunks| > 0 || d !in buffer ==> d !in r.rest
    decreases |chunks|
  {
    if |chunks| == 0 then Split([], buffer)
    else
      var now := SplitFrames(buffer + chunks[0], d);
      var later := FeedAll(now.rest, chunks[1..], d);
      Split(now.frames + later.frames, later.rest)
  }

  /** Reading in chunks yields what one read of the whole stream would. */
  lemma {:induction false} FeedAllSplitsStream<T>(buffer: seq<T>, chunks: seq<seq<T>>, d: T)
    requires d !in buffer
    ensures FeedAll(buffer, chunks, d) == SplitFrames(buffer + Flatten(chunks), d)
    decreases |chunks|
  {
    if |chunks| == 0 {
      assert buffer + Flatten(chunks) == Join([], d) + buffer;
      SplitUnique([], buffer, d);
    } else {
      var now := SplitFrames(buffer + chunks[0], d);
      var later := FeedAll(now.rest, chunks[1..], d);
      var stream := Flatten(chunks[1..]);
      assert FeedAll(buffer, chunks, d) == Split(now.frames + later.frames, later.rest);
      FeedAllSplitsStream(now.rest, chunks[1..], d);
      FlattenCons(buffer, chunks);
      FeedStep(buffer + chunks[0], stream, now, later, d);
    }
  }

  lemma FlattenCons<T>(buffer: seq<T>, chunks: seq<seq<T>>)
    requires |chunks| > 0
    ensures buffer + Flatten(chunks) == (buffer + chunks[0]) + Flatten(chunks[1..])
  {
    assert Flatten(chunks) == chunks[0] + Flatten(chunks[1..]);
  }

  /** One read: draining after the first chunk and then splitting the rest
      of the stream onto the leftover is splitting both at once. */
  lemma FeedStep<T>(first: seq<T>, stream: seq<T>, now: Split<T>, later: Split<T>, d: T)
    requires now == SplitFrames(first, d)
    requires later == SplitFrames(now.rest + stream, d)
    ensures Split(now.frames + later.frames, later.rest) == SplitFrames(first + stream, d)
  {
    SplitAppend(first, stream, d);
  }

  /** Chunk boundaries do not matter: two chunkings of the same stream,
      starting from an empty buffer, yield the same frames and leftover. */
  lemma ChunkingIrrelevant<T>(c1: seq<seq<T>>, c2: seq<seq<T>>, d: T)
    requires Flatten(c1) == Flatten(c2)
    ensures FeedAll([], c1, d) == FeedAll([], c2, d)
  {
    FeedAllSplitsStream([], c1, d);
    FeedAllSplitsStream([], c2, d);
  }

  lemma {:induction false} CountAppend<T>(a: seq<T>, b: seq<T>, d: T)
    ensures Count(a + b, d) == Count(a, d) + Count(b, d)
    decreases |a|
  {
    if |a| == 0 {
      assert a + b == b;
    } else {
      assert (a + b)[1..] == a[1..] + b;
      CountAppend(a[1..], b, d);
    }
  }

  /** No delimiter is counted exactly when none is present. */
  lemma {:induction false} CountAbsent<T>(s: seq<T>, d: T)
    ensures Count(s, d) == 0 <==> d !in s
    decreases |s|
  {
    if |s| > 0 {
      CountAbsent(s[1..], d);
      assert s == [s[0]] + s[1..];
    }
  }

  lemma {:induction false} CountJoin<T>(frames: seq<seq<T>>, d: T)
    requires DelimFree(frames, d)
    ensures Count(Join(frames, d), d) == |frames|
    decreases |frames|
  {
    if |frames| > 0 {
      DropFrame(frames, d);
      CountAbsent(frames[0], d);
      CountAppend(frames[0], [d], d);
      CountAppend(frames[0] + [d], Join(frames[1..], d), d);
      CountJoin(frames[1..], d);
    }
  }

  /** One frame per delimiter received: no frame is produced before its
      terminating delimiter has arrived, and none is lost. */
  lemma FramesMatchDelimiters<T>(buf: seq<T>, d: T)
    ensures |SplitFrames(buf, d).frames| == Count(buf, d)
  {
    var r := SplitFrames(buf, d);
    CountJoin(r.frames, d);
    CountAbsent(r.rest, d);
    CountAppend(Join(r.frames, d), r.rest, d);
  }

  /** Two delimiters in a row produce an empty frame; it is not skipped. */
  lemma EmptyFrameKept<T>(d: T)
    ensures SplitFrames([d, d], d) == Split([[], []], [])
  {
    var empty: seq<T> := [];
    assert Join([empty], d) == [d] by {
      assert [empty][1..] == [];
      assert Join([empty], d) == empty + [d] + Join([], d);
    }
    assert Join([empty, empty], d) == [d, d] by {
      assert [empty, empty][1..] == [empty];
      assert Join([empty, empty], d) == empty + [d] + Join([empty], d);
    }
    DecodeEncoded([empty, empty], d);
  }
}
