/**
 The push stream split into frames: FrameReader of push.cpp, and the receiver that feeds and
 drains it. A frame is its length in four bytes, lowest first, and then its bytes.
 */
module Frames {
  import opened Basics
  import opened LittleEndian

  const MAX_FRAME := 64 * 1024

  /** A header that can never lead a frame: zero or oversize. */
  predicate Broken(b: Bytes) {
    |b| >= 4 && (U32(b, 0) == 0 || U32(b, 0) > MAX_FRAME)
  }

  /** A whole frame stands at the front. */
  predicate Ready(b: Bytes) {
    |b| >= 4 && !Broken(b) && |b| >= 4 + U32(b, 0)
  }

  function FirstFrame(b: Bytes): Bytes
    requires Ready(b)
  {
    b[4..4 + U32(b, 0)]
  }

  function AfterFirst(b: Bytes): (r: Bytes)
    requires Ready(b)
    ensures |r| < |b|
  {
    b[4 + U32(b, 0)..]
  }

  /** The greedy parse of a whole stream, and what it leaves unread. */
  function FramesOf(b: Bytes): seq<Bytes>
    decreases |b|
  {
    if Ready(b) then [FirstFrame(b)] + FramesOf(AfterFirst(b)) else []
  }

  function Unread(b: Bytes): Bytes
    decreases |b|
  {
    if Ready(b) then Unread(AfterFirst(b)) else b
  }

  class FrameReader {
    var buffer: Bytes

    constructor ()
      ensures buffer == []
    {
      buffer := [];
    }

    /** Appends a chunk; says whether the front of the buffer can still become a frame. */
    method Feed(bytes: Bytes) returns (ok: bool)
      modifies this
      ensures buffer == old(buffer) + bytes
      ensures ok <==> !Broken(buffer)
    {
      buffer := buffer + bytes;
      if |buffer| >= 4 {
        var length := U32(buffer, 0);
        if length == 0 || length > MAX_FRAME {
          return false;
        }
      }
      return true;
    }

    /** Takes the frame at the front off the buffer once it is all there. */
    method Next() returns (frame: Option<Bytes>)
      modifies this
      ensures frame.Some? <==> Ready(old(buffer))
      ensures frame.Some? ==> FramesOf(old(buffer)) == [frame.value] + FramesOf(buffer)
      ensures frame.Some? ==> Unread(buffer) == Unread(old(buffer)) && |buffer| < |old(buffer)|
      ensures frame.None? ==> buffer == old(buffer)
    {
      if |buffer| < 4 {
        return None;
      }
      var length := U32(buffer, 0);
      if length == 0 || length > MAX_FRAME || |buffer| < 4 + length {
        return None;
      }
      frame := Some(buffer[4..4 + length]);
      buffer := buffer[4 + length..];
    }

    /** What the receiver does with each chunk: feed, then drain; false ends the connection. */
    method Receive(chunk: Bytes) returns (go: bool, frames: seq<Bytes>)
      modifies this
      ensures go <==> !Broken(old(buffer) + chunk)
      ensures frames == if go then FramesOf(old(buffer) + chunk) else []
      ensures buffer == if go then Unread(old(buffer) + chunk) else old(buffer) + chunk
    {
      frames := [];
      go := Feed(chunk);
      if !go {
        return;
      }
      var frame := Next();
      while frame.Some?
        invariant frame.Some? ==> frames + [frame.value] + FramesOf(buffer) == FramesOf(old(buffer) + chunk)
        invariant frame.None? ==> frames == FramesOf(old(buffer) + chunk) && !Ready(buffer)
        invariant Unread(buffer) == Unread(old(buffer) + chunk)
        decreases |buffer|, if frame.Some? then 1 else 0
      {
        frames := frames + [frame.value];
        ghost var rest := FramesOf(buffer);
        frame := Next();
        if frame.Some? {
          Assoc(frames, [frame.value], FramesOf(buffer));
        }
      }
    }
  }

  // ---- Any way of cutting the stream ----

  function Whole(chunks: seq<Bytes>): Bytes {
    if chunks == [] then [] else Whole(chunks[..|chunks| - 1]) + chunks[|chunks| - 1]
  }

  /** The receiver over a run of chunks: its buffer, what it delivered, whether it still goes on. */
  datatype Run = Run(buffer: Bytes, delivered: seq<Bytes>, going: bool)

  function ReceiveAll(chunks: seq<Bytes>): Run {
    if chunks == [] then Run([], [], true)
    else
      var r := ReceiveAll(chunks[..|chunks| - 1]);
      var fed := r.buffer + chunks[|chunks| - 1];
      if !r.going then r
      else if Broken(fed) then Run(fed, r.delivered, false)
      else Run(Unread(fed), r.delivered + FramesOf(fed), true)
  }

  lemma ReadyStays(a: Bytes, b: Bytes)
    requires Ready(a)
    ensures Ready(a + b) && FirstFrame(a + b) == FirstFrame(a) && AfterFirst(a + b) == AfterFirst(a) + b
  {
  }

  /** More bytes only add frames: the ones already whole do not change. */
  lemma {:induction false} FramesAppend(a: Bytes, b: Bytes)
    ensures FramesOf(a + b) == FramesOf(a) + FramesOf(Unread(a) + b)
    ensures Unread(a + b) == Unread(Unread(a) + b)
    decreases |a|
  {
    if Ready(a) {
      var rest := AfterFirst(a);
      ReadyStays(a, b);
      FramesAppend(rest, b);
      Assoc([FirstFrame(a)], FramesOf(rest), FramesOf(Unread(rest) + b));
    } else {
      assert [] + FramesOf(a + b) == FramesOf(a + b);
    }
  }

  lemma BrokenStays(a: Bytes, b: Bytes)
    requires Broken(a)
    ensures Broken(a + b) && FramesOf(a + b) == [] && Unread(a + b) == a + b
  {
  }

  lemma {:induction false} RunInvariant(chunks: seq<Bytes>)
    ensures var r, stream := ReceiveAll(chunks), Whole(chunks);
            r.delivered == FramesOf(stream) &&
            if r.going then r.buffer == Unread(stream) else Broken(Unread(stream))
  {
    if chunks != [] {
      var before, chunk := chunks[..|chunks| - 1], chunks[|chunks| - 1];
      RunInvariant(before);
      FramesAppend(Whole(before), chunk);
      if !ReceiveAll(before).going {
        BrokenStays(Unread(Whole(before)), chunk);
      }
    }
  }

  /** However a stream is cut, the frames delivered are those of its greedy parse. */
  lemma CutsDoNotMatter(chunks: seq<Bytes>, others: seq<Bytes>)
    requires Whole(chunks) == Whole(others)
    ensures ReceiveAll(chunks).delivered == ReceiveAll(others).delivered == FramesOf(Whole(chunks))
  {
    RunInvariant(chunks);
    RunInvariant(others);
  }

  lemma {:induction false} UnreadIsNotReady(b: Bytes)
    ensures !Ready(Unread(b))
    decreases |b|
  {
    if Ready(b) {
      UnreadIsNotReady(AfterFirst(b));
    }
  }

  /** While the connection goes on, what waits is part of one frame, unless its header is bad. */
  lemma LittleWaits(chunks: seq<Bytes>)
    requires ReceiveAll(chunks).going
    ensures |ReceiveAll(chunks).buffer| < 4 + MAX_FRAME || Broken(ReceiveAll(chunks).buffer)
  {
    RunInvariant(chunks);
    UnreadIsNotReady(Whole(chunks));
  }

  // ---- The sender's side ----

  function Framed(frame: Bytes): Bytes {
    Put32(|frame|) + frame
  }

  /** A stream of frames as a sender writes it. */
  function Written(frames: seq<Bytes>): Bytes {
    if frames == [] then [] else Framed(frames[0]) + Written(frames[1..])
  }

  /** Frames of an allowed size all arrive, whatever follows them and however it is cut. */
  lemma {:induction false} WrittenArrives(frames: seq<Bytes>, rest: Bytes)
    requires forall i :: 0 <= i < |frames| ==> 0 < |frames[i]| <= MAX_FRAME
    ensures FramesOf(Written(frames) + rest) == frames + FramesOf(rest)
    decreases |frames|
  {
    if frames == [] {
      assert Written(frames) + rest == rest;
    } else {
      WrittenArrives(frames[1..], rest);
      FrameArrives(frames, Framed(frames[0]), Written(frames[1..]), rest, FramesOf(rest));
    }
  }

  /** The first frame, when the others arrive. */
  lemma FrameArrives(frames: seq<Bytes>, first: Bytes, others: Bytes, rest: Bytes, left: seq<Bytes>)
    requires frames != [] && 0 < |frames[0]| <= MAX_FRAME && first == Framed(frames[0])
    requires FramesOf(others + rest) == frames[1..] + left
    ensures FramesOf(first + others + rest) == frames + left
  {
    Assoc(first, others, rest);
    OneFrame(frames[0], others + rest, first + (others + rest));
    Assoc([frames[0]], frames[1..], left);
    assert [frames[0]] + frames[1..] == frames;
  }

  lemma OneFrame(frame: Bytes, tail: Bytes, stream: Bytes)
    requires 0 < |frame| <= MAX_FRAME && stream == Framed(frame) + tail
    ensures FramesOf(stream) == [frame] + FramesOf(tail)
  {
    HeaderReads(stream, frame, tail);
  }

  lemma HeaderReads(stream: Bytes, frame: Bytes, tail: Bytes)
    requires stream == Framed(frame) + tail && 0 < |frame| <= MAX_FRAME
    ensures Ready(stream) && FirstFrame(stream) == frame && AfterFirst(stream) == tail
  {
    assert Stands(stream, 0, Put32(|frame|));
    Put32Reads(stream, 0, |frame|);
  }
}
