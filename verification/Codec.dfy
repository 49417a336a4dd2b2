/** Length-prefixed framing: what a decoder makes of a byte stream that arrives in pieces. */
module Codec {
  import opened Bytes
  import W = Wire

  const MAX_FRAME_SIZE: nat := 16 * 1024 * 1024

  /** A frame as it is sent: its length in four bytes, then its bytes. */
  function Framed(f: bytes): bytes {
    ToLe(|f|, 4) + f
  }

  function Stream(frames: seq<bytes>): bytes {
    if frames == [] then [] else Framed(frames[0]) + Stream(frames[1..])
  }

  function FrameLen(buf: bytes): nat
    requires |buf| >= 4
  {
    FromLe(buf[..4])
  }

  /** What one call of `decode` finds at the head of the buffer. */
  datatype Head = NeedMore | TooLarge | Frame(frame: bytes, rest: bytes)

  function HeadOf(buf: bytes): (h: Head)
    ensures h.Frame? ==> 4 <= |buf| && |h.rest| < |buf| && buf == buf[..4] + h.frame + h.rest && |h.frame| <= 16_777_216
  {
    if |buf| < 4 then NeedMore
    else if FrameLen(buf) > MAX_FRAME_SIZE then TooLarge
    else if |buf| < 4 + FrameLen(buf) then NeedMore
    else Frame(buf[4..4 + FrameLen(buf)], buf[4 + FrameLen(buf)..])
  }

  /** The frames found so far, what is still in the buffer, and whether the stream has been given up. */
  datatype Progress = Progress(frames: seq<bytes>, buf: bytes, failed: bool)

  /** Decodes until more is needed or a frame is too large. */
  function Drain(buf: bytes): Progress
    decreases |buf|
  {
    match HeadOf(buf)
    case NeedMore => Progress([], buf, false)
    case TooLarge => Progress([], buf, true)
    case Frame(f, rest) => Progress([f] + Drain(rest).frames, Drain(rest).buf, Drain(rest).failed)
  }

  /** A piece of the stream arrives; after an error nothing more is read. */
  function Fed(p: Progress, chunk: bytes): Progress {
    if p.failed then p
    else
      var d := Drain(p.buf + chunk);
      Progress(p.frames + d.frames, d.buf, d.failed)
  }

  function FedAll(p: Progress, chunks: seq<bytes>): Progress
    decreases |chunks|
  {
    if chunks == [] then p else FedAll(Fed(p, chunks[0]), chunks[1..])
  }

  function Concat(chunks: seq<bytes>): bytes {
    if chunks == [] then [] else chunks[0] + Concat(chunks[1..])
  }

  // ---- the decoder ----

  datatype FrameError = FrameTooLarge(len: nat)

  class Decoder {
    /** The connection's read buffer. */
    var src: bytes

    constructor ()
      ensures src == []
    {
      src := [];
    }

    method Decode() returns (r: Result<Option<bytes>, FrameError>)
      modifies this
      ensures match HeadOf(old(src))
              case NeedMore => r == Ok(None) && src == old(src)
              case TooLarge => r.Err? && src == old(src)
              case Frame(f, rest) => r == Ok(Some(f)) && src == rest
    {
      if |src| < 4 {
        return Ok(None);
      }
      var lenBytes := [src[0], src[1], src[2], src[3]];
      assert lenBytes == src[..4];
      var frameLen := FromLe(lenBytes);
      if frameLen > MAX_FRAME_SIZE {
        return Err(FrameTooLarge(frameLen));
      }
      var total := 4 + frameLen;
      if |src| < total {
        return Ok(None);
      }
      assert src[4..][..frameLen] == src[4..4 + frameLen] && src[4..][frameLen..] == src[4 + frameLen..];
      src := src[4..];
      var frame := src[..frameLen];
      src := src[frameLen..];
      return Ok(Some(frame));
    }

    /** The read loop around it: takes in a piece of the stream and decodes all it can. */
    method Feed(chunk: bytes) returns (frames: seq<bytes>, failed: bool)
      modifies this
      ensures var d := Drain(old(src) + chunk); frames == d.frames && src == d.buf && failed == d.failed
      ensures if failed then HeadOf(src).TooLarge? else HeadOf(src).NeedMore?
    {
      hide HeadOf, Drain;
      src := src + chunk;
      frames, failed := [], false;
      ghost var whole := Drain(src);
      DrainLeavesNothing(src);
      assert After([], whole) == whole;
      while true
        invariant !failed && whole == After(frames, Drain(src))
        decreases |src|
      {
        AfterHead(frames, src);
        var r := Decode();
        if r.Err? {
          return frames, true;
        }
        if r.value.None? {
          return;
        }
        frames := frames + [r.value.value];
      }
    }
  }

  /** Progress made after `done` had come out already. */
  function After(done: seq<bytes>, p: Progress): Progress {
    Progress(done + p.frames, p.buf, p.failed)
  }

  /** One round of the read loop. */
  lemma AfterHead(done: seq<bytes>, buf: bytes)
    ensures match HeadOf(buf)
            case NeedMore => After(done, Drain(buf)) == Progress(done, buf, false)
            case TooLarge => After(done, Drain(buf)) == Progress(done, buf, true)
            case Frame(f, rest) => After(done, Drain(buf)) == After(done + [f], Drain(rest))
  {
    hide HeadOf;
    if HeadOf(buf).Frame? {
      var f, d := HeadOf(buf).frame, Drain(HeadOf(buf).rest);
      assert done + ([f] + d.frames) == done + [f] + d.frames;
    }
  }

  // ---- any way of cutting up the stream ----

  /** More bytes do not change what is found at the head, unless more were needed. */
  lemma HeadStable(a: bytes, b: bytes)
    ensures HeadOf(a).TooLarge? ==> HeadOf(a + b).TooLarge?
    ensures HeadOf(a).Frame? ==> HeadOf(a + b) == Frame(HeadOf(a).frame, HeadOf(a).rest + b)
  {
    if |a| >= 4 {
      assert (a + b)[..4] == a[..4];
      hide FromLe;
      var n := FrameLen(a);
      if 4 + n <= |a| {
        assert (a + b)[4..4 + n] == a[4..4 + n];
        assert (a + b)[4 + n..] == a[4 + n..] + b;
      }
    }
  }

  lemma DrainFrame(a: bytes)
    ensures HeadOf(a).Frame? ==> Drain(a) == After([HeadOf(a).frame], Drain(HeadOf(a).rest))
    ensures !HeadOf(a).Frame? ==> Drain(a) == Progress([], a, HeadOf(a).TooLarge?)
  {
  }

  lemma AfterAfter(x: seq<bytes>, y: seq<bytes>, p: Progress)
    ensures After(x, After(y, p)) == After(x + y, p)
  {
    assert x + (y + p.frames) == x + y + p.frames;
  }

  lemma AfterNothing(p: Progress)
    ensures After([], p) == p
  {
    assert [] + p.frames == p.frames;
  }

  /** Decoding a longer buffer is decoding its start and then going on with what that left. */
  lemma {:induction false} DrainAppend(a: bytes, b: bytes)
    ensures Drain(a).failed ==> Drain(a + b).frames == Drain(a).frames && Drain(a + b).failed
    ensures !Drain(a).failed ==> Drain(a + b) == After(Drain(a).frames, Drain(Drain(a).buf + b))
    decreases |a|
  {
    hide HeadOf, Drain;
    HeadStable(a, b);
    DrainFrame(a);
    DrainFrame(a + b);
    if HeadOf(a).Frame? {
      var f, rest := HeadOf(a).frame, HeadOf(a).rest;
      DrainAppend(rest, b);
      AfterAfter([f], Drain(rest).frames, Drain(Drain(rest).buf + b));
    } else if HeadOf(a).NeedMore? {
      AfterNothing(Drain(a + b));
    }
  }

  /** Drained is drained: unless the stream has failed, what is left does not hold another frame. */
  lemma {:induction false} DrainLeavesNothing(buf: bytes)
    ensures if Drain(buf).failed then HeadOf(Drain(buf).buf).TooLarge? else HeadOf(Drain(buf).buf).NeedMore?
    decreases |buf|
  {
    hide HeadOf;
    if HeadOf(buf).Frame? {
      DrainLeavesNothing(HeadOf(buf).rest);
    }
  }

  lemma {:induction false} FedAllFailed(p: Progress, chunks: seq<bytes>)
    requires p.failed
    ensures FedAll(p, chunks) == p
    decreases |chunks|
  {
    if chunks != [] {
      FedAllFailed(p, chunks[1..]);
    }
  }

  /** However the stream is cut into pieces, the frames found and the outcome are those of the whole stream; and as
      long as no frame is too large, what is left in the buffer is what the whole stream would leave. */
  lemma {:induction false} ChunksDoNotMatter(seen: bytes, chunks: seq<bytes>)
    ensures var whole, p := Drain(seen + Concat(chunks)), FedAll(Drain(seen), chunks);
            p.frames == whole.frames && p.failed == whole.failed && (!p.failed ==> p == whole)
    decreases |chunks|
  {
    hide Drain;
    if chunks == [] {
      assert seen + Concat(chunks) == seen;
    } else {
      var c := chunks[0];
      assert seen + Concat(chunks) == seen + c + Concat(chunks[1..]);
      DrainAppend(seen, c);
      DrainAppend(seen + c, Concat(chunks[1..]));
      DrainAppend(seen, Concat(chunks));
      if Drain(seen).failed {
        FedAllFailed(Drain(seen), chunks);
      } else {
        ChunksDoNotMatter(seen + c, chunks[1..]);
      }
    }
  }

  lemma FramedHead(f: bytes, tail: bytes)
    requires |f| <= 16_777_216
    ensures HeadOf(Framed(f) + tail) == Frame(f, tail)
  {
    var buf := Framed(f) + tail;
    Le32(|f|);
    assert buf[..4] == ToLe(|f|, 4);
    hide FromLe, ToLe;
    assert buf[4..4 + |f|] == f;
    assert buf[4 + |f|..] == tail;
  }

  /** A frame is found if and only if the buffer begins with it, length and all, and it is at most 16 MiB long; the
      stream is given up if and only if the four bytes of length say more than that. */
  lemma HeadIff(buf: bytes, f: bytes, rest: bytes)
    ensures HeadOf(buf) == Frame(f, rest) <==> |f| <= 16_777_216 && buf == Framed(f) + rest
    ensures HeadOf(buf) == TooLarge <==>
              |buf| >= 4 && (buf[3] > 1 || (buf[3] == 1 && (buf[0] > 0 || buf[1] > 0 || buf[2] > 0)))
  {
    if |f| <= 16_777_216 && buf == Framed(f) + rest {
      FramedHead(f, rest);
    }
    if |buf| >= 4 {
      W.FourBytes(buf);
      W.ToLeFromLe(buf[..4]);
      hide FromLe, ToLe;
      if HeadOf(buf) == Frame(f, rest) {
        assert buf == buf[..4] + f + rest;
      }
    }
  }

  predicate Small(frames: seq<bytes>) {
    forall i :: 0 <= i < |frames| ==> |frames[i]| <= 16_777_216
  }

  /** Frames within the limit come out in order, ahead of whatever follows them. */
  lemma {:induction false} StreamAhead(frames: seq<bytes>, rest: bytes)
    requires Small(frames)
    ensures var d := Drain(rest); Drain(Stream(frames) + rest) == Progress(frames + d.frames, d.buf, d.failed)
    decreases |frames|
  {
    hide HeadOf, Framed, Drain;
    if frames == [] {
      assert Stream(frames) + rest == rest;
      assert frames + Drain(rest).frames == Drain(rest).frames;
    } else {
      var f, tail := frames[0], Stream(frames[1..]) + rest;
      StreamAhead(frames[1..], rest);
      FramedHead(f, tail);
      assert Stream(frames) + rest == Framed(f) + tail;
      DrainFrame(Framed(f) + tail);
      hide Stream;
      assert frames + Drain(rest).frames == [f] + (frames[1..] + Drain(rest).frames);
    }
  }

  /** A stream of frames, each within the limit, followed by an unfinished one: the frames come out in order and
      the unfinished part stays in the buffer. */
  lemma StreamDrains(frames: seq<bytes>, suffix: bytes)
    requires Small(frames) && HeadOf(suffix).NeedMore?
    ensures Drain(Stream(frames) + suffix) == Progress(frames, suffix, false)
  {
    hide HeadOf, Stream;
    StreamAhead(frames, suffix);
  }

  /** A frame above the limit stops the stream: the frames before it come out, and nothing after. */
  lemma OversizeStops(frames: seq<bytes>, bad: bytes)
    requires Small(frames) && HeadOf(bad).TooLarge?
    ensures Drain(Stream(frames) + bad) == Progress(frames, bad, true)
  {
    hide HeadOf, Stream;
    StreamAhead(frames, bad);
  }

  lemma DrainNothing()
    ensures Drain([]) == Progress([], [], false)
  {
  }

  /** Any frames, any suffix that is not a whole frame, any cutting: exactly those frames, exactly that suffix. */
  lemma FramesSurviveChunking(frames: seq<bytes>, suffix: bytes, chunks: seq<bytes>)
    requires Small(frames) && HeadOf(suffix).NeedMore?
    requires Concat(chunks) == Stream(frames) + suffix
    ensures FedAll(Progress([], [], false), chunks) == Progress(frames, suffix, false)
  {
    hide Drain, HeadOf, Stream, Concat, FedAll;
    DrainNothing();
    ChunksDoNotMatter([], chunks);
    assert [] + Concat(chunks) == Concat(chunks);
    StreamDrains(frames, suffix);
  }

  /** No frame above the limit ever comes out. */
  lemma {:induction false} DrainSmall(buf: bytes)
    ensures Small(Drain(buf).frames)
    decreases |buf|
  {
    hide HeadOf;
    if HeadOf(buf).Frame? {
      DrainSmall(HeadOf(buf).rest);
    }
  }

  lemma OneFrame(f: bytes)
    requires |f| <= 16_777_216
    ensures Drain(Framed(f)) == Progress([f], [], false)
  {
    assert Stream([f]) + [] == Framed(f) by {
      assert Stream([]) == [];
    }
    StreamDrains([f], []);
  }

  lemma TooLargeFails(f: bytes)
    requires 16_777_216 < |f| < 0x1_0000_0000
    ensures Drain(Framed(f)) == Progress([], Framed(f), true)
  {
    Le32(|f|);
    hide FromLe, ToLe;
    assert Framed(f)[..4] == ToLe(|f|, 4);
  }
}
