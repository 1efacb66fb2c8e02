/** KISS framing: escaping on the way out, the byte-by-byte reader on the way
    in. */
module KissFraming {

  type Byte = b: int | 0 <= b < 256
  type Bytes = seq<Byte>

  const FEND: Byte := 0xC0
  const FESC: Byte := 0xDB
  const TFEND: Byte := 0xDC
  const TFESC: Byte := 0xDD

  // ── sending ──────────────────────────────────────────────────────────────

  function EscapedByte(b: Byte): Bytes {
    if b == FEND then [FESC, TFEND] else if b == FESC then [FESC, TFESC] else [b]
  }

  /** On the wire: 192 is sent as 219 220, 219 as 219 221, any other byte as itself. */
  lemma EscapedOnTheWire(b: Byte)
    ensures EscapedByte(b) == if b == 192 then [219, 220] else if b == 219 then [219, 221] else [b]
    ensures 192 !in EscapedByte(b)
  {
  }

  function Escape(frame: Bytes): Bytes {
    if frame == [] then [] else EscapedByte(frame[0]) + Escape(frame[1..])
  }

  lemma {:induction false} EscapeInTwoParts(a: Bytes, b: Bytes)
    ensures Escape(a + b) == Escape(a) + Escape(b)
  {
    if a == [] {
      assert a + b == b;
    } else {
      hide EscapedByte;
      EscapeInTwoParts(a[1..], b);
      assert (a + b)[1..] == a[1..] + b && (a + b)[0] == a[0];
    }
  }

  /** No content looks like a frame mark. */
  lemma {:induction false} NoMarkInside(frame: Bytes)
    ensures 192 !in Escape(frame)
  {
    if frame == [] {
    } else {
      EscapedOnTheWire(frame[0]);
      NoMarkInside(frame[1..]);
      hide EscapedByte;
    }
  }

  /** One frame on the wire: FEND, escaped content, FEND. */
  function Framed(frame: Bytes): Bytes { [FEND] + Escape(frame) + [FEND] }

  // ── receiving ────────────────────────────────────────────────────────────

  /** The reader between two bytes. */
  datatype Reader = Reader(frame: Bytes, inFrame: bool, escape: bool)

  const IDLE := Reader([], false, false)
  const OPEN := Reader([], true, false)

  function Unescaped(b: Byte): Byte {
    if b == TFEND then FEND else if b == TFESC then FESC else b
  }

  /** The reader after one byte. */
  function Fed(r: Reader, b: Byte): Reader {
    if b == FEND then OPEN
    else if !r.inFrame then r
    else if r.escape then r.(frame := r.frame + [Unescaped(b)], escape := false)
    else if b == FESC then r.(escape := true)
    else r.(frame := r.frame + [b])
  }

  /** The frame that byte completes, if any. */
  function Completed(r: Reader, b: Byte): seq<Bytes> {
    if b == FEND && r.inFrame && |r.frame| > 0 then [r.frame] else []
  }

  function ReaderAfter(r: Reader, stream: Bytes): Reader
    decreases |stream|
  {
    if stream == [] then r else ReaderAfter(Fed(r, stream[0]), stream[1..])
  }

  /** The frames a stream completes, in order. */
  function Frames(r: Reader, stream: Bytes): seq<Bytes>
    decreases |stream|
  {
    if stream == [] then [] else Completed(r, stream[0]) + Frames(Fed(r, stream[0]), stream[1..])
  }

  /** Where a stream is cut does not matter. */
  lemma {:induction false} FramesInTwoParts(r: Reader, a: Bytes, b: Bytes)
    ensures ReaderAfter(r, a + b) == ReaderAfter(ReaderAfter(r, a), b)
    ensures Frames(r, a + b) == Frames(r, a) + Frames(ReaderAfter(r, a), b)
    decreases |a|
  {
    if a == [] {
      assert a + b == b;
    } else {
      FramesInTwoParts(Fed(r, a[0]), a[1..], b);
      assert (a + b)[1..] == a[1..] + b && (a + b)[0] == a[0];
    }
  }

  lemma OneByteMore(r: Reader, stream: Bytes, b: Byte)
    ensures ReaderAfter(r, stream + [b]) == Fed(ReaderAfter(r, stream), b)
    ensures Frames(r, stream + [b]) == Frames(r, stream) + Completed(ReaderAfter(r, stream), b)
  {
    FramesInTwoParts(r, stream, [b]);
    assert ReaderAfter(ReaderAfter(r, stream), [b]) == Fed(ReaderAfter(r, stream), b);
    assert Frames(ReaderAfter(r, stream), [b]) == Completed(ReaderAfter(r, stream), b);
  }

  lemma EscapedByteIsReadBack(done: Bytes, b: Byte)
    ensures ReaderAfter(Reader(done, true, false), EscapedByte(b)) == Reader(done + [b], true, false)
    ensures Frames(Reader(done, true, false), EscapedByte(b)) == []
  {
    var r := Reader(done, true, false);
    OneByteMore(r, [], EscapedByte(b)[0]);
    if b == FEND || b == FESC {
      OneByteMore(r, [FESC], EscapedByte(b)[1]);
      assert [FESC] + [EscapedByte(b)[1]] == EscapedByte(b) && [] + [FESC] == [FESC];
    } else {
      assert [] + [b] == EscapedByte(b);
    }
  }

  lemma EscapedHeadIsReadBack(done: Bytes, b: Byte, rest: Bytes)
    ensures ReaderAfter(Reader(done, true, false), EscapedByte(b) + rest)
         == ReaderAfter(Reader(done + [b], true, false), rest)
    ensures Frames(Reader(done, true, false), EscapedByte(b) + rest)
         == Frames(Reader(done + [b], true, false), rest)
  {
    hide EscapedByte, Fed, Completed, ReaderAfter, Frames;
    EscapedByteIsReadBack(done, b);
    FramesInTwoParts(Reader(done, true, false), EscapedByte(b), rest);
  }

  /** Reading back what was escaped rebuilds the content byte for byte. */
  lemma {:induction false} ReadingUnescapes(done: Bytes, frame: Bytes)
    ensures ReaderAfter(Reader(done, true, false), Escape(frame)) == Reader(done + frame, true, false)
    ensures Frames(Reader(done, true, false), Escape(frame)) == []
    decreases |frame|
  {
    if frame == [] {
      assert done + frame == done;
    } else {
      assert Escape(frame) == EscapedByte(frame[0]) + Escape(frame[1..]);
      hide EscapedByte, Escape, Fed, Completed, ReaderAfter, Frames;
      EscapedHeadIsReadBack(done, frame[0], Escape(frame[1..]));
      assert done + [frame[0]] + frame[1..] == done + frame;
      ReadingUnescapes(done + [frame[0]], frame[1..]);
    }
  }

  function Concat(parts: seq<Bytes>): Bytes {
    if parts == [] then [] else parts[0] + Concat(parts[1..])
  }

  function AllFramed(frames: seq<Bytes>): Bytes {
    if frames == [] then [] else Framed(frames[0]) + AllFramed(frames[1..])
  }

  /** The reader states in which nothing is pending. */
  predicate Quiet(r: Reader) { r.frame == [] && !r.escape }

  lemma OneFrameIsReadBack(r: Reader, frame: Bytes)
    requires Quiet(r) && frame != []
    ensures Frames(r, Framed(frame)) == [frame]
    ensures ReaderAfter(r, Framed(frame)) == OPEN
  {
    assert Framed(frame) == [FEND] + (Escape(frame) + [FEND]);
    FramesInTwoParts(r, [FEND], Escape(frame) + [FEND]);
    FramesInTwoParts(OPEN, Escape(frame), [FEND]);
    ReadingUnescapes([], frame);
    assert [] + frame == frame;
    OneByteMore(r, [], FEND);
    OneByteMore(Reader(frame, true, false), [], FEND);
    assert [] + [FEND] == [FEND];
  }

  /** Transparency: any sequence of non-empty frames, whatever bytes they
      contain, is read back frame by frame. */
  lemma {:induction false} FramingIsTransparent(r: Reader, frames: seq<Bytes>)
    requires Quiet(r) && forall i | 0 <= i < |frames| :: frames[i] != []
    ensures Frames(r, AllFramed(frames)) == frames
    decreases |frames|
  {
    if frames == [] {
    } else {
      OneFrameIsReadBack(r, frames[0]);
      FramesInTwoParts(r, Framed(frames[0]), AllFramed(frames[1..]));
      FramingIsTransparent(OPEN, frames[1..]);
      assert frames == [frames[0]] + frames[1..];
    }
  }

  /** Noise before the first FEND yields nothing and changes nothing. */
  lemma {:induction false} NoiseIsIgnored(r: Reader, noise: Bytes)
    requires !r.inFrame && FEND !in noise
    ensures Frames(r, noise) == [] && ReaderAfter(r, noise) == r
    decreases |noise|
  {
    if noise == [] {
    } else {
      assert noise[0] in noise;
      NoiseIsIgnored(r, noise[1..]);
    }
  }

  /** Adjacent FENDs yield nothing. */
  lemma {:induction false} RepeatedFendsAreSilent(r: Reader, n: nat)
    requires r == OPEN
    ensures Frames(r, seq(n, _ => FEND)) == [] && ReaderAfter(r, seq(n, _ => FEND)) == OPEN
    decreases n
  {
    if n == 0 {
    } else {
      assert seq(n, _ => FEND)[1..] == seq(n - 1, _ => FEND);
      RepeatedFendsAreSilent(r, n - 1);
    }
  }

  lemma {:induction false} ConcatInTwoParts(a: seq<Bytes>, b: seq<Bytes>)
    ensures Concat(a + b) == Concat(a) + Concat(b)
    decreases |a|
  {
    if a == [] {
      assert a + b == b;
    } else {
      ConcatInTwoParts(a[1..], b);
      assert (a + b)[1..] == a[1..] + b && (a + b)[0] == a[0];
    }
  }

  lemma ConcatOneMore(parts: seq<Bytes>, k: nat)
    requires k < |parts|
    ensures Concat(parts[..k + 1]) == Concat(parts[..k]) + parts[k]
  {
    ConcatInTwoParts(parts[..k], [parts[k]]);
    assert parts[..k + 1] == parts[..k] + [parts[k]];
    assert Concat([parts[k]]) == parts[k] + Concat([]);
  }

  /** The escape loop of `sendKISSFrame`. */
  method WrapFrame(frame: Bytes) returns (kiss: Bytes)
    ensures kiss == [192, 0] + Escape(frame) + [192]
  {
    kiss := [FEND, 0x00];
    for i := 0 to |frame|
      invariant kiss == [FEND, 0x00] + Escape(frame[..i])
    {
      EscapeInTwoParts(frame[..i], [frame[i]]);
      assert frame[..i + 1] == frame[..i] + [frame[i]];
      assert Escape([frame[i]]) == EscapedByte(frame[i]) + Escape([]);
      if frame[i] == FEND { kiss := kiss + [FESC, TFEND]; }
      else if frame[i] == FESC { kiss := kiss + [FESC, TFESC]; }
      else { kiss := kiss + [frame[i]]; }
    }
    assert frame[..|frame|] == frame;
    kiss := kiss + [FEND];
  }
}
