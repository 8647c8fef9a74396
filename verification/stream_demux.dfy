/**
  The Docker attach-stream demultiplexer (`cleanDockerOutput` in backend/main.go).

  The raw stream is a sequence of frames. Each frame is an 8-byte header
  followed by a payload: header byte 0 names the stream (1 = stdout,
  2 = stderr), bytes 1-3 are reserved, bytes 4-7 hold the payload length as a
  big-endian unsigned 32-bit integer. The decoder keeps the payloads of
  stdout and stderr frames, skips empty frames, and stops silently at a
  truncated header or at a frame whose payload runs past the end.
 */
module StreamDemux {

  /** One octet of the raw stream. */
  type byte = b: int | 0 <= b < 0x100

  /** Size of a frame header. */
  const HeaderSize: nat := 8

  /** One more than the largest value a 32-bit length field can hold. */
  const LengthLimit: nat := 0x1_0000_0000

  /** Big-endian reading of a 4-byte length field (`binary.BigEndian.Uint32`). */
  function BigEndianU32(b: seq<byte>): (n: nat)
    requires |b| == 4
    ensures n < LengthLimit
  {
    ((b[0] as int * 0x100 + b[1] as int) * 0x100 + b[2] as int) * 0x100 + b[3] as int
  }

  /** Big-endian writing of a 32-bit length field. */
  function U32Bytes(n: nat): (b: seq<byte>)
    requires n < LengthLimit
    ensures |b| == 4
    ensures BigEndianU32(b) == n
  {
    var b0 := n / 0x100_0000;
    var r0 := n % 0x100_0000;
    var b1 := r0 / 0x1_0000;
    var r1 := r0 % 0x1_0000;
    var b2 := r1 / 0x100;
    var b3 := r1 % 0x100;
    assert n == ((b0 * 0x100 + b1) * 0x100 + b2) * 0x100 + b3;
    [b0, b1, b2, b3]
  }

  /** Tags 1 (stdout) and 2 (stderr) carry output; every other tag is discarded. */
  predicate IsOutputStream(tag: byte) {
    tag == 1 || tag == 2
  }

  /** The declared payload length of the frame starting at the head of `raw`. */
  function DeclaredSize(raw: seq<byte>): nat
    requires |raw| >= HeaderSize
  {
    BigEndianU32(raw[4..8])
  }

  /** What the decoding loop does at one cursor position. */
  datatype Step =
    | Stop                                // a truncated header, or a payload past the end
    | Skip(next: nat)                     // an empty frame
    | Take(kept: seq<byte>, next: nat)    // a complete frame, and the bytes it appends

  /**
    The bytes a complete frame at cursor `i` with payload length `size`
    appends to the output: its payload when the frame type is 1 or 2,
    nothing otherwise.
   */
  function Kept(raw: seq<byte>, i: nat, size: nat): seq<byte>
    requires i + HeaderSize + size <= |raw|
  {
    if IsOutputStream(raw[i]) then raw[i + HeaderSize..i + HeaderSize + size] else []
  }

  /**
    One iteration of the decoding loop at cursor `i`: stop when fewer than
    eight bytes remain, skip an empty frame, stop when the payload runs past
    the end, and otherwise take the frame.
   */
  function StepAt(raw: seq<byte>, i: nat): (st: Step)
    requires i <= |raw|
    ensures !st.Stop? ==> i < st.next <= |raw|
    ensures st.Take? ==> |st.kept| <= st.next - i
  {
    if i + HeaderSize > |raw| then Stop
    else
      var size := BigEndianU32(raw[i + 4..i + 8]);
      if size == 0 then Skip(i + HeaderSize)
      else if i + HeaderSize + size > |raw| then Stop
      else Take(Kept(raw, i, size), i + HeaderSize + size)
  }

  /** The output of the decoding loop from cursor `i` on. It never has more bytes than remain. */
  function DemuxFrom(raw: seq<byte>, i: nat): (out: seq<byte>)
    requires i <= |raw|
    ensures |out| <= |raw| - i
    decreases |raw| - i
  {
    match StepAt(raw, i)
    case Stop => []
    case Skip(next) => DemuxFrom(raw, next)
    case Take(kept, next) => kept + DemuxFrom(raw, next)
  }

  /** The decoder on a whole buffer. It never fails, and never produces more bytes than it was given. */
  function Demux(raw: seq<byte>): (out: seq<byte>)
    ensures |out| <= |raw|
  {
    DemuxFrom(raw, 0)
  }

  /** A complete frame at cursor `i`. */
  lemma DemuxFromFrame(raw: seq<byte>, i: nat, size: nat)
    requires i + HeaderSize <= |raw| && size == BigEndianU32(raw[i + 4..i + 8])
    requires size != 0 && i + HeaderSize + size <= |raw|
    ensures DemuxFrom(raw, i) == Kept(raw, i, size) + DemuxFrom(raw, i + HeaderSize + size)
  {
    var st := StepAt(raw, i);
    assert st.Take? && st.kept == Kept(raw, i, size) && st.next == i + HeaderSize + size;
  }

  /** An empty frame at cursor `i`. */
  lemma DemuxFromEmpty(raw: seq<byte>, i: nat)
    requires i + HeaderSize <= |raw| && BigEndianU32(raw[i + 4..i + 8]) == 0
    ensures DemuxFrom(raw, i) == DemuxFrom(raw, i + HeaderSize)
  {
    var st := StepAt(raw, i);
    assert st.Skip? && st.next == i + HeaderSize;
  }

  /** A cursor at which the loop stops. */
  lemma DemuxFromStop(raw: seq<byte>, i: nat)
    requires i <= |raw|
    requires i + HeaderSize > |raw| ||
      (var size := BigEndianU32(raw[i + 4..i + 8]); size != 0 && i + HeaderSize + size > |raw|)
    ensures DemuxFrom(raw, i) == []
  {
    assert StepAt(raw, i).Stop?;
  }

  /** The loop invariant holds before the first iteration. */
  lemma StartStep(raw: seq<byte>)
    ensures [] + DemuxFrom(raw, 0) == Demux(raw)
  {
    assert [] + DemuxFrom(raw, 0) == DemuxFrom(raw, 0);
  }

  /** The loop invariant survives consuming a complete frame at cursor `i`. */
  lemma FrameStep(raw: seq<byte>, i: nat, size: nat, out: seq<byte>)
    requires i + HeaderSize <= |raw| && size == BigEndianU32(raw[i + 4..i + 8])
    requires size != 0 && i + HeaderSize + size <= |raw|
    requires out + DemuxFrom(raw, i) == Demux(raw)
    ensures (out + Kept(raw, i, size)) + DemuxFrom(raw, i + HeaderSize + size) == Demux(raw)
  {
    DemuxFromFrame(raw, i, size);
    ShiftToOutput(out, DemuxFrom(raw, i), Kept(raw, i, size), DemuxFrom(raw, i + HeaderSize + size), Demux(raw));
  }

  /** Moving a decoded prefix of the unread part to the output keeps their concatenation. */
  lemma ShiftToOutput(out: seq<byte>, unread: seq<byte>, kept: seq<byte>, rest: seq<byte>, whole: seq<byte>)
    requires out + unread == whole && unread == kept + rest
    ensures (out + kept) + rest == whole
  {
    assert out + (kept + rest) == (out + kept) + rest;
  }

  /** The loop invariant survives skipping an empty frame at cursor `i`. */
  lemma EmptyStep(raw: seq<byte>, i: nat, out: seq<byte>)
    requires i + HeaderSize <= |raw| && BigEndianU32(raw[i + 4..i + 8]) == 0
    requires out + DemuxFrom(raw, i) == Demux(raw)
    ensures out + DemuxFrom(raw, i + HeaderSize) == Demux(raw)
  {
    DemuxFromEmpty(raw, i);
  }

  /** Where the loop stops, the output is the whole decoding. */
  lemma StopStep(raw: seq<byte>, i: nat, out: seq<byte>)
    requires i <= |raw|
    requires i + HeaderSize > |raw| ||
      (var size := BigEndianU32(raw[i + 4..i + 8]); size != 0 && i + HeaderSize + size > |raw|)
    requires out + DemuxFrom(raw, i) == Demux(raw)
    ensures out == Demux(raw)
  {
    DemuxFromStop(raw, i);
  }

  /**
    The decoding loop as the source writes it: a cursor that advances by the
    header size over an empty frame and by header plus payload otherwise.
   */
  method CleanDockerOutput(raw: seq<byte>) returns (out: seq<byte>)
    ensures out == Demux(raw)
    ensures out == Accepted(Split(raw).frames)
    ensures |out| <= |raw|
  {
    out := [];
    if |raw| == 0 {
      DemuxIsAcceptedPayloads(raw);
      return;
    }
    var i := 0;
    StartStep(raw);
    while i < |raw|
      invariant 0 <= i <= |raw|
      invariant out + DemuxFrom(raw, i) == Demux(raw)
      decreases |raw| - i
    {
      if i + HeaderSize > |raw| {
        break;
      }
      var frameSize := BigEndianU32(raw[i + 4..i + 8]);
      if frameSize == 0 {
        EmptyStep(raw, i, out);
        i := i + HeaderSize;
        continue;
      }
      if i + HeaderSize + frameSize > |raw| {
        break;
      }
      FrameStep(raw, i, frameSize, out);
      out := out + Kept(raw, i, frameSize);
      i := i + HeaderSize + frameSize;
    }
    StopStep(raw, i, out);
    DemuxIsAcceptedPayloads(raw);
  }

  /** A frame as the container runtime writes it. */
  datatype Frame = Frame(stream: byte, reserved: seq<byte>, payload: seq<byte>)

  /** A frame that has a 3-byte reserved field and a payload a 32-bit length can describe. */
  predicate WellFormed(f: Frame) {
    |f.reserved| == 3 && |f.payload| < LengthLimit
  }

  predicate AllWellFormed(fs: seq<Frame>) {
    forall k :: 0 <= k < |fs| ==> WellFormed(fs[k])
  }

  /** The wire form of one frame. */
  function EncodeFrame(f: Frame): (b: seq<byte>)
    requires WellFormed(f)
  {
    [f.stream] + f.reserved + U32Bytes(|f.payload|) + f.payload
  }

  /** The wire form of a sequence of frames. */
  function Encode(fs: seq<Frame>): (b: seq<byte>)
    requires AllWellFormed(fs)
  {
    if |fs| == 0 then [] else EncodeFrame(fs[0]) + Encode(fs[1..])
  }

  /** The text a reader of the stream should see: the stdout and stderr payloads in stream order. */
  function Accepted(fs: seq<Frame>): seq<byte> {
    if |fs| == 0 then []
    else (if IsOutputStream(fs[0].stream) then fs[0].payload else []) + Accepted(fs[1..])
  }

  /**
    A trailer at which the decoder stops: too short for a header, or a
    non-empty frame whose payload runs past the end.
   */
  predicate Stops(rest: seq<byte>) {
    |rest| < HeaderSize || (DeclaredSize(rest) > 0 && HeaderSize + DeclaredSize(rest) > |rest|)
  }

  /**
    Decoding one well-formed frame found at cursor `i`: its payload is kept
    exactly when its tag is 1 or 2, and decoding resumes right after it.
   */
  lemma DemuxFrameAt(raw: seq<byte>, i: nat, f: Frame)
    requires WellFormed(f)
    requires i + |EncodeFrame(f)| <= |raw| && raw[i..i + |EncodeFrame(f)|] == EncodeFrame(f)
    ensures DemuxFrom(raw, i) ==
      (if IsOutputStream(f.stream) then f.payload else []) + DemuxFrom(raw, i + |EncodeFrame(f)|)
  {
    var e := EncodeFrame(f);
    var n := |f.payload|;
    EncodeFrameParts(f);
    WindowSlice(raw, i, e, 4, 8);
    assert raw[i] == e[0] by {
      WindowSlice(raw, i, e, 0, 1);
    }
    if n == 0 {
      DemuxFromEmpty(raw, i);
    } else {
      WindowSlice(raw, i, e, HeaderSize, |e|);
      DemuxFromFrame(raw, i, n);
    }
  }

  /** A slice of a window of `a` that equals `w` is the matching slice of `a`. */
  lemma WindowSlice<T>(a: seq<T>, i: nat, w: seq<T>, lo: nat, hi: nat)
    requires i + |w| <= |a| && a[i..i + |w|] == w
    requires lo <= hi <= |w|
    ensures a[i + lo..i + hi] == w[lo..hi]
  {
    forall k | 0 <= k < hi - lo
      ensures a[i + lo..i + hi][k] == w[lo..hi][k]
    {
      assert a[i + lo..i + hi][k] == a[i + lo + k] == a[i..i + |w|][lo + k];
    }
  }

  /** A suffix of `a` that is `x + y` splits at `|x|` into `x` and `y`. */
  lemma SuffixSplit<T>(a: seq<T>, i: nat, x: seq<T>, y: seq<T>)
    requires i <= |a| && a[i..] == x + y
    ensures i + |x| <= |a| && a[i..i + |x|] == x && a[i + |x|..] == y
  {
    assert a[i..i + |x|] == (x + y)[..|x|] == x;
    forall k | 0 <= k < |y|
      ensures a[i + |x|..][k] == y[k]
    {
      assert a[i + |x|..][k] == a[i..][|x| + k] == (x + y)[|x| + k];
    }
  }

  /** The fields of an encoded frame, read back at their offsets. */
  lemma EncodeFrameParts(f: Frame)
    requires WellFormed(f)
    ensures |EncodeFrame(f)| == HeaderSize + |f.payload|
    ensures EncodeFrame(f)[0] == f.stream
    ensures EncodeFrame(f)[4..8] == U32Bytes(|f.payload|)
    ensures EncodeFrame(f)[HeaderSize..] == f.payload
  {
    var e := EncodeFrame(f);
    assert e == [f.stream] + f.reserved + U32Bytes(|f.payload|) + f.payload;
  }

  /** The decoder stops at a cursor from which a stopping trailer begins. */
  lemma StopsAt(raw: seq<byte>, i: nat)
    requires i <= |raw| && Stops(raw[i..])
    ensures DemuxFrom(raw, i) == []
  {
    if i + HeaderSize <= |raw| {
      assert raw[i..][4..8] == raw[i + 4..i + 8];
    }
    DemuxFromStop(raw, i);
  }

  /** `DemuxFrames` read at cursor `i`. */
  lemma {:induction false} DemuxFramesAt(raw: seq<byte>, i: nat, fs: seq<Frame>, rest: seq<byte>)
    requires i <= |raw|
    requires AllWellFormed(fs) && Stops(rest)
    requires raw[i..] == Encode(fs) + rest
    ensures DemuxFrom(raw, i) == Accepted(fs)
    decreases |fs|
  {
    if |fs| == 0 {
      assert raw[i..] == rest;
      StopsAt(raw, i);
    } else {
      var e := EncodeFrame(fs[0]);
      var tail := Encode(fs[1..]) + rest;
      assert AllWellFormed(fs[1..]);
      assert Encode(fs) == e + Encode(fs[1..]);
      assert raw[i..] == e + tail;
      SuffixSplit(raw, i, e, tail);
      DemuxFrameAt(raw, i, fs[0]);
      DemuxFramesAt(raw, i + |e|, fs[1..], rest);
    }
  }

  /**
    Tag filter and graceful stop: a buffer made of complete frames followed by
    a trailer the decoder stops at decodes to the accepted payloads of those
    frames, in order, and nothing from the trailer.
   */
  lemma DemuxFrames(fs: seq<Frame>, rest: seq<byte>)
    requires AllWellFormed(fs)
    requires Stops(rest)
    ensures Demux(Encode(fs) + rest) == Accepted(fs)
  {
    var raw := Encode(fs) + rest;
    assert raw[0..] == raw;
    DemuxFramesAt(raw, 0, fs, rest);
  }

  /** How a buffer splits into complete frames and a trailer. */
  datatype Framing = Framing(frames: seq<Frame>, trailer: seq<byte>)

  /**
    Every buffer is some complete well-formed frames followed by a trailer at
    which the decoder stops; re-encoding the frames gives the buffer back.
   */
  function Split(raw: seq<byte>): (p: Framing)
    ensures AllWellFormed(p.frames)
    ensures Stops(p.trailer)
    ensures Encode(p.frames) + p.trailer == raw
    decreases |raw|
  {
    if Stops(raw) then Framing([], raw)
    else
      var f := HeadFrame(raw);
      var tail := Split(raw[HeaderSize + |f.payload|..]);
      FramingCons(raw, tail);
      Framing([f] + tail.frames, tail.trailer)
  }

  /** The complete frame at the head of a buffer the decoder does not stop at. */
  function HeadFrame(raw: seq<byte>): (f: Frame)
    requires !Stops(raw)
    ensures WellFormed(f)
    ensures HeaderSize + |f.payload| <= |raw|
  {
    Frame(raw[0], raw[1..4], raw[HeaderSize..HeaderSize + DeclaredSize(raw)])
  }

  /** Putting the head frame back in front of the framing of the rest gives a framing of the whole buffer. */
  lemma FramingCons(raw: seq<byte>, tail: Framing)
    requires !Stops(raw)
    requires AllWellFormed(tail.frames)
    requires Encode(tail.frames) + tail.trailer == raw[HeaderSize + |HeadFrame(raw).payload|..]
    ensures AllWellFormed([HeadFrame(raw)] + tail.frames)
    ensures Encode([HeadFrame(raw)] + tail.frames) + tail.trailer == raw
  {
    var f := HeadFrame(raw);
    var rest := raw[HeaderSize + |f.payload|..];
    HeadFrameEncodes(raw);
    EncodeCons(f, tail.frames);
    var e := Encode([f] + tail.frames);
    assert e + tail.trailer == EncodeFrame(f) + (Encode(tail.frames) + tail.trailer);
  }

  lemma HeadFrameEncodes(raw: seq<byte>)
    requires !Stops(raw)
    ensures EncodeFrame(HeadFrame(raw)) + raw[HeaderSize + |HeadFrame(raw).payload|..] == raw
  {
    var f := HeadFrame(raw);
    var size := DeclaredSize(raw);
    U32BytesOfBigEndian(raw[4..8]);
    assert U32Bytes(size) == raw[4..8];
    assert EncodeFrame(f) == raw[..HeaderSize + size];
  }

  lemma EncodeCons(f: Frame, fs: seq<Frame>)
    requires WellFormed(f) && AllWellFormed(fs)
    ensures AllWellFormed([f] + fs)
    ensures Encode([f] + fs) == EncodeFrame(f) + Encode(fs)
  {
    assert ([f] + fs)[1..] == fs;
  }

  /** Reading a length field and writing it back gives the same four bytes. */
  lemma U32BytesOfBigEndian(b: seq<byte>)
    requires |b| == 4
    ensures U32Bytes(BigEndianU32(b)) == b
  {
    var n := BigEndianU32(b);
    var low := (b[1] as int * 0x100 + b[2] as int) * 0x100 + b[3] as int;
    assert 0 <= low < 0x100_0000;
    assert n == b[0] as int * 0x100_0000 + low;
    assert n / 0x100_0000 == b[0] && n % 0x100_0000 == low;
    var mid := b[2] as int * 0x100 + b[3] as int;
    assert 0 <= mid < 0x1_0000;
    assert low == b[1] as int * 0x1_0000 + mid;
    assert low / 0x1_0000 == b[1] && low % 0x1_0000 == mid;
    assert mid / 0x100 == b[2] && mid % 0x100 == b[3];
  }

  /** Two length fields with the same value are the same bytes. */
  lemma BigEndianU32Injective(a: seq<byte>, b: seq<byte>)
    requires |a| == 4 && |b| == 4
    requires BigEndianU32(a) == BigEndianU32(b)
    ensures a == b
  {
    U32BytesOfBigEndian(a);
    U32BytesOfBigEndian(b);
  }

  /**
    The whole behaviour of the decoder: its output is the concatenation of
    the stdout and stderr payloads of the complete frames the buffer starts
    with, whatever the buffer.
   */
  lemma DemuxIsAcceptedPayloads(raw: seq<byte>)
    ensures Demux(raw) == Accepted(Split(raw).frames)
  {
    var p := Split(raw);
    DemuxFrames(p.frames, p.trailer);
  }

  /** An empty frame adds nothing and the decoder resumes right after its header, whatever its tag. */
  lemma EmptyFrameSkipped(raw: seq<byte>, i: nat, tag: byte, reserved: seq<byte>)
    requires |reserved| == 3
    requires i + HeaderSize <= |raw| && raw[i..i + HeaderSize] == EncodeFrame(Frame(tag, reserved, []))
    ensures DemuxFrom(raw, i) == DemuxFrom(raw, i + HeaderSize)
  {
    DemuxFrameAt(raw, i, Frame(tag, reserved, []));
  }

  /** A frame whose tag is neither 1 nor 2 contributes nothing, whatever its length. */
  lemma ForeignStreamDiscarded(raw: seq<byte>, i: nat, f: Frame)
    requires WellFormed(f) && !IsOutputStream(f.stream)
    requires i + |EncodeFrame(f)| <= |raw| && raw[i..i + |EncodeFrame(f)|] == EncodeFrame(f)
    ensures DemuxFrom(raw, i) == DemuxFrom(raw, i + |EncodeFrame(f)|)
  {
    DemuxFrameAt(raw, i, f);
  }

  /** The stdout frame carrying "hello" decodes to "hello". */
  lemma HelloExample()
    ensures Demux([1, 0, 0, 0, 0, 0, 0, 5, 0x68, 0x65, 0x6C, 0x6C, 0x6F]) == [0x68, 0x65, 0x6C, 0x6C, 0x6F]
  {
    var hello: seq<byte> := [0x68, 0x65, 0x6C, 0x6C, 0x6F];
    var zero: seq<byte> := [0, 0, 0];
    assert U32Bytes(5) == [0, 0, 0, 5];
    var raw: seq<byte> := [1, 0, 0, 0, 0, 0, 0, 5, 0x68, 0x65, 0x6C, 0x6C, 0x6F];
    assert raw[0..13] == EncodeFrame(Frame(1, zero, hello));
    DemuxFrameAt(raw, 0, Frame(1, zero, hello));
    DemuxFromStop(raw, 13);
  }

  /** The same frame with tag 3 decodes to nothing. */
  lemma ForeignHelloExample()
    ensures Demux([3, 0, 0, 0, 0, 0, 0, 5, 0x68, 0x65, 0x6C, 0x6C, 0x6F]) == []
  {
    var hello: seq<byte> := [0x68, 0x65, 0x6C, 0x6C, 0x6F];
    var zero: seq<byte> := [0, 0, 0];
    assert U32Bytes(5) == [0, 0, 0, 5];
    var raw: seq<byte> := [3, 0, 0, 0, 0, 0, 0, 5, 0x68, 0x65, 0x6C, 0x6C, 0x6F];
    assert raw[0..13] == EncodeFrame(Frame(3, zero, hello));
    DemuxFrameAt(raw, 0, Frame(3, zero, hello));
    DemuxFromStop(raw, 13);
  }
}
