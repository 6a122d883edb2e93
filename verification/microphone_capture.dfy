/**
 * Reading newly recorded audio out of the microphone's looping clip. The clip is a ring of
 * frames (one sample per channel); the recorder's write position moves round the ring and each
 * read returns the frames written since the previous read, splitting the copy in two when it
 * crosses the end of the ring.
 */
module MicrophoneCapture {
  import opened Wrappers

  /** A float32 PCM sample, kept as its raw IEEE-754 bit pattern (no arithmetic is done on it). */
  type Sample = bv32
  type Byte = bv8
  /** One sample per channel. */
  type Frame = seq<Sample>

  datatype Clip = Clip(channels: nat, frames: seq<Frame>)

  /** A recording clip: a non-empty ring of frames that all have one sample per channel. */
  predicate ValidClip(c: Clip) {
    && c.channels > 0
    && |c.frames| > 0
    && forall i :: 0 <= i < |c.frames| ==> |c.frames[i]| == c.channels
  }

  /** The capture component: the clip (absent when no microphone was found) and the read cursor. */
  datatype Capture = Capture(clip: Option<Clip>, lastReadPos: int)

  predicate Valid(cap: Capture) {
    cap.clip.Some? ==> ValidClip(cap.clip.value) && 0 <= cap.lastReadPos < |cap.clip.value.frames|
  }

  // ---------------------------------------------------------------------------
  // Frames and interleaved sample buffers
  // ---------------------------------------------------------------------------

  /** The interleaved buffer holding the frames one after another. */
  function Flatten(fs: seq<Frame>): seq<Sample> {
    if |fs| == 0 then [] else fs[0] + Flatten(fs[1..])
  }

  lemma {:induction false} FlattenAppend(a: seq<Frame>, b: seq<Frame>)
    ensures Flatten(a + b) == Flatten(a) + Flatten(b)
    decreases |a|
  {
    if |a| == 0 {
      assert a + b == b;
    } else {
      assert (a + b)[1..] == a[1..] + b;
      FlattenAppend(a[1..], b);
    }
  }

  lemma {:induction false} FlattenLength(fs: seq<Frame>, channels: nat)
    requires forall i :: 0 <= i < |fs| ==> |fs[i]| == channels
    ensures |Flatten(fs)| == |fs| * channels
    decreases |fs|
  {
    if |fs| > 0 {
      FlattenLength(fs[1..], channels);
    }
  }

  /** `x % n` for a non-negative `x`: the ring position reached `x` frames after position 0. */
  function Ring(x: nat, n: nat): (r: nat)
    requires n > 0
    ensures r < n
    decreases x
  {
    if x < n then x else Ring(x - n, n)
  }

  /** Below two laps, wrapping subtracts the ring size at most once. */
  lemma RingOnce(x: nat, n: nat)
    requires 0 < n && x < 2 * n
    ensures Ring(x, n) == if x < n then x else x - n
  {
    if x >= n {
      assert Ring(x - n, n) == x - n;
    }
  }

  /** Moving on from an already-wrapped position is the same as moving on from the raw one. */
  lemma {:induction false} RingShift(x: nat, y: nat, n: nat)
    requires n > 0
    ensures Ring(Ring(x, n) + y, n) == Ring(x + y, n)
    decreases x
  {
    if x >= n {
      RingShift(x - n, y, n);
      assert Ring(x + y, n) == Ring(x - n + y, n);
    }
  }

  /** The `count` frames of the ring starting at `start`, wrapping round its end. */
  function Window(frames: seq<Frame>, start: nat, count: nat): (w: seq<Frame>)
    requires |frames| > 0
    ensures |w| == count
    ensures forall j :: 0 <= j < count ==> w[j] == frames[Ring(start + j, |frames|)]
  {
    seq(count, j requires 0 <= j < count => frames[Ring(start + j, |frames|)])
  }

  /** Two adjacent windows of the ring make one longer window. */
  lemma WindowConcat(frames: seq<Frame>, start: nat, a: nat, b: nat)
    requires |frames| > 0
    ensures Window(frames, start, a) + Window(frames, Ring(start + a, |frames|), b)
         == Window(frames, start, a + b)
  {
    var n := |frames|;
    var lhs := Window(frames, start, a) + Window(frames, Ring(start + a, n), b);
    var rhs := Window(frames, start, a + b);
    forall j | a <= j < a + b
      ensures lhs[j] == rhs[j]
    {
      RingShift(start + a, j - a, n);
    }
  }

  // ---------------------------------------------------------------------------
  // GetNewSamples
  // ---------------------------------------------------------------------------

  /** Frames written since the last read: the difference of the positions, wrapping at the ring size. */
  function SampleCount(lastReadPos: nat, currentPos: nat, clipSamples: nat): (count: nat)
    requires lastReadPos < clipSamples && currentPos < clipSamples && currentPos != lastReadPos
    ensures 1 <= count < clipSamples
    ensures Ring(lastReadPos + count, clipSamples) == currentPos
  {
    if currentPos > lastReadPos then currentPos - lastReadPos
    else
      var c := clipSamples - lastReadPos + currentPos;
      assert lastReadPos + c == clipSamples + currentPos;
      c
  }

  /** The result of a read: the new component state and the samples, if there were any. */
  datatype Read = Read(capture: Capture, samples: Option<seq<Sample>>)

  /**
   * Returns the interleaved samples of every frame written since the last read and moves the
   * cursor to the write position `currentPos`; returns nothing, and keeps the cursor, when there
   * is no clip or the write position has not moved.
   */
  function GetNewSamples(cap: Capture, currentPos: int): (r: Read)
    requires Valid(cap)
    requires cap.clip.Some? ==> 0 <= currentPos < |cap.clip.value.frames|
    ensures Valid(r.capture)
    ensures r.capture.clip == cap.clip
    ensures cap.clip.None? || currentPos == cap.lastReadPos ==> r == Read(cap, None)
    ensures cap.clip.Some? && currentPos != cap.lastReadPos ==>
      var clip := cap.clip.value;
      var count := SampleCount(cap.lastReadPos, currentPos, |clip.frames|);
      && r.capture.lastReadPos == currentPos
      && r.samples.Some?
      && |r.samples.value| == count * clip.channels
      && r.samples.value == Flatten(Window(clip.frames, cap.lastReadPos, count))
  {
    match cap.clip
    case None => Read(cap, None)
    case Some(clip) =>
      if currentPos == cap.lastReadPos then Read(cap, None)
      else
        var last: nat := cap.lastReadPos;
        var n := |clip.frames|;
        var count := SampleCount(last, currentPos, n);
        var samplesToEnd := n - last;
        var buffer :=
          if count <= samplesToEnd then Flatten(clip.frames[last..last + count])
          else Flatten(clip.frames[last..]) + Flatten(clip.frames[..count - samplesToEnd]);
        ReadIsWindow(clip, last, count);
        Read(Capture(cap.clip, currentPos), Some(buffer))
  }

  /** The one- or two-part copy made by a read is the circular window of the ring. */
  lemma ReadIsWindow(clip: Clip, last: nat, count: nat)
    requires ValidClip(clip) && last < |clip.frames| && count <= |clip.frames|
    ensures var n := |clip.frames|;
      var buffer :=
        if count <= n - last then Flatten(clip.frames[last..last + count])
        else Flatten(clip.frames[last..]) + Flatten(clip.frames[..count - (n - last)]);
      && buffer == Flatten(Window(clip.frames, last, count))
      && |buffer| == count * clip.channels
  {
    var n := |clip.frames|;
    var w := Window(clip.frames, last, count);
    if count <= n - last {
      assert clip.frames[last..last + count] == w by {
        forall j | 0 <= j < count
          ensures clip.frames[last..last + count][j] == w[j]
        {
          RingOnce(last + j, n);
        }
      }
    } else {
      var head := count - (n - last);
      assert clip.frames[last..] + clip.frames[..head] == w by {
        forall j | 0 <= j < count
          ensures (clip.frames[last..] + clip.frames[..head])[j] == w[j]
        {
          RingOnce(last + j, n);
        }
      }
      FlattenAppend(clip.frames[last..], clip.frames[..head]);
    }
    FlattenLength(w, clip.channels);
  }

  lemma TileWindows(frames: seq<Frame>, p0: nat, c1: nat, c2: nat, p1: nat)
    requires |frames| > 0 && Ring(p0 + c1, |frames|) == p1
    ensures Flatten(Window(frames, p0, c1)) + Flatten(Window(frames, p1, c2)) == Flatten(Window(frames, p0, c1 + c2))
  {
    WindowConcat(frames, p0, c1, c2);
    FlattenAppend(Window(frames, p0, c1), Window(frames, p1, c2));
  }

  /**
   * Consecutive reads tile the recorded stream: the samples of a read from p0 to p1 followed by
   * those of the next read from p1 to p2 are exactly the frames written from p0 onwards.
   */
  lemma ConsecutiveReadsTile(clip: Clip, p0: nat, p1: int, p2: int)
    requires ValidClip(clip)
    requires p0 < |clip.frames| && 0 <= p1 < |clip.frames| && 0 <= p2 < |clip.frames|
    requires p1 != p0 && p2 != p1
    ensures var n := |clip.frames|;
      var r1 := GetNewSamples(Capture(Some(clip), p0), p1);
      var r2 := GetNewSamples(Capture(Some(clip), p1), p2);
      var c1 := SampleCount(p0, p1, n);
      var c2 := SampleCount(p1, p2, n);
      && r1.capture == Capture(Some(clip), p1)
      && r2.capture == Capture(Some(clip), p2)
      && r1.samples.value + r2.samples.value == Flatten(Window(clip.frames, p0, c1 + c2))
  {
    var n := |clip.frames|;
    var c1 := SampleCount(p0, p1, n);
    var c2 := SampleCount(p1, p2, n);
    TileWindows(clip.frames, p0, c1, c2, p1);
  }

  // ---------------------------------------------------------------------------
  // FloatArrayToByteArray
  // ---------------------------------------------------------------------------

  /** The four bytes of one sample, least significant first (little-endian float32 PCM). */
  function SampleBytes(x: Sample): (b: seq<Byte>)
    ensures |b| == 4
  {
    [(x & 0xFF) as Byte, ((x >> 8) & 0xFF) as Byte, ((x >> 16) & 0xFF) as Byte, ((x >> 24) & 0xFF) as Byte]
  }

  function BytesSample(b0: Byte, b1: Byte, b2: Byte, b3: Byte): Sample {
    (b0 as Sample) | ((b1 as Sample) << 8) | ((b2 as Sample) << 16) | ((b3 as Sample) << 24)
  }

  lemma SampleBytesRoundTrip(x: Sample)
    ensures var b := SampleBytes(x); BytesSample(b[0], b[1], b[2], b[3]) == x
  {
  }

  function EncodeAll(xs: seq<Sample>): (bytes: seq<Byte>)
    ensures |bytes| == 4 * |xs|
  {
    if |xs| == 0 then [] else SampleBytes(xs[0]) + EncodeAll(xs[1..])
  }

  /** Reads a little-endian byte buffer back as samples (the inverse of the copy). */
  function DecodeAll(bytes: seq<Byte>): (xs: seq<Sample>)
    requires |bytes| % 4 == 0
    ensures |xs| == |bytes| / 4
  {
    if |bytes| == 0 then []
    else [BytesSample(bytes[0], bytes[1], bytes[2], bytes[3])] + DecodeAll(bytes[4..])
  }

  /** Converts samples to their byte image; nothing for a null or empty array. */
  function FloatArrayToByteArray(input: Option<seq<Sample>>): (r: Option<seq<Byte>>)
    ensures r.Some? <==> input.Some? && |input.value| > 0
    ensures r.Some? ==> |r.value| == 4 * |input.value|
  {
    match input
    case None => None
    case Some(xs) => if |xs| == 0 then None else Some(EncodeAll(xs))
  }

  /** The byte image loses nothing: decoding it gives the samples back. */
  lemma {:induction false} EncodeDecode(xs: seq<Sample>)
    ensures DecodeAll(EncodeAll(xs)) == xs
    decreases |xs|
  {
    if |xs| > 0 {
      var e := EncodeAll(xs);
      assert e[4..] == EncodeAll(xs[1..]);
      SampleBytesRoundTrip(xs[0]);
      EncodeDecode(xs[1..]);
    }
  }

  lemma ByteArrayRoundTrip(xs: seq<Sample>)
    requires |xs| > 0
    ensures var r := FloatArrayToByteArray(Some(xs)); r.Some? && DecodeAll(r.value) == xs
  {
    EncodeDecode(xs);
  }
}
