/**
  `EncoderFrameSubmitter.submitFrameToEncoder`: stamp a camera frame with the
  time since the first frame, flatten its planes, split the flat array again
  at a fixed 320 by 240 size, copy the three buffers into the encoder's input
  image and queue the input slot.

  The submitter's two fields are its state: the origin of the timestamps
  (`mFirstFrameTimestamp`, -1 until the first frame) and the chroma pixel
  stride the last flattening recorded (`uvPixelStride`, read by the split).
  The wall clock and the encoder's input slot are parameters.
 */
module FrameSubmitter {
  import opened JavaRuntime
  import opened MediaCodec
  import opened YuvPlanes

  const NS_IN_US: int := 1000
  const NS_IN_MS: int := 1000000

  /** The split always uses this frame size, whatever the camera frame's. */
  const SPLIT_WIDTH: int := 320
  const SPLIT_HEIGHT: int := 240

  datatype Submitter = Submitter(firstFrameMs: int, uvPixelStride: int)

  const INITIAL: Submitter := Submitter(-1, 0)

  /** `nanosSinceFirstFrame` and the division by `NS_IN_US` in
      `submitFrameToEncoder`: the timestamp origin after the call and the
      presentation time in microseconds. */
  function Stamp(firstFrameMs: int, nowMs: int): (r: (int, int))
    ensures firstFrameMs >= 0 ==> r.0 == firstFrameMs
    ensures firstFrameMs < 0 ==> r.0 == nowMs && r.1 == 0
    ensures r.1 == (nowMs - r.0) * 1000
  {
    var origin := if firstFrameMs < 0 then nowMs else firstFrameMs;
    (origin, Quot((nowMs - origin) * NS_IN_MS, NS_IN_US))
  }

  /** The presentation times of successive submissions at the clock readings
      `clocks`, from timestamp origin `firstFrameMs`. */
  function Stamps(firstFrameMs: int, clocks: seq<int>): (r: seq<int>)
    decreases |clocks|
    // one presentation time per submission
    ensures |r| == |clocks|
    // the first submission of a submitter without an origin is stamped 0
    ensures firstFrameMs < 0 && |clocks| > 0 ==> r[0] == 0
  {
    if |clocks| == 0 then []
    else
      var (origin, us) := Stamp(firstFrameMs, clocks[0]);
      [us] + Stamps(origin, clocks[1..])
  }

  ghost predicate NonDecreasing(xs: seq<int>) {
    forall a, b | 0 <= a < b < |xs| :: xs[a] <= xs[b]
  }

  /** Once the origin is set (the clock never reads negative), every
      submission is stamped with the milliseconds since that origin, in
      microseconds. */
  lemma {:induction false} StampsSinceOrigin(origin: int, clocks: seq<int>)
    requires origin >= 0
    ensures |Stamps(origin, clocks)| == |clocks|
    ensures forall k | 0 <= k < |clocks| :: Stamps(origin, clocks)[k] == (clocks[k] - origin) * 1000
    decreases |clocks|
  {
    if |clocks| > 0 {
      StampsSinceOrigin(origin, clocks[1..]);
      var s := Stamps(origin, clocks);
      assert s == [(clocks[0] - origin) * 1000] + Stamps(origin, clocks[1..]);
      forall k | 0 <= k < |clocks| ensures s[k] == (clocks[k] - origin) * 1000 {
        if k > 0 {
          assert s[k] == Stamps(origin, clocks[1..])[k - 1];
          assert clocks[1..][k - 1] == clocks[k];
        }
      }
    }
  }

  /** From a fresh submitter, the first frame is stamped 0 µs and every later
      one with the time since the first, so a non-decreasing clock gives
      non-decreasing presentation times. */
  lemma FirstFrameFixesOrigin(clocks: seq<int>)
    requires |clocks| > 0 && forall k | 0 <= k < |clocks| :: clocks[k] >= 0
    ensures |Stamps(INITIAL.firstFrameMs, clocks)| == |clocks|
    ensures Stamps(INITIAL.firstFrameMs, clocks)[0] == 0
    ensures forall k | 0 <= k < |clocks| :: Stamps(INITIAL.firstFrameMs, clocks)[k] == (clocks[k] - clocks[0]) * 1000
    ensures NonDecreasing(clocks) ==> NonDecreasing(Stamps(INITIAL.firstFrameMs, clocks))
  {
    var s := Stamps(INITIAL.firstFrameMs, clocks);
    StampsSinceOrigin(clocks[0], clocks[1..]);
    assert s == [0] + Stamps(clocks[0], clocks[1..]);
    forall k | 0 <= k < |clocks| ensures s[k] == (clocks[k] - clocks[0]) * 1000 {
      if k > 0 {
        assert s[k] == Stamps(clocks[0], clocks[1..])[k - 1];
        assert clocks[1..][k - 1] == clocks[k];
      }
    }
    if NonDecreasing(clocks) {
      forall a, b | 0 <= a < b < |s| ensures s[a] <= s[b] {
        assert clocks[a] <= clocks[b];
      }
    }
  }

  /** The encoder's side of one submission: the input slot
      `dequeueInputBuffer(-1)` waits for, the capacity of that slot's
      temporary buffer, and the plane buffers of the slot's input image.
      The planes are kept as separate buffers; the U and V views of a
      semi-planar image, which share memory one byte apart, are not. */
  datatype EncoderInput = EncoderInput(index: nat, capacity: int, planes: Planes)

  /** What one successful submission did: the three buffers handed to
      `copyBuffer`, the encoder image's planes afterwards, and the
      `queueInputBuffer` call. */
  datatype Submission = Submission(handed: Planes, image: Planes, queued: QueuedInput)

  /** `after` is `before` with as much of `source` as fits copied over its
      start. */
  ghost predicate CopiedInto(after: seq<Byte>, source: seq<Byte>, before: seq<Byte>) {
    var n := Min(|before|, |source|);
    && |after| == |before|
    && after[..n] == source[..n]
    && after[n..] == before[n..]
  }

  /** `submitFrameToEncoder`: one camera frame into the encoder. The
      timestamp origin is fixed before anything can throw, and the recorded
      pixel stride once the luma copy has succeeded; both persist when a
      later step throws. The split reads the stride the flattening of the
      same frame recorded, at the fixed 320 by 240 size. */
  method SubmitFrameToEncoder(s: Submitter, frame: Image, endOfStream: bool, nowMs: int, input: EncoderInput)
    returns (s': Submitter, r: Result<Submission>)
    ensures s'.firstFrameMs == Stamp(s.firstFrameMs, nowMs).0
    ensures s'.uvPixelStride == (if 0 <= LumaSize(frame.width, frame.height) <= |frame.y.buffer|
                                 then frame.u.pixelStride else s.uvPixelStride)
    ensures r.Ok? ==> r.value.queued == QueuedInput(input.index, 0, input.capacity, Stamp(s.firstFrameMs, nowMs).1,
                                                    if endOfStream then BUFFER_FLAG_END_OF_STREAM else NO_FLAGS)
    // the split's branch is the one the frame's own stride selects
    ensures r.Ok? ==> var uvSize := ChromaSize(SPLIT_WIDTH, SPLIT_HEIGHT);
                      && s'.uvPixelStride == frame.u.pixelStride
                      && |r.value.handed.y| == SPLIT_WIDTH * SPLIT_HEIGHT
                      && (frame.u.pixelStride == 1 ==> |r.value.handed.u| == uvSize == |r.value.handed.v|)
                      && (frame.u.pixelStride != 1 ==> |r.value.handed.u| == 2 * uvSize - 1 == |r.value.handed.v|)
    ensures r.Ok? ==> && CopiedInto(r.value.image.y, r.value.handed.y, input.planes.y)
                      && CopiedInto(r.value.image.u, r.value.handed.u, input.planes.u)
                      && CopiedInto(r.value.image.v, r.value.handed.v, input.planes.v)
    // a planar frame whose planes are at least 320 by 240
    ensures var ySize, uvSize := LumaSize(frame.width, frame.height), ChromaSize(frame.width, frame.height);
            0 <= ySize <= |frame.y.buffer| && frame.u.pixelStride == 1
            && uvSize <= |frame.u.buffer| && uvSize <= |frame.v.buffer| ==>
              (r.Ok? <==> ySize + 2 * uvSize >= SPLIT_WIDTH * SPLIT_HEIGHT * 3 / 2)
    // ... of exactly that size reaches the encoder unchanged
    ensures frame.width == SPLIT_WIDTH && frame.height == SPLIT_HEIGHT && frame.u.pixelStride == 1
            && SPLIT_WIDTH * SPLIT_HEIGHT <= |frame.y.buffer|
            && ChromaSize(SPLIT_WIDTH, SPLIT_HEIGHT) <= |frame.u.buffer|
            && ChromaSize(SPLIT_WIDTH, SPLIT_HEIGHT) <= |frame.v.buffer| ==>
              && r.Ok?
              && r.value.handed == Planes(frame.y.buffer[..SPLIT_WIDTH * SPLIT_HEIGHT],
                                          frame.u.buffer[..ChromaSize(SPLIT_WIDTH, SPLIT_HEIGHT)],
                                          frame.v.buffer[..ChromaSize(SPLIT_WIDTH, SPLIT_HEIGHT)])
    // ... while of a larger one the "U" buffer is taken from its luma plane
    ensures var ySize := LumaSize(frame.width, frame.height);
            var lo := SPLIT_WIDTH * SPLIT_HEIGHT;
            var hi := lo + ChromaSize(SPLIT_WIDTH, SPLIT_HEIGHT);
            r.Ok? && frame.u.pixelStride == 1 && hi <= ySize <= |frame.y.buffer| ==> r.value.handed.u == frame.y.buffer[lo..hi]
  {
    var (origin, timestampUs) := Stamp(s.firstFrameMs, nowMs);
    var flags := if endOfStream then BUFFER_FLAG_END_OF_STREAM else NO_FLAGS;
    var flat, stride := ConvertYuv420ToByteArray(frame, s.uvPixelStride);
    s' := Submitter(origin, stride);
    if flat.Throws? {
      return s', Throws(flat.ex);
    }
    var planes := ConvertByteArrayToPlanes(flat.value, SPLIT_WIDTH, SPLIT_HEIGHT, stride);
    if planes.Throws? {
      return s', Throws(planes.ex);
    }
    var handed := planes.value;
    var y, _ := CopyBuffer(handed.y, input.planes.y);
    var u, _ := CopyBuffer(handed.u, input.planes.u);
    var v, _ := CopyBuffer(handed.v, input.planes.v);
    if frame.width == SPLIT_WIDTH && frame.height == SPLIT_HEIGHT && stride == 1 {
      PlanarRoundTrip(frame, flat.value);
    }
    r := Ok(Submission(handed, Planes(y, u, v), QueuedInput(input.index, 0, input.capacity, timestampUs, flags)));
  }
}
