/**
  The vocabulary shared by the audio and video encoder loops: Android's
  `MediaCodec` constants, the `BufferInfo` record, encoder output pools and
  the scripted results of `dequeueOutputBuffer`.

  The encoder itself is opaque. Its behaviour during one drain is given as a
  finite script of dequeue results, consumed left to right; a script that has
  run out answers `INFO_TRY_AGAIN_LATER`, as an idle encoder does.
 */
module MediaCodec {
  import opened JavaRuntime

  const BUFFER_FLAG_KEY_FRAME: bv32 := 1
  const BUFFER_FLAG_CODEC_CONFIG: bv32 := 2
  const BUFFER_FLAG_END_OF_STREAM: bv32 := 4
  const NO_FLAGS: bv32 := 0

  const INFO_TRY_AGAIN_LATER: int := -1
  const INFO_OUTPUT_FORMAT_CHANGED: int := -2
  const INFO_OUTPUT_BUFFERS_CHANGED: int := -3

  /** `MediaCodec.BufferInfo`: where the payload lies in its output buffer. */
  datatype BufferInfo = BufferInfo(offset: int, size: int, presentationTimeUs: int, flags: bv32)

  /** A `new MediaCodec.BufferInfo()`: every field zero. */
  const EMPTY_INFO: BufferInfo := BufferInfo(0, 0, 0, NO_FLAGS)

  /** The output buffer array of `getOutputBuffers()`; an entry may be null.
      Each buffer is its content from index 0 to its capacity. */
  type Pool = seq<Nullable<seq<Byte>>>

  /** One result of `dequeueOutputBuffer(info, 0)`. An `Output` also carries
      what the environment does while that slot is handled: the wall-clock
      reading taken if it becomes a frame, and whether the sink call made for
      it throws. */
  datatype Dequeue =
    | Output(index: nat, info: BufferInfo, clockMs: int, sinkThrows: bool)
    | TryAgainLater
    | OutputFormatChanged
    | OutputBuffersChanged(refreshed: Pool)

  /** The integer `dequeueOutputBuffer` returns for each result. */
  function Code(d: Dequeue): (c: int)
    ensures c >= 0 <==> d.Output?
    ensures c == INFO_TRY_AGAIN_LATER <==> d.TryAgainLater?
    ensures c == INFO_OUTPUT_BUFFERS_CHANGED <==> d.OutputBuffersChanged?
  {
    match d
    case Output(i, _, _, _) => i
    case TryAgainLater => INFO_TRY_AGAIN_LATER
    case OutputFormatChanged => INFO_OUTPUT_FORMAT_CHANGED
    case OutputBuffersChanged(_) => INFO_OUTPUT_BUFFERS_CHANGED
  }

  /** The next dequeue result of a script, and what remains after it. */
  function Head(script: seq<Dequeue>): Dequeue {
    if |script| == 0 then TryAgainLater else script[0]
  }

  function Tail(script: seq<Dequeue>): seq<Dequeue> {
    if |script| == 0 then [] else script[1..]
  }

  /** The shared `BufferInfo` record after a dequeue: the encoder fills it only
      when it hands out a buffer. */
  function InfoAfter(info: BufferInfo, d: Dequeue): BufferInfo {
    if d.Output? then d.info else info
  }

  /** `(flags & BUFFER_FLAG_CODEC_CONFIG) == BUFFER_FLAG_CODEC_CONFIG` */
  predicate IsCodecConfig(flags: bv32) {
    flags & BUFFER_FLAG_CODEC_CONFIG == BUFFER_FLAG_CODEC_CONFIG
  }

  /** `position(offset)` and then `limit(offset + size)` both succeed on a
      buffer whose limit is its capacity. */
  predicate WindowFits(buffer: seq<Byte>, info: BufferInfo) {
    0 <= info.offset <= |buffer| && 0 <= info.offset + info.size <= |buffer|
  }

  /** The bytes between `position(offset)` and `limit(offset + size)` of an
      output buffer whose limit was its capacity. `position` throws
      IllegalArgumentException on an offset outside `[0, capacity]`, `limit`
      on a limit outside it; a limit below the position pulls the position
      down to it, so a negative size leaves nothing between them. */
  function Window(buffer: seq<Byte>, info: BufferInfo): (r: Result<seq<Byte>>)
    ensures r.Ok? <==> WindowFits(buffer, info)
    ensures r.Throws? ==> r.ex == IllegalArgument
    ensures r.Ok? && info.size < 0 ==> r.value == []
    ensures r.Ok? && info.size >= 0 ==> |r.value| == info.size
    ensures r.Ok? ==> forall k | 0 <= k < info.size :: r.value[k] == buffer[info.offset + k]
  {
    if info.offset < 0 || info.offset > |buffer| then Throws(IllegalArgument)
    else
      var limit := info.offset + info.size;
      if limit < 0 || limit > |buffer| then Throws(IllegalArgument)
      else
        var position := if info.offset > limit then limit else info.offset;
        Ok(buffer[position..limit])
  }

  /** `rest` is what remains of `script` once some prefix of it is consumed. */
  predicate SuffixOf(rest: seq<Dequeue>, script: seq<Dequeue>) {
    |rest| <= |script| && rest == script[|script| - |rest|..]
  }

  /** The part of `script` that a drain leaving `rest` unread has consumed. */
  function Consumed(script: seq<Dequeue>, rest: seq<Dequeue>): seq<Dequeue>
    requires |rest| <= |script|
  {
    script[..|script| - |rest|]
  }

  /** The indices of the output slots handed out among `events`, in order. */
  function OutputIndices(events: seq<Dequeue>): seq<nat>
    decreases |events|
  {
    if |events| == 0 then []
    else (if events[0].Output? then [events[0].index] else []) + OutputIndices(events[1..])
  }

  /** A `queueInputBuffer(index, offset, size, presentationTimeUs, flags)` call. */
  datatype QueuedInput = QueuedInput(index: nat, offset: int, size: int, presentationTimeUs: int, flags: bv32)
}
