/**
  `handleCodecInput`, the input half of one audio capture iteration. The two
  audio sources carry identical copies of it; it is defined once here.

  The microphone read and the encoder's `dequeueInputBuffer(-1)` are opaque:
  their results (`length`, `dequeued`) are parameters. The input buffer array
  is given by the capacities of its buffers.
 */
module AudioInput {
  import opened JavaRuntime
  import opened MediaCodec

  /** `AudioRecord.ERROR_BAD_VALUE` and `AudioRecord.ERROR_INVALID_OPERATION`. */
  const ERROR_BAD_VALUE: int := -2
  const ERROR_INVALID_OPERATION: int := -3

  /** What one call did: `Rejected` returns false without touching the
      encoder; `Accepted` returns true, having queued at most one input. */
  datatype InputStep = Rejected | Accepted(queued: Nullable<QueuedInput>)

  /** The flags of the queued input: end of stream only once not running. */
  function InputFlags(running: bool): (f: bv32)
    ensures f == BUFFER_FLAG_END_OF_STREAM <==> !running
    ensures f == NO_FLAGS <==> running
  {
    if running then NO_FLAGS else BUFFER_FLAG_END_OF_STREAM
  }

  /** One call of `handleCodecInput(codecInputBuffers, running)`, where the
      read returned `length` and the encoder handed out input slot `dequeued`.
      Each input buffer is given by its capacity; an entry may be null. */
  function HandleCodecInput(bufferSize: int, length: int, dequeued: int,
                            inputCapacities: seq<Nullable<nat>>, running: bool): (r: Result<InputStep>)
    // `new byte[bufferSize]` is the only failure before the read
    ensures bufferSize < 0 ==> r == Throws(NegativeArraySize)
    // a short read or an error code is rejected, and only those are
    ensures bufferSize >= 0 ==> (r == Ok(Rejected) <==> length != bufferSize)
    // a full read into a usable slot queues exactly that slot, from offset 0,
    // with the read length, presentation time 0 and end of stream iff not running
    ensures bufferSize >= 0 && length == bufferSize && 0 <= dequeued < |inputCapacities|
              && inputCapacities[dequeued].NonNull? && inputCapacities[dequeued].get >= bufferSize ==>
              r == Ok(Accepted(NonNull(QueuedInput(dequeued, 0, length, 0, InputFlags(running)))))
    // no slot: nothing is queued, yet the call reports success
    ensures bufferSize >= 0 && length == bufferSize && dequeued < 0 ==> r == Ok(Accepted(Null))
    // a slot outside the array throws `ArrayIndexOutOfBoundsException`, a null
    // buffer `NullPointerException` at `clear()`, one too small for the read
    // buffer `BufferOverflowException`, and nothing else after the allocation
    // throws
    ensures bufferSize >= 0 && length == bufferSize && dequeued >= |inputCapacities| ==>
              r == Throws(IndexOutOfBounds)
    ensures bufferSize >= 0 && length == bufferSize && 0 <= dequeued < |inputCapacities|
              && inputCapacities[dequeued].Null? ==>
              r == Throws(NullPointer)
    ensures bufferSize >= 0 && length == bufferSize && 0 <= dequeued < |inputCapacities|
              && inputCapacities[dequeued].NonNull? && inputCapacities[dequeued].get < bufferSize ==>
              r == Throws(BufferOverflow)
    ensures r.Throws? && bufferSize >= 0 ==>
              && length == bufferSize && 0 <= dequeued
              && (|| dequeued >= |inputCapacities| || inputCapacities[dequeued].Null?
                  || inputCapacities[dequeued].get < bufferSize)
  {
    if bufferSize < 0 then Throws(NegativeArraySize)
    else if (length == ERROR_BAD_VALUE || length == ERROR_INVALID_OPERATION || length != bufferSize)
            && length != bufferSize then
      Ok(Rejected)
    else if dequeued < 0 then Ok(Accepted(Null))
    else if dequeued >= |inputCapacities| then Throws(IndexOutOfBounds)
    else if inputCapacities[dequeued].Null? then Throws(NullPointer)
    else if inputCapacities[dequeued].get < bufferSize then Throws(BufferOverflow)
    else Ok(Accepted(NonNull(QueuedInput(dequeued, 0, length, 0, InputFlags(running)))))
  }

  /** Both error codes of `AudioRecord.read` are rejected like any short read
      (the buffer size is never negative once the array exists). */
  lemma ErrorCodesRejected(bufferSize: nat, dequeued: int, inputCapacities: seq<Nullable<nat>>, running: bool)
    ensures HandleCodecInput(bufferSize, ERROR_BAD_VALUE, dequeued, inputCapacities, running) == Ok(Rejected)
    ensures HandleCodecInput(bufferSize, ERROR_INVALID_OPERATION, dequeued, inputCapacities, running) == Ok(Rejected)
  {
  }
}
