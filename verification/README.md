# Kinesis Video capture core, modelled in Dafny

This project models the part of the AWS Android SDK's Kinesis Video media
pipeline that does real work. It also models one small enum from the SES
model classes. There are three pieces.

- **Video frame submission** (`EncoderFrameSubmitter`) has four parts:
  - stamping a camera frame with the time since the first frame;
  - flattening its three YUV_420_888 planes into one `Y|U|V` array;
  - splitting that array again into three plane buffers at a hard-coded
    320 by 240;
  - copying them into the encoder's input image and queueing the slot.

  The stand-alone `rotateYUV420Degree90` is modelled too. The model covers
  its argument checks, its index arithmetic, the exceptions it can raise,
  and what it computes on a frame of even size.
- **Audio capture** (`MicrophoneSource` and `MicrophoneFramesSource`):
  - `handleCodecInput` pushes one PCM read into the encoder.
  - `handleCodecOutput` drains the encoder.
  - The first source packages each drained payload as a frame for the
    media sink, and hands codec-config payloads to `onCodecPrivateData`.
  - The second source appends the payloads to an output stream.
- **`SNSActionEncoding`**: the `toString` / `fromValue` pair.

## How the environment is abstracted

- **The encoder (`MediaCodec`)** is a script, a sequence of `Dequeue`
  results, one per `dequeueOutputBuffer` call.
  - A result is a slot index with its `BufferInfo`, or one of
    `INFO_TRY_AGAIN_LATER`, `INFO_OUTPUT_FORMAT_CHANGED` and
    `INFO_OUTPUT_BUFFERS_CHANGED`.
  - `INFO_OUTPUT_BUFFERS_CHANGED` carries the refreshed buffer array.
  - The output buffer array is a `Pool` of nullable byte sequences.
  - `BufferInfo`'s offset and size are any integers, as Java's `int`
    fields are; `MediaCodec.Window` gives negative values their
    `ByteBuffer` outcome.
  - The input buffer array of `handleCodecInput` is a sequence of
    nullable capacities.
- **The wall clock**: each scripted slot carries the reading the frame
  packaging takes for it. `submitFrameToEncoder` takes the reading as a
  parameter.
- **The sink**: each scripted slot records whether the sink call made for
  it throws.
  - `onFrame` failures are logged and swallowed by the listener, so the
    drain carries on.
  - `onCodecPrivateData` failures are rethrown as `RuntimeException`.
- **Java semantics**:
  - exceptions are a `Result` value;
  - `null` is `Nullable`;
  - `int` division truncates toward zero (`JavaRuntime.Quot`);
  - `new byte[n]` is zero-filled;
  - a `ByteBuffer` is its content from position 0 to its limit.

## Behaviour modelled as written

Where the code's evident intent and what it does differ, the model follows
the code.

- **End of stream is never signalled.** The `running` argument of
  `handleCodecInput` exists to flag the last input as end of stream. The
  capture loop passes
  `Thread.currentThread().isAlive()` as `running` (`MicrophoneSource.java:96`).
  That is always true inside the thread, so `BUFFER_FLAG_END_OF_STREAM` is
  never queued. `MicrophoneSource.CaptureNeverEndsStream` states this.
- **The split size is fixed.** The flat array is laid out at the camera
  frame's own size, but the code splits it at a fixed 320 by 240, whatever the
  camera frame's size (`EncoderFrameSubmitter.java:151`).
  - `FrameSubmitter.SubmitFrameToEncoder` models this as written.
  - A larger frame's luma bytes end up in the "U" buffer.
- **Semi-planar chroma is not de-interleaved.** With a pixel stride other
  than 1, the split hands the encoder two overlapping windows of the flat
  array. These are not the interleaved chroma plane.
  `YuvPlanes.SemiPlanarSplitMixesRegions` states exactly which bytes they
  hold.
- **A leaked slot.** `MicrophoneSource.handleCodecOutput` returns early
  when the first dequeue leaves an empty buffer info. It does not release
  the slot that dequeue may have handed out.

## Model

| member | source | states |
|---|---|---|
| SnsActionEncoding.ToString | aws-android-sdk-ses/src/main/java/com/amazonaws/services/simpleemail/model/SNSActionEncoding.java:22-34 | UTF8 is written "UTF-8" and Base64 "Base64", and no other constant has either value |
| SnsActionEncoding.FromValue | aws-android-sdk-ses/src/main/java/com/amazonaws/services/simpleemail/model/SNSActionEncoding.java:43-54 | succeeds exactly on "UTF-8" and "Base64"; null, "" and every other string throw IllegalArgumentException; a success returns the constant whose string was given |
| SnsActionEncoding.RoundTrip | aws-android-sdk-ses/src/main/java/com/amazonaws/services/simpleemail/model/SNSActionEncoding.java:43-53 | fromValue(toString(e)) == e for every constant |
| SnsActionEncoding.ToStringInjective | aws-android-sdk-ses/src/main/java/com/amazonaws/services/simpleemail/model/SNSActionEncoding.java:22-34 | distinct constants have distinct string values |
| SnsActionEncoding.RejectsEverythingElse | aws-android-sdk-ses/src/main/java/com/amazonaws/services/simpleemail/model/SNSActionEncoding.java:44-52 | any string that is not a constant's value is rejected with IllegalArgumentException |
| MediaCodec.Window | aws-android-sdk-kinesisvideo/src/main/java/com/amazonaws/mobileconnectors/kinesisvideo/audioVideo/MicrophoneSource.java:219-220 | position(offset) and limit(offset + size) succeed exactly when both offset and offset + size lie in [0, capacity], and otherwise throw IllegalArgumentException; for a non-negative size the window is the size bytes starting at offset, and for a negative size (the limit pulls the position down) it is empty |
| AudioInput.InputFlags | aws-android-sdk-kinesisvideo/src/main/java/com/amazonaws/mobileconnectors/kinesisvideo/audioVideo/MicrophoneSource.java:186 | the queued flags are END_OF_STREAM exactly when not running, and 0 exactly when running |
| AudioInput.HandleCodecInput | aws-android-sdk-kinesisvideo/src/main/java/com/amazonaws/mobileconnectors/kinesisvideo/audioVideo/MicrophoneSource.java:163-190 | a read is rejected exactly when its length differs from the buffer size; a full read into a large enough slot queues that slot at offset 0 with the read length and time 0; with no slot the call still reports success; after the allocation it throws exactly on a full read into a slot beyond the input array (ArrayIndexOutOfBoundsException), into a null input buffer (NullPointerException at clear()) or into a slot smaller than the read (BufferOverflowException); a negative buffer size throws NegativeArraySizeException; MicrophoneFramesSource.java:134-156 is an identical copy |
| AudioInput.ErrorCodesRejected | aws-android-sdk-kinesisvideo/src/main/java/com/amazonaws/mobileconnectors/kinesisvideo/audioVideo/MicrophoneSource.java:169-175 | the two AudioRecord error codes are rejected without touching the encoder |
| MicrophoneSource.SendEncodedFrame | aws-android-sdk-kinesisvideo/src/main/java/com/amazonaws/mobileconnectors/kinesisvideo/audioVideo/MicrophoneSource.java:279-298 | the frame takes the current index and the index advances by one; the fragment start is fixed by the first frame, which is stamped 1 ms; later frames are stamped 1 + now − fragment start; the frame carries the payload, the buffer info and the audio track id |
| MicrophoneSource.Step | aws-android-sdk-kinesisvideo/src/main/java/com/amazonaws/mobileconnectors/kinesisvideo/audioVideo/MicrophoneSource.java:209-245 | a dequeued slot overwrites the buffer info and a status code changes nothing; the pass ends the loop exactly on an index beyond the output array (ArrayIndexOutOfBoundsException), a null buffer (return), an offset or offset + size outside [0, capacity] (IllegalArgumentException) or a throwing codec-private-data delivery |
| MicrophoneSource.StepFacts | aws-android-sdk-kinesisvideo/src/main/java/com/amazonaws/mobileconnectors/kinesisvideo/audioVideo/MicrophoneSource.java:209-245 | one loop pass: only an output slot can end the loop; a pass that carries on releases exactly its slot, unrendered, and emits at most one frame, numbered and stamped from the state; only a throwing codec-private-data delivery ends it with RuntimeException |
| MicrophoneSource.SlotDelivery | aws-android-sdk-kinesisvideo/src/main/java/com/amazonaws/mobileconnectors/kinesisvideo/audioVideo/MicrophoneSource.java:222-237 | a codec-config slot's whole window goes to onCodecPrivateData with the audio track id and takes no frame index; any other slot's window becomes exactly one frame; the pass ends exactly when a codec-private-data delivery throws |
| MicrophoneSource.DrainLoop | aws-android-sdk-kinesisvideo/src/main/java/com/amazonaws/mobileconnectors/kinesisvideo/audioVideo/MicrophoneSource.java:208-248 | what the loop leaves unread is exactly the suffix of the dequeue results after the ones it consumed; an early return or exception consumes the slot it happens at and is ArrayIndexOutOfBounds, IllegalArgument or RuntimeException; a fragment start once set is kept |
| MicrophoneSource.DrainLoopEnds | aws-android-sdk-kinesisvideo/src/main/java/com/amazonaws/mobileconnectors/kinesisvideo/audioVideo/MicrophoneSource.java:208-248 | the loop consumes results up to and including the first INFO_TRY_AGAIN_LATER; an early end happens only at an output slot; a RuntimeException only at a codec-config slot whose sink throws |
| MicrophoneSource.DrainLoopReleases | aws-android-sdk-kinesisvideo/src/main/java/com/amazonaws/mobileconnectors/kinesisvideo/audioVideo/MicrophoneSource.java:239-241 | every consumed output slot is released once, in order, without rendering, except the one the loop ends at |
| MicrophoneSource.DrainLoopNumbersFrames | aws-android-sdk-kinesisvideo/src/main/java/com/amazonaws/mobileconnectors/kinesisvideo/audioVideo/MicrophoneSource.java:295 | the frames handed to the sink carry consecutive indices from the state's index, and the index advances by their count |
| MicrophoneSource.DrainLoopStampsFrames | aws-android-sdk-kinesisvideo/src/main/java/com/amazonaws/mobileconnectors/kinesisvideo/audioVideo/MicrophoneSource.java:285-294 | with positive clock readings every frame is stamped 1 + reading − fragment start; a set fragment start never changes; the first frame of a fresh fragment is stamped 1 |
| MicrophoneSource.DrainLoopKeepsClockOrder | aws-android-sdk-kinesisvideo/src/main/java/com/amazonaws/mobileconnectors/kinesisvideo/audioVideo/MicrophoneSource.java:280-294 | a non-decreasing clock gives frames in non-decreasing clock order |
| MicrophoneSource.HandleCodecOutput | aws-android-sdk-kinesisvideo/src/main/java/com/amazonaws/mobileconnectors/kinesisvideo/audioVideo/MicrophoneSource.java:193-249 | what one call leaves unread is exactly the suffix of the dequeue results after the ones it consumed; an exception consumes the slot it happens at and is one of the three the loop raises; a fragment start once set is kept |
| MicrophoneSource.EmptyFirstBufferReturnsAtOnce | aws-android-sdk-kinesisvideo/src/main/java/com/amazonaws/mobileconnectors/kinesisvideo/audioVideo/MicrophoneSource.java:197-203 | the call returns at once, doing nothing, exactly when the first dequeue leaves a size-0 buffer info; otherwise it is the drain loop |
| MicrophoneSource.HandleCodecOutputReleases | aws-android-sdk-kinesisvideo/src/main/java/com/amazonaws/mobileconnectors/kinesisvideo/audioVideo/MicrophoneSource.java:197-248 | the release discipline of the whole call, including the size-0 first slot that is returned from without being released |
| MicrophoneSource.HandleCodecOutputNumbersFrames | aws-android-sdk-kinesisvideo/src/main/java/com/amazonaws/mobileconnectors/kinesisvideo/audioVideo/MicrophoneSource.java:193-248 | a whole call numbers its frames consecutively from mFrameIndex |
| MicrophoneSource.HandleCodecOutputStampsFrames | aws-android-sdk-kinesisvideo/src/main/java/com/amazonaws/mobileconnectors/kinesisvideo/audioVideo/MicrophoneSource.java:279-298 | with a positive, non-decreasing clock a whole call stamps its frames relative to one fragment start, in non-decreasing order |
| MicrophoneSource.HandleCodecOutputClockBound | aws-android-sdk-kinesisvideo/src/main/java/com/amazonaws/mobileconnectors/kinesisvideo/audioVideo/MicrophoneSource.java:197-247 | with a non-decreasing clock a whole call's frames are in clock order, and what it leaves unread was read no earlier than its last frame |
| MicrophoneSource.Capture | aws-android-sdk-kinesisvideo/src/main/java/com/amazonaws/mobileconnectors/kinesisvideo/audioVideo/MicrophoneSource.java:93-98 | each iteration of the capture loop queues at most one input, and each drain resumes the dequeue results exactly where the previous one stopped; what ends the thread is NegativeArraySize, ArrayIndexOutOfBounds, NullPointer or BufferOverflow from the input half, or ArrayIndexOutOfBounds, IllegalArgument or RuntimeException from the drain; a fragment start once set is kept |
| MicrophoneSource.CaptureNeverEndsStream | aws-android-sdk-kinesisvideo/src/main/java/com/amazonaws/mobileconnectors/kinesisvideo/audioVideo/MicrophoneSource.java:94-98 | because isAlive() is true on the capture thread, no input the capture loop queues carries END_OF_STREAM |
| MicrophoneSource.CaptureNumbersFrames | aws-android-sdk-kinesisvideo/src/main/java/com/amazonaws/mobileconnectors/kinesisvideo/audioVideo/MicrophoneSource.java:94-98 | across any number of loop iterations the frame indices stay consecutive |
| MicrophoneSource.CaptureKeepsClockOrder | aws-android-sdk-kinesisvideo/src/main/java/com/amazonaws/mobileconnectors/kinesisvideo/audioVideo/MicrophoneSource.java:94-98 | with a non-decreasing clock the frames of the whole session are in clock order, across iterations as well as within a drain |
| MicrophoneSource.CaptureStampsAgainstOneStart | aws-android-sdk-kinesisvideo/src/main/java/com/amazonaws/mobileconnectors/kinesisvideo/audioVideo/MicrophoneSource.java:285-294 | with positive clock readings every frame of the session is stamped against one fragment start, which the first frame sets and nothing later moves |
| MicrophoneSource.CaptureStampsFrames | aws-android-sdk-kinesisvideo/src/main/java/com/amazonaws/mobileconnectors/kinesisvideo/audioVideo/MicrophoneSource.java:279-298 | with a positive, non-decreasing clock the frame timestamps of the whole session never decrease, all measured from one fragment start, and the first frame of a fresh fragment is stamped 1 |
| MicrophoneSource.CaptureQueuesEveryFullRead | aws-android-sdk-kinesisvideo/src/main/java/com/amazonaws/mobileconnectors/kinesisvideo/audioVideo/MicrophoneSource.java:179-187 | when every read is full and every slot fits, each iteration queues exactly its slot, with the buffer size and no flags |
| MicrophoneSource.CaptureIgnoresShortReads | aws-android-sdk-kinesisvideo/src/main/java/com/amazonaws/mobileconnectors/kinesisvideo/audioVideo/MicrophoneSource.java:169-175 | iterations whose reads are all short queue nothing, drain nothing and leave the state unchanged |
| MicrophoneFramesSource.Step | aws-android-sdk-kinesisvideo/src/main/java/com/amazonaws/mobileconnectors/kinesisvideo/microphone/MicrophoneFramesSource.java:166-186 | a status code writes nothing and never ends the loop; a slot ends it exactly when the array access (ArrayIndexOutOfBoundsException), the null buffer (NullPointerException) or the window (IllegalArgumentException, on an offset or offset + size outside [0, capacity]) throws |
| MicrophoneFramesSource.HandleCodecOutput | aws-android-sdk-kinesisvideo/src/main/java/com/amazonaws/mobileconnectors/kinesisvideo/microphone/MicrophoneFramesSource.java:159-190 | what the drain leaves unread is exactly the suffix of the dequeue results after the ones it consumed; an exception consumes the slot it happens at and is one of those three |
| MicrophoneFramesSource.StepFacts | aws-android-sdk-kinesisvideo/src/main/java/com/amazonaws/mobileconnectors/kinesisvideo/microphone/MicrophoneFramesSource.java:166-186 | one loop pass writes its slot's non-config payload, releases exactly that slot unrendered, and refreshes the pool only on INFO_OUTPUT_BUFFERS_CHANGED |
| MicrophoneFramesSource.StreamIsPayloadConcatenation | aws-android-sdk-kinesisvideo/src/main/java/com/amazonaws/mobileconnectors/kinesisvideo/microphone/MicrophoneFramesSource.java:165-189 | however the drain ends, the bytes written equal the in-order concatenation of the consumed non-config payloads, each read from the buffer array in effect when it was dequeued; a slot that throws contributes nothing |
| MicrophoneFramesSource.DrainEndsAtTryAgainLater | aws-android-sdk-kinesisvideo/src/main/java/com/amazonaws/mobileconnectors/kinesisvideo/microphone/MicrophoneFramesSource.java:163-189 | the drain consumes results up to and including the first INFO_TRY_AGAIN_LATER, and throws only at an output slot |
| MicrophoneFramesSource.DrainReleasesEachSlotOnce | aws-android-sdk-kinesisvideo/src/main/java/com/amazonaws/mobileconnectors/kinesisvideo/microphone/MicrophoneFramesSource.java:181-183 | every consumed output slot is released once, in order, unrendered, except the slot an exception leaves at |
| AudioSourcesAgree.StepsAgree | aws-android-sdk-kinesisvideo/src/main/java/com/amazonaws/mobileconnectors/kinesisvideo/microphone/MicrophoneFramesSource.java:166-186 | with a non-throwing sink, one pass of MicrophoneSource's loop body and one of MicrophoneFramesSource's carry on together and release the same slot; the frame's payload equals the bytes written |
| AudioSourcesAgree.DrainLoopsAgree | aws-android-sdk-kinesisvideo/src/main/java/com/amazonaws/mobileconnectors/kinesisvideo/audioVideo/MicrophoneSource.java:208-248 | with a non-throwing sink the two drain loops stop at the same result, in matching ways; they release the same slots, and the frames' payloads concatenate to the stream's bytes |
| AudioSourcesAgree.DrainsAgree | aws-android-sdk-kinesisvideo/src/main/java/com/amazonaws/mobileconnectors/kinesisvideo/microphone/MicrophoneFramesSource.java:159-190 | the same for whole handleCodecOutput calls, once the first buffer info is not empty |
| FrameSubmitter.Stamp | aws-android-sdk-kinesisvideo/src/main/java/com/amazonaws/mobileconnectors/kinesisvideo/encoding/EncoderFrameSubmitter.java:173-179 | the first call fixes the origin at the clock reading and stamps 0; later calls keep the origin and stamp (now − origin) ms in µs |
| FrameSubmitter.Stamps | aws-android-sdk-kinesisvideo/src/main/java/com/amazonaws/mobileconnectors/kinesisvideo/encoding/EncoderFrameSubmitter.java:107-113 | successive submissions get one presentation time each, and the first submission of a submitter without an origin is stamped 0 |
| FrameSubmitter.StampsSinceOrigin | aws-android-sdk-kinesisvideo/src/main/java/com/amazonaws/mobileconnectors/kinesisvideo/encoding/EncoderFrameSubmitter.java:107-113 | once the origin is set every submission is stamped with its milliseconds since the origin, times 1000 |
| FrameSubmitter.FirstFrameFixesOrigin | aws-android-sdk-kinesisvideo/src/main/java/com/amazonaws/mobileconnectors/kinesisvideo/encoding/EncoderFrameSubmitter.java:173-179 | from a fresh submitter the first frame is stamped 0 and every later one relative to it; a non-decreasing clock gives non-decreasing presentation times |
| FrameSubmitter.SubmitFrameToEncoder | aws-android-sdk-kinesisvideo/src/main/java/com/amazonaws/mobileconnectors/kinesisvideo/encoding/EncoderFrameSubmitter.java:107-159 | the origin and the recorded stride persist even when a later step throws; the split uses the stride that this frame's flattening recorded, at 320 by 240; the queued input carries the slot, the full capacity, the stamp, and END_OF_STREAM exactly when asked; a 320 by 240 planar frame is handed to copyBuffer unchanged, while a larger one's "U" buffer comes from its luma plane |
| YuvPlanes.ConvertYuv420ToByteArray | aws-android-sdk-kinesisvideo/src/main/java/com/amazonaws/mobileconnectors/kinesisvideo/encoding/EncoderFrameSubmitter.java:294-338 | the result is the luma plane followed by the chroma; planar chroma is two bulk copies, semi-planar chroma is gathered sample by sample in row-major order; it succeeds exactly when every read lies in its buffer, and the pixel stride is recorded once the luma copy succeeds |
| YuvPlanes.GatherSemiPlanar | aws-android-sdk-kinesisvideo/src/main/java/com/amazonaws/mobileconnectors/kinesisvideo/encoding/EncoderFrameSubmitter.java:328-334 | the nested loops succeed exactly when every strided read is inside both buffers; the regions then hold the samples in row-major order, zero after them |
| YuvPlanes.GatherRow | aws-android-sdk-kinesisvideo/src/main/java/com/amazonaws/mobileconnectors/kinesisvideo/encoding/EncoderFrameSubmitter.java:330-333 | one row of the inner loop extends the gathered prefix by that row's samples, or throws exactly when one of them is out of its buffer |
| YuvPlanes.SamplesFit | aws-android-sdk-kinesisvideo/src/main/java/com/amazonaws/mobileconnectors/kinesisvideo/encoding/EncoderFrameSubmitter.java:301-318 | (w/2)·(h/2) ≤ w·h/4, so the gathered chroma grid fits in its region |
| YuvPlanes.ConvertByteArrayToPlanes | aws-android-sdk-kinesisvideo/src/main/java/com/amazonaws/mobileconnectors/kinesisvideo/encoding/EncoderFrameSubmitter.java:181-223 | the exact condition under which the split succeeds, and which exception it raises otherwise; the luma buffer is the first w·h bytes; planar chroma is the next two regions; semi-planar chroma is two windows of 2·uvSize − 2 bytes, one byte apart, each followed by a zero |
| YuvPlanes.PlanarRoundTrip | aws-android-sdk-kinesisvideo/src/main/java/com/amazonaws/mobileconnectors/kinesisvideo/encoding/EncoderFrameSubmitter.java:196-202 | splitting a flattened planar frame at its own size gives back its three planes |
| YuvPlanes.SemiPlanarSplitMixesRegions | aws-android-sdk-kinesisvideo/src/main/java/com/amazonaws/mobileconnectors/kinesisvideo/encoding/EncoderFrameSubmitter.java:203-216 | the semi-planar "U" buffer is the whole U region followed by the first uvSize − 2 bytes of V; the "V" buffer is U without its first byte followed by the first uvSize − 1 bytes of V |
| YuvPlanes.CopyBuffer | aws-android-sdk-kinesisvideo/src/main/java/com/amazonaws/mobileconnectors/kinesisvideo/encoding/EncoderFrameSubmitter.java:161-171 | it copies min(destination capacity, source remaining) bytes over the destination's start, leaves the rest untouched, and returns that count |
| YuvRotation.Rotate | aws-android-sdk-kinesisvideo/src/main/java/com/amazonaws/mobileconnectors/kinesisvideo/encoding/EncoderFrameSubmitter.java:253-292 | rotation 0 returns the input itself; a rotation other than 90, 180 or 270 throws IllegalArgumentException; any other outcome is an output of the input's length or IndexOutOfBounds |
| YuvRotation.RotateYuv420Degree90 | aws-android-sdk-kinesisvideo/src/main/java/com/amazonaws/mobileconnectors/kinesisvideo/encoding/EncoderFrameSubmitter.java:253-292 | the loop implementation computes exactly the functional rotation, including where it throws |
| YuvRotation.RotateFrame | aws-android-sdk-kinesisvideo/src/main/java/com/amazonaws/mobileconnectors/kinesisvideo/encoding/EncoderFrameSubmitter.java:269-291 | the outer loop over the rows computes exactly the row-by-row fold of the pixel stores, including where it throws |
| YuvRotation.RotateRow | aws-android-sdk-kinesisvideo/src/main/java/com/amazonaws/mobileconnectors/kinesisvideo/encoding/EncoderFrameSubmitter.java:270-289 | one pass of the inner loop extends the fold by one row, or ends the whole rotation with the exception it throws |
| YuvRotation.Store | aws-android-sdk-kinesisvideo/src/main/java/com/amazonaws/mobileconnectors/kinesisvideo/encoding/EncoderFrameSubmitter.java:286-288 | the three stores succeed exactly when all six positions are inside their arrays, and otherwise throw ArrayIndexOutOfBoundsException; they change nothing but their own three positions, the chroma V store landing last |
| YuvRotation.RotationFlags | aws-android-sdk-kinesisvideo/src/main/java/com/amazonaws/mobileconnectors/kinesisvideo/encoding/EncoderFrameSubmitter.java:259-276 | the accepted rotations are 90, 180 and 270, with their swap/xflip/yflip flags; the output dimensions are exchanged exactly under swap |
| YuvRotation.HalfTurnLuma | aws-android-sdk-kinesisvideo/src/main/java/com/amazonaws/mobileconnectors/kinesisvideo/encoding/EncoderFrameSubmitter.java:275-282 | at 180 degrees luma pixel (i, j) lands at (w − 1 − i, h − 1 − j) |
| YuvRotation.RotateSucceedsIffInBounds | aws-android-sdk-kinesisvideo/src/main/java/com/amazonaws/mobileconnectors/kinesisvideo/encoding/EncoderFrameSubmitter.java:269-290 | an accepted non-zero rotation succeeds exactly when every pixel's six array positions lie inside the frame |
| YuvRotation.RowsOkIff | aws-android-sdk-kinesisvideo/src/main/java/com/amazonaws/mobileconnectors/kinesisvideo/encoding/EncoderFrameSubmitter.java:269-290 | after any number of rows the loops have not thrown exactly when every pixel visited so far fits |
| YuvRotation.ColsOkIff | aws-android-sdk-kinesisvideo/src/main/java/com/amazonaws/mobileconnectors/kinesisvideo/encoding/EncoderFrameSubmitter.java:270-289 | the same within one row |
| YuvRotation.ColsStayThrown | aws-android-sdk-kinesisvideo/src/main/java/com/amazonaws/mobileconnectors/kinesisvideo/encoding/EncoderFrameSubmitter.java:269-290 | an exception thrown by any pixel is the outcome of the whole rotation |
| YuvRotation.LumaSourceOfOut | aws-android-sdk-kinesisvideo/src/main/java/com/amazonaws/mobileconnectors/kinesisvideo/encoding/EncoderFrameSubmitter.java:275-282 | decoding a pixel's output luma index recovers the pixel |
| YuvRotation.LumaOutOfSource | aws-android-sdk-kinesisvideo/src/main/java/com/amazonaws/mobileconnectors/kinesisvideo/encoding/EncoderFrameSubmitter.java:275-282 | every output luma position in [0, w·h) is written by some pixel of the frame; with LumaSourceOfOut, the luma map is a bijection of [0, w·h) |
| YuvRotation.LumaInjective | aws-android-sdk-kinesisvideo/src/main/java/com/amazonaws/mobileconnectors/kinesisvideo/encoding/EncoderFrameSubmitter.java:282 | distinct pixels write distinct luma positions |
| YuvRotation.ChromaAgrees | aws-android-sdk-kinesisvideo/src/main/java/com/amazonaws/mobileconnectors/kinesisvideo/encoding/EncoderFrameSubmitter.java:272-284 | on a frame of even size, pixels that write the same output chroma pair read the same input chroma pair |
| YuvRotation.WritesAgree | aws-android-sdk-kinesisvideo/src/main/java/com/amazonaws/mobileconnectors/kinesisvideo/encoding/EncoderFrameSubmitter.java:286-288 | any two pixels' stores agree wherever they write the same position, so later stores never undo earlier ones |
| YuvRotation.RowsPlace | aws-android-sdk-kinesisvideo/src/main/java/com/amazonaws/mobileconnectors/kinesisvideo/encoding/EncoderFrameSubmitter.java:269-290 | over a frame whose writes all fit and agree, after any number of rows every pixel visited so far has its bytes in place |
| YuvRotation.ColsPlace | aws-android-sdk-kinesisvideo/src/main/java/com/amazonaws/mobileconnectors/kinesisvideo/encoding/EncoderFrameSubmitter.java:270-289 | the same within one row |
| YuvRotation.RotateRegular | aws-android-sdk-kinesisvideo/src/main/java/com/amazonaws/mobileconnectors/kinesisvideo/encoding/EncoderFrameSubmitter.java:263-291 | on a frame of even, positive size holding w·h·3/2 bytes, every accepted rotation succeeds; each pixel's luma byte, and the chroma pair of its 2-by-2 block, adjacent and in order, sit at the output positions the loop body computes |
| YuvRotation.RotatedLumaPlane | aws-android-sdk-kinesisvideo/src/main/java/com/amazonaws/mobileconnectors/kinesisvideo/encoding/EncoderFrameSubmitter.java:282-286 | the output luma plane is the input luma plane rotated: output position k holds the luma byte of the unique pixel mapped to k |
| YuvRotation.BlockMapBijective | aws-android-sdk-kinesisvideo/src/main/java/com/amazonaws/mobileconnectors/kinesisvideo/encoding/EncoderFrameSubmitter.java:275-283 | at half scale the pixel map sends the 2-by-2 blocks of the input one-to-one onto those of the output, and SourceOf runs it backwards |
| YuvRotation.RotatedChromaPlane | aws-android-sdk-kinesisvideo/src/main/java/com/amazonaws/mobileconnectors/kinesisvideo/encoding/EncoderFrameSubmitter.java:272-288 | the output chroma plane is the input chroma plane with its 2-by-2 blocks rotated: every output block holds, adjacent and in order, the chroma pair of the input block mapped to it, and that block map is a bijection |
| YuvRotation.FourQuarterTurns | aws-android-sdk-kinesisvideo/src/main/java/com/amazonaws/mobileconnectors/kinesisvideo/encoding/EncoderFrameSubmitter.java:263-291 | on a frame of even, positive size holding w·h·3/2 bytes, four successive 90-degree rotations, the sides exchanged each time, give back the frame |

## Left out

- Thread start and stop (`startAudioCapture`, `stop`), and the
  `isCapturing` flag: concurrency. `MicrophoneSource.Capture` models the
  loop body over a finite run of iterations. The `finally` block's
  encoder, recorder and stream release is not modelled.
- `createAudioEncoder` and the `AudioRecord` / `MediaFormat` set-up: device
  and encoder acquisition, with no logic of its own.
- `System.out`, `Log` and the sink listener's logging: output only. The
  swallowed `onFrame` exception is kept as a flag on the `OnFrame` action.
- `System.currentTimeMillis()`: the reading is a parameter, or part of the
  scripted slot.
- Commented-out code, including the older `rotateYUV420Degree90`, the ADTS
  header and the `submitAudioSampleToKVS` path: never runs.
- `imageToMat` and the other helpers of the submitter's file, which the
  frame path does not call.
- Other files in the repository are not part of this model:
  - `TimeStampProvider`;
  - `NonTalkTimeFilter`;
  - the location unmarshaller.
- Java `int`/`long` overflow:
  - `width * height`;
  - the `NS_IN_MS` multiplication;
  - `1 + currentTime - mFragmentStart`;
  - `mFrameIndex++`.

  All are unbounded integers here. In `MediaCodec.Window` an overflowing
  `offset + size` would come out negative and throw, exactly as the
  unbounded sum past the capacity does. Real frame sizes and clock readings stay
  far from the limits.
- `ByteBuffer` position and limit bookkeeping: every buffer the code reads
  is taken to start at position 0.
  - `CopyBuffer` returns the destination's bytes, not its limit or rewind
    state.
  - Leaving the source's limit lowered after the copy is not modelled.
- `MicrophoneSource.AUDIO_TRACK_ID` is a placeholder value.
  `StreamInfoConstants` is not part of this model, and no property depends
  on the value.
- `FrameUtility.createFrameWithTrackID` is not part of this model. A frame
  is kept as the arguments passed to it.
- `YuvPlanes.ConvertYuv420ToByteArray` reads both chroma planes with the U
  plane's row and pixel strides, as the code does. The V plane's own
  strides are ignored.
- `MicrophoneSource.HandleCodecOutput` and
  `MicrophoneFramesSource.HandleCodecOutput`: a buffer array refreshed on
  `INFO_OUTPUT_BUFFERS_CHANGED` is lost when the call returns, since Java
  passes the reference by value.
  - The capture loop keeps using the array it was started with. The model
    does the same.
- `MediaCodec.InfoAfter`: `dequeueOutputBuffer` is taken to fill the
  buffer info only when it returns a slot index. For the `INFO_*` codes
  the info keeps its previous contents.
- FrameSubmitter.SubmitFrameToEncoder: the encoder image's three plane
  buffers are modelled as disjoint sequences, each copied into on its own.
  - In the source they are views into one image of the camera frame's
    format.
  - On a semi-planar image the U and V views overlap one byte apart. The
    later V copy then overwrites bytes the U copy wrote. For example, in an
    NV12 layout the last byte of the U view ends up holding the V copy's
    byte rather than the split's trailing 0.
  - The `handed` clauses, which describe what each `copyBuffer` call is
    given, do not depend on this. The `image` clauses hold as stated only
    when the destination planes do not overlap.
  - Each copy also keeps only as much as its plane's capacity allows
    (`YuvPlanes.CopyBuffer`). A frame handed over unchanged therefore
    lands unchanged only when the capacities suffice.
- FrameSubmitter.FirstFrameFixesOrigin: assumes non-negative clock
  readings.
  - The code sets the origin only while `mFirstFrameTimestamp` is negative.
    A negative first reading therefore leaves the origin unset until a
    later frame.
  - `FrameSubmitter.Stamp` models that case; this lemma does not cover it.
