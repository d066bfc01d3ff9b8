/**
  `MicrophoneSource`: the audio capture loop that forwards encoder output to
  a media sink, one frame per encoded buffer and the codec-private data
  out of band.

  The sink, the wall clock and the encoder are opaque: the encoder's answers
  come from a script of dequeue results, and each scripted slot carries the
  clock reading taken for it and whether the sink call made for it throws.
 */
module MicrophoneSource {
  import opened JavaRuntime
  import opened MediaCodec
  import AudioInput

  /** `StreamInfoConstants.AUDIO_TRACK_ID`. That class is not part of this
      model; nothing below depends on the value. */
  const AUDIO_TRACK_ID: int := 2

  /** The frame handed to the sink: the arguments of
      `FrameUtility.createFrameWithTrackID` (that class is not part of this
      model, so the frame is kept as those arguments). */
  datatype Frame = Frame(index: nat, timestampMs: int, info: BufferInfo, data: seq<Byte>, trackId: int)

  /** What the drain does, in order. `OnFrame` records the clock reading that
      stamped the frame and whether the sink threw (the listener logs and
      swallows that exception). */
  datatype Action =
    | CodecPrivateData(data: seq<Byte>, trackId: int)
    | OnFrame(frame: Frame, clockMs: int, sinkThrew: bool)
    | Release(index: nat, render: bool)

  /** The fields the drain reads and writes: `mBufferInfo`, `mFrameIndex` and
      `mFragmentStart`. */
  datatype State = State(info: BufferInfo, frameIndex: nat, fragmentStartMs: int)

  /** The fields as the constructor leaves them. */
  const INITIAL: State := State(EMPTY_INFO, 0, 0)

  /** How `handleCodecOutput` returns: after `INFO_TRY_AGAIN_LATER`, early on
      an empty first buffer, early on a null output buffer, or by an exception. */
  datatype Stop = DrainedAll | EmptyFirstBuffer | NullOutputBuffer | Threw(ex: Exception)

  datatype Drain = Drain(state: State, actions: seq<Action>, stop: Stop, rest: seq<Dequeue>)

  /** `sendEncodedFrameToProducerSDK`: the fragment start is taken from the
      first frame's clock reading while it is still 0; the frame is stamped
      `1 + now - fragmentStart` and takes the next frame index. */
  function SendEncodedFrame(st: State, data: seq<Byte>, clockMs: int): (r: (State, Frame))
    ensures r.1.index == st.frameIndex && r.0.frameIndex == st.frameIndex + 1
    ensures r.0.info == st.info && r.1.info == st.info && r.1.data == data
    ensures r.1.trackId == AUDIO_TRACK_ID
    ensures st.fragmentStartMs != 0 ==> r.0.fragmentStartMs == st.fragmentStartMs
    ensures st.fragmentStartMs == 0 ==> r.0.fragmentStartMs == clockMs && r.1.timestampMs == 1
    ensures r.1.timestampMs == 1 + clockMs - r.0.fragmentStartMs
  {
    var fragmentStart := if st.fragmentStartMs == 0 then clockMs else st.fragmentStartMs;
    (st.(fragmentStartMs := fragmentStart, frameIndex := st.frameIndex + 1),
     Frame(st.frameIndex, 1 + clockMs - fragmentStart, st.info, data, AUDIO_TRACK_ID))
  }

  /** One pass of the loop body: carry on with a new state, actions and pool,
      or return with a state, actions and the reason. */
  datatype Pass =
    | Continue(state: State, acts: seq<Action>, pool: Pool)
    | Halt(state: State, acts: seq<Action>, stop: Stop)

  /** The loop body of `handleCodecOutput` for a dequeue result other than
      `INFO_TRY_AGAIN_LATER`. A slot's buffer is looked up (out-of-range index
      throws, a null buffer returns), windowed, and either sent as a frame or,
      when flagged codec config, delivered as codec-private data; a throwing
      codec-private-data delivery is rethrown before the release. */
  function Step(pool: Pool, st: State, e: Dequeue): (p: Pass)
    requires !e.TryAgainLater?
    // a dequeued slot overwrites `mBufferInfo`; a status code leaves the state alone
    ensures e.Output? ==> p.state.info == e.info
    ensures !e.Output? ==> p.Continue? && p.state == st && p.acts == []
    // the pass ends the loop exactly on a missing slot, a null buffer, a
    // window past the capacity or a throwing codec-private-data delivery
    ensures p.Halt? <==>
              && e.Output?
              && (|| e.index >= |pool| || pool[e.index].Null?
                  || !WindowFits(pool[e.index].get, e.info)
                  || (IsCodecConfig(e.info.flags) && e.sinkThrows))
    ensures e.Output? && e.index >= |pool| ==> p.Halt? && p.acts == [] && p.stop == Threw(IndexOutOfBounds)
    ensures e.Output? && e.index < |pool| && pool[e.index].Null? ==>
              p.Halt? && p.acts == [] && p.stop == NullOutputBuffer
    ensures e.Output? && e.index < |pool| && pool[e.index].NonNull?
            && !WindowFits(pool[e.index].get, e.info) ==>
              p.Halt? && p.acts == [] && p.stop == Threw(IllegalArgument)
  {
    match e
    case OutputFormatChanged => Continue(st, [], pool)
    case OutputBuffersChanged(refreshed) => Continue(st, [], refreshed)
    case Output(i, info, clockMs, sinkThrows) =>
      var st1 := st.(info := info);
      if i >= |pool| then Halt(st1, [], Threw(IndexOutOfBounds))
      else if pool[i].Null? then Halt(st1, [], NullOutputBuffer)
      else match Window(pool[i].get, info)
        case Throws(ex) => Halt(st1, [], Threw(ex))
        case Ok(data) =>
          if !IsCodecConfig(info.flags) then
            var (st2, frame) := SendEncodedFrame(st1, data, clockMs);
            Continue(st2, [OnFrame(frame, clockMs, sinkThrows), Release(i, false)], pool)
          else if sinkThrows then
            Halt(st1, [CodecPrivateData(data, AUDIO_TRACK_ID)], Threw(Runtime))
          else
            Continue(st1, [CodecPrivateData(data, AUDIO_TRACK_ID), Release(i, false)], pool)
  }

  /** The `while (codecOutputBufferIndex != INFO_TRY_AGAIN_LATER)` loop, from
      the dequeue result at the head of `script` on. */
  function DrainLoop(pool: Pool, script: seq<Dequeue>, st: State): (r: Drain)
    decreases |script|
    ensures |r.rest| <= |script|
    // what the loop leaves unread is the rest of the script
    ensures SuffixOf(r.rest, script)
    // a loop that returns or raises early has consumed the slot it stopped on
    ensures r.stop != DrainedAll ==> |r.rest| < |script|
    ensures r.stop.Threw? ==> r.stop.ex in {IndexOutOfBounds, IllegalArgument, Runtime}
    // `mFragmentStart` is set once
    ensures st.fragmentStartMs != 0 ==> r.state.fragmentStartMs == st.fragmentStartMs
  {
    if |script| == 0 then Drain(st, [], DrainedAll, [])
    else if script[0].TryAgainLater? then Drain(st, [], DrainedAll, script[1..])
    else match Step(pool, st, script[0])
      case Halt(st', acts, stop) => Drain(st', acts, stop, script[1..])
      case Continue(st', acts, next) =>
        var t := DrainLoop(next, script[1..], st');
        Drain(t.state, acts + t.actions, t.stop, t.rest)
  }

  /** `handleCodecOutput(codecOutputBuffers, mBufferInfo, outputStream)`: the
      first dequeue is made before the loop, and when the buffer info then
      reports size 0 the call returns at once. */
  function HandleCodecOutput(pool: Pool, script: seq<Dequeue>, st: State): (r: Drain)
    ensures |r.rest| <= |script|
    ensures SuffixOf(r.rest, script)
    ensures r.stop.Threw? ==> |r.rest| < |script| && r.stop.ex in {IndexOutOfBounds, IllegalArgument, Runtime}
    ensures st.fragmentStartMs != 0 ==> r.state.fragmentStartMs == st.fragmentStartMs
  {
    var info := InfoAfter(st.info, Head(script));
    if info.size == 0 then Drain(st.(info := info), [], EmptyFirstBuffer, Tail(script))
    else DrainLoop(pool, script, st)
  }

  // ---------------------------------------------------------------------
  // Views of the action trace

  /** The `onFrame` calls, in order. */
  function FrameCalls(actions: seq<Action>): (f: seq<Action>)
    decreases |actions|
    ensures forall a | a in f :: a.OnFrame?
  {
    if |actions| == 0 then []
    else (if actions[0].OnFrame? then [actions[0]] else []) + FrameCalls(actions[1..])
  }

  /** The slots released, in order; `MicrophoneFramesSource.Released` is the
      same view over that source's own actions. */
  function Released(actions: seq<Action>): seq<nat>
    decreases |actions|
  {
    if |actions| == 0 then []
    else (if actions[0].Release? then [actions[0].index] else []) + Released(actions[1..])
  }

  lemma FrameCallsAppend(a: seq<Action>, b: seq<Action>)
    ensures FrameCalls(a + b) == FrameCalls(a) + FrameCalls(b)
  {
    if |a| > 0 {
      assert (a + b)[1..] == a[1..] + b;
      FrameCallsAppend(a[1..], b);
    } else {
      assert a + b == b;
    }
  }

  lemma ReleasedAppend(a: seq<Action>, b: seq<Action>)
    ensures Released(a + b) == Released(a) + Released(b)
  {
    if |a| > 0 {
      assert (a + b)[1..] == a[1..] + b;
      ReleasedAppend(a[1..], b);
    } else {
      assert a + b == b;
    }
  }

  /** Frame indices run `start, start + 1, ...` without gaps or repeats. */
  ghost predicate Consecutive(calls: seq<Action>, start: nat)
    requires forall a | a in calls :: a.OnFrame?
  {
    forall k | 0 <= k < |calls| :: calls[k].frame.index == start + k
  }

  /** Every frame is stamped `1 + clock - fragmentStart`. */
  ghost predicate StampedFrom(calls: seq<Action>, fragmentStartMs: int)
    requires forall a | a in calls :: a.OnFrame?
  {
    forall k | 0 <= k < |calls| :: calls[k].frame.timestampMs == 1 + calls[k].clockMs - fragmentStartMs
  }

  /** Every scripted clock reading is positive, as wall-clock milliseconds are. */
  ghost predicate ClocksPositive(script: seq<Dequeue>) {
    forall k | 0 <= k < |script| && script[k].Output? :: script[k].clockMs > 0
  }

  // ---------------------------------------------------------------------
  // One pass of the loop body

  /** What the loop body does, stated slot by slot. */
  lemma StepFacts(pool: Pool, st: State, e: Dequeue)
    requires !e.TryAgainLater?
    ensures var p := Step(pool, st, e);
            && (p.Halt? ==> e.Output? && (p.acts == [] <==> p.stop != Threw(Runtime)))
            && (p.Halt? ==> Released(p.acts) == [] && FrameCalls(p.acts) == [])
            && (p.Halt? ==> p.state.frameIndex == st.frameIndex && p.state.fragmentStartMs == st.fragmentStartMs)
            && (p.Halt? && p.stop == Threw(Runtime) ==> IsCodecConfig(e.info.flags) && e.sinkThrows)
            && (p.Continue? ==> Released(p.acts) == (if e.Output? then [e.index] else []))
            && (p.Continue? ==> p.pool == (if e.OutputBuffersChanged? then e.refreshed else pool))
            && (forall a | a in p.acts && a.Release? :: !a.render)
            && (p.Continue? ==>
                  && (st.fragmentStartMs != 0 ==> p.state.fragmentStartMs == st.fragmentStartMs)
                  && p.state.frameIndex == st.frameIndex + |FrameCalls(p.acts)|
                  && |FrameCalls(p.acts)| <= 1
                  && (|FrameCalls(p.acts)| == 1 ==>
                        && e.Output?
                        && FrameCalls(p.acts)[0].frame.index == st.frameIndex
                        && FrameCalls(p.acts)[0].clockMs == e.clockMs
                        && FrameCalls(p.acts)[0].frame.timestampMs
                           == 1 + e.clockMs - p.state.fragmentStartMs
                        && (st.fragmentStartMs == 0 ==> p.state.fragmentStartMs == e.clockMs))
                  && (|FrameCalls(p.acts)| == 0 ==> p.state.fragmentStartMs == st.fragmentStartMs))
  {
    var p := Step(pool, st, e);
    if e.Output? && e.index < |pool| && pool[e.index].NonNull? && Window(pool[e.index].get, e.info).Ok? {
      var acts := p.acts;
      assert |acts| <= 2;
      if |acts| == 2 {
        assert acts[1..][1..] == [];
        assert Released(acts[1..]) == [e.index] + Released(acts[1..][1..]);
        assert FrameCalls(acts[1..]) == [] + FrameCalls(acts[1..][1..]);
      } else if |acts| == 1 {
        assert acts[1..] == [];
      }
    }
  }

  /** A slot whose buffer exists and whose window fits is delivered whole:
      a codec-config payload to `onCodecPrivateData` with the audio track id,
      taking no frame index, any other payload as exactly one frame with the
      slot's buffer info. Only a throwing codec-private-data delivery ends
      the loop; a throwing `onFrame` is recorded and the loop carries on. */
  lemma SlotDelivery(pool: Pool, st: State, e: Dequeue)
    requires e.Output? && e.index < |pool| && pool[e.index].NonNull? && Window(pool[e.index].get, e.info).Ok?
    ensures var p := Step(pool, st, e);
            var data := Window(pool[e.index].get, e.info).value;
            && |p.acts| >= 1
            && (p.Halt? <==> IsCodecConfig(e.info.flags) && e.sinkThrows)
            && (IsCodecConfig(e.info.flags) ==>
                  && p.acts[0] == CodecPrivateData(data, AUDIO_TRACK_ID)
                  && FrameCalls(p.acts) == [] && p.state.frameIndex == st.frameIndex)
            && (!IsCodecConfig(e.info.flags) ==>
                  && |FrameCalls(p.acts)| == 1 && p.acts[0] == FrameCalls(p.acts)[0]
                  && p.acts[0].frame.data == data && p.acts[0].frame.info == e.info
                  && p.acts[0].frame.trackId == AUDIO_TRACK_ID && p.acts[0].sinkThrew == e.sinkThrows)
  {
    StepFacts(pool, st, e);
    var p := Step(pool, st, e);
    if |p.acts| == 2 {
      assert p.acts[1..][1..] == [];
      assert FrameCalls(p.acts[1..]) == [] + FrameCalls(p.acts[1..][1..]);
    } else {
      assert p.acts[1..] == [];
    }
  }

  /** A drain whose first result is handled without returning continues as
      the drain of the remaining script. */
  lemma DrainCons(pool: Pool, script: seq<Dequeue>, st: State)
    requires |script| > 0 && !script[0].TryAgainLater? && Step(pool, st, script[0]).Continue?
    ensures var p := Step(pool, st, script[0]);
            var t := DrainLoop(p.pool, script[1..], p.state);
            DrainLoop(pool, script, st) == Drain(t.state, p.acts + t.actions, t.stop, t.rest)
  {
  }

  lemma ConsumedCons(script: seq<Dequeue>, rest: seq<Dequeue>)
    requires |script| > 0 && |rest| <= |script| - 1
    ensures Consumed(script, rest) == [script[0]] + Consumed(script[1..], rest)
  {
  }

  lemma OutputIndicesCons(e: Dequeue, s: seq<Dequeue>)
    ensures OutputIndices([e] + s) == (if e.Output? then [e.index] else []) + OutputIndices(s)
  {
    assert ([e] + s)[1..] == s;
  }

  // ---------------------------------------------------------------------
  // The drain loop

  /** The loop consumes dequeue results up to and including the first
      `INFO_TRY_AGAIN_LATER`, unless a slot makes it return first; only a
      throwing codec-private-data delivery raises `RuntimeException`, since
      the listener swallows a frame's sink failure. */
  lemma {:induction false} DrainLoopEnds(pool: Pool, script: seq<Dequeue>, st: State)
    ensures var r := DrainLoop(pool, script, st);
            var c := Consumed(script, r.rest);
            && r.stop != EmptyFirstBuffer
            && (forall k | 0 <= k < |c| - 1 :: !c[k].TryAgainLater?)
            && (r.stop == DrainedAll ==>
                  (|c| > 0 && c[|c| - 1].TryAgainLater?) || (c == script && TryAgainLater !in script))
            && (r.stop != DrainedAll ==> |c| > 0 && c[|c| - 1].Output?)
            && (r.stop == Threw(Runtime) ==> IsCodecConfig(c[|c| - 1].info.flags) && c[|c| - 1].sinkThrows)
    decreases |script|
  {
    var r := DrainLoop(pool, script, st);
    if |script| > 0 {
      ConsumedCons(script, r.rest);
      var e := script[0];
      if e.TryAgainLater? {
        assert Consumed(script, r.rest) == [e];
      } else if Step(pool, st, e).Halt? {
        HaltEnds(pool, st, e);
        assert Consumed(script, r.rest) == [e];
      } else {
        var p := Step(pool, st, e);
        DrainCons(pool, script, st);
        var t := DrainLoop(p.pool, script[1..], p.state);
        DrainLoopEnds(p.pool, script[1..], p.state);
        var c := Consumed(script, r.rest);
        var c' := Consumed(script[1..], t.rest);
        assert c == [e] + c';
        EndsCons(e, c', script[1..]);
      }
    }
  }

  /** A pass that ends the loop does so on a slot, and raises
      `RuntimeException` only for a throwing codec-private-data delivery. */
  lemma HaltEnds(pool: Pool, st: State, e: Dequeue)
    requires !e.TryAgainLater? && Step(pool, st, e).Halt?
    ensures var p := Step(pool, st, e);
            && e.Output? && p.stop != DrainedAll && p.stop != EmptyFirstBuffer
            && (p.stop == Threw(Runtime) ==> IsCodecConfig(e.info.flags) && e.sinkThrows)
  {
  }

  /** One more result other than `INFO_TRY_AGAIN_LATER` in front of what the
      rest of the loop consumed. */
  lemma EndsCons(e: Dequeue, c': seq<Dequeue>, tail: seq<Dequeue>)
    requires !e.TryAgainLater? && forall k | 0 <= k < |c'| - 1 :: !c'[k].TryAgainLater?
    ensures var c := [e] + c';
            && (forall k | 0 <= k < |c| - 1 :: !c[k].TryAgainLater?)
            && (|c'| > 0 ==> |c| > 0 && c[|c| - 1] == c'[|c'| - 1])
            && (c' == tail && TryAgainLater !in tail ==> c == [e] + tail && TryAgainLater !in [e] + tail)
  {
    var c := [e] + c';
    forall k | 0 <= k < |c| - 1 ensures !c[k].TryAgainLater? {
      if k > 0 { assert c[k] == c'[k - 1]; }
    }
  }

  /** Every slot the loop handles is released exactly once, in dequeue order
      and without rendering, except the one it returned on. */
  lemma {:induction false} DrainLoopReleases(pool: Pool, script: seq<Dequeue>, st: State)
    ensures var r := DrainLoop(pool, script, st);
            var c := Consumed(script, r.rest);
            && (forall a | a in r.actions && a.Release? :: !a.render)
            && (r.stop == DrainedAll ==> Released(r.actions) == OutputIndices(c))
            && (r.stop != DrainedAll ==> |c| > 0 && Released(r.actions) == OutputIndices(c[..|c| - 1]))
    decreases |script|
  {
    var r := DrainLoop(pool, script, st);
    if |script| > 0 {
      ConsumedCons(script, r.rest);
      var e := script[0];
      if e.TryAgainLater? {
        assert Consumed(script, r.rest) == [e];
        OutputIndicesCons(e, []);
      } else if Step(pool, st, e).Halt? {
        StepFacts(pool, st, e);
        assert Consumed(script, r.rest) == [e];
        assert Consumed(script, r.rest)[..0] == [];
      } else {
        StepFacts(pool, st, e);
        var p := Step(pool, st, e);
        DrainCons(pool, script, st);
        var t := DrainLoop(p.pool, script[1..], p.state);
        DrainLoopReleases(p.pool, script[1..], p.state);
        ReleasedAppend(p.acts, t.actions);
        var c := Consumed(script, r.rest);
        var c' := Consumed(script[1..], t.rest);
        assert c == [e] + c';
        OutputIndicesCons(e, c');
        if t.stop != DrainedAll {
          assert c[..|c| - 1] == [e] + c'[..|c'| - 1];
          OutputIndicesCons(e, c'[..|c'| - 1]);
        }
      }
    }
  }

  /** The frames of one loop take consecutive indices from the current
      `mFrameIndex`, which ends advanced by the number of frames. */
  lemma {:induction false} DrainLoopNumbersFrames(pool: Pool, script: seq<Dequeue>, st: State)
    ensures var r := DrainLoop(pool, script, st);
            && Consecutive(FrameCalls(r.actions), st.frameIndex)
            && r.state.frameIndex == st.frameIndex + |FrameCalls(r.actions)|
    decreases |script|
  {
    if |script| > 0 && !script[0].TryAgainLater? {
      var e := script[0];
      StepFacts(pool, st, e);
      var p := Step(pool, st, e);
      if p.Continue? {
        DrainCons(pool, script, st);
        var t := DrainLoop(p.pool, script[1..], p.state);
        DrainLoopNumbersFrames(p.pool, script[1..], p.state);
        FrameCallsAppend(p.acts, t.actions);
        ConsecutiveAppend(FrameCalls(p.acts), FrameCalls(t.actions), st.frameIndex);
      }
    }
  }

  /** At most one numbered frame followed by frames numbered on from it. */
  lemma ConsecutiveAppend(F0: seq<Action>, T: seq<Action>, start: nat)
    requires forall a | a in F0 :: a.OnFrame?
    requires forall a | a in T :: a.OnFrame?
    requires |F0| <= 1 && (|F0| == 1 ==> F0[0].frame.index == start)
    requires Consecutive(T, start + |F0|)
    ensures forall a | a in F0 + T :: a.OnFrame?
    ensures Consecutive(F0 + T, start)
  {
    var F := F0 + T;
    forall k | 0 <= k < |F| ensures F[k].frame.index == start + k {
      if k >= |F0| {
        assert F[k] == T[k - |F0|];
      }
    }
  }

  lemma ClocksPositiveTail(script: seq<Dequeue>)
    requires |script| > 0 && ClocksPositive(script)
    ensures ClocksPositive(script[1..])
  {
    forall k | 0 <= k < |script| - 1 && script[1..][k].Output? ensures script[1..][k].clockMs > 0 {
      assert script[1..][k] == script[k + 1];
    }
  }

  /** With positive clock readings, the first frame fixes the fragment start,
      which later frames leave alone: every frame is stamped against the
      same start, and the very first frame of a fragment is stamped 1. */
  lemma {:induction false} DrainLoopStampsFrames(pool: Pool, script: seq<Dequeue>, st: State)
    requires ClocksPositive(script)
    ensures var r := DrainLoop(pool, script, st);
            var F := FrameCalls(r.actions);
            && StampedFrom(F, r.state.fragmentStartMs)
            && (st.fragmentStartMs != 0 ==> r.state.fragmentStartMs == st.fragmentStartMs)
            && (|F| > 0 ==> r.state.fragmentStartMs != 0)
            && (|F| == 0 ==> r.state.fragmentStartMs == st.fragmentStartMs)
            && (st.fragmentStartMs == 0 && |F| > 0 ==> F[0].frame.timestampMs == 1)
    decreases |script|
  {
    if |script| > 0 && !script[0].TryAgainLater? {
      var e := script[0];
      StepFacts(pool, st, e);
      var p := Step(pool, st, e);
      if p.Continue? {
        DrainCons(pool, script, st);
        ClocksPositiveTail(script);
        var t := DrainLoop(p.pool, script[1..], p.state);
        DrainLoopStampsFrames(p.pool, script[1..], p.state);
        FrameCallsAppend(p.acts, t.actions);
        if |FrameCalls(p.acts)| == 1 {
          assert e.Output? && script[0] == e;
        }
        StampedAppend(FrameCalls(p.acts), FrameCalls(t.actions), p.state.fragmentStartMs, t.state.fragmentStartMs);
      }
    }
  }

  /** Frames stamped against a start that the later frames keep. */
  lemma StampedAppend(F0: seq<Action>, T: seq<Action>, start0: int, start: int)
    requires forall a | a in F0 :: a.OnFrame?
    requires forall a | a in T :: a.OnFrame?
    requires StampedFrom(F0, start0) && StampedFrom(T, start)
    requires |F0| > 0 ==> start == start0
    ensures forall a | a in F0 + T :: a.OnFrame?
    ensures StampedFrom(F0 + T, start)
  {
    var F := F0 + T;
    forall k | 0 <= k < |F| ensures F[k].frame.timestampMs == 1 + F[k].clockMs - start {
      if k >= |F0| {
        assert F[k] == T[k - |F0|];
      }
    }
  }

  /** Clock readings that never go backwards across the script's slots. */
  ghost predicate ClocksNonDecreasing(script: seq<Dequeue>) {
    forall i, j | 0 <= i < j < |script| && script[i].Output? && script[j].Output? ::
      script[i].clockMs <= script[j].clockMs
  }

  /** The frames of a loop carry clock readings of its slots, in slot order. */
  lemma {:induction false} DrainLoopKeepsClockOrder(pool: Pool, script: seq<Dequeue>, st: State, lo: int)
    requires ClocksFrom(script, lo) && ClocksNonDecreasing(script)
    ensures var F := FrameCalls(DrainLoop(pool, script, st).actions);
            && (forall k | 0 <= k < |F| :: F[k].clockMs >= lo)
            && (forall i, j | 0 <= i < j < |F| :: F[i].clockMs <= F[j].clockMs)
    decreases |script|
  {
    if |script| > 0 && !script[0].TryAgainLater? {
      var e := script[0];
      StepFacts(pool, st, e);
      var p := Step(pool, st, e);
      if p.Continue? {
        DrainCons(pool, script, st);
        var lo' := if e.Output? then e.clockMs else lo;
        ClocksTail(script, lo);
        var t := DrainLoop(p.pool, script[1..], p.state);
        DrainLoopKeepsClockOrder(p.pool, script[1..], p.state, lo');
        FrameCallsAppend(p.acts, t.actions);
        ClockOrderAppend(FrameCalls(p.acts), FrameCalls(t.actions), lo, lo');
      }
    }
  }

  /** Every slot of the script was read at `lo` or later. */
  ghost predicate ClocksFrom(script: seq<Dequeue>, lo: int) {
    forall k | 0 <= k < |script| && script[k].Output? :: script[k].clockMs >= lo
  }

  /** The frames carry clock readings from `lo` on, in order. */
  ghost predicate InClockOrder(calls: seq<Action>, lo: int)
    requires forall a | a in calls :: a.OnFrame?
  {
    && (forall k | 0 <= k < |calls| :: calls[k].clockMs >= lo)
    && (forall i, j | 0 <= i < j < |calls| :: calls[i].clockMs <= calls[j].clockMs)
  }

  /** The tail of the script keeps the clock order and is read no earlier
      than the head's slot. */
  lemma ClocksTail(script: seq<Dequeue>, lo: int)
    requires |script| > 0 && ClocksFrom(script, lo) && ClocksNonDecreasing(script)
    ensures ClocksFrom(script[1..], if script[0].Output? then script[0].clockMs else lo)
    ensures ClocksNonDecreasing(script[1..])
    ensures script[0].Output? ==> script[0].clockMs >= lo
  {
    var tail := script[1..];
    var lo' := if script[0].Output? then script[0].clockMs else lo;
    forall k | 0 <= k < |tail| && tail[k].Output? ensures tail[k].clockMs >= lo' {
      assert tail[k] == script[k + 1];
    }
    forall i, j | 0 <= i < j < |tail| && tail[i].Output? && tail[j].Output?
      ensures tail[i].clockMs <= tail[j].clockMs
    {
      assert tail[i] == script[i + 1] && tail[j] == script[j + 1];
    }
  }

  /** At most one frame read at `lo'` or later, followed by frames in clock
      order read at `lo'` or later. */
  lemma ClockOrderAppend(F0: seq<Action>, T: seq<Action>, lo: int, lo': int)
    requires forall a | a in F0 :: a.OnFrame?
    requires forall a | a in T :: a.OnFrame?
    requires lo <= lo' && |F0| <= 1 && (|F0| == 1 ==> F0[0].clockMs == lo')
    requires forall k | 0 <= k < |T| :: T[k].clockMs >= lo'
    requires forall i, j | 0 <= i < j < |T| :: T[i].clockMs <= T[j].clockMs
    ensures var F := F0 + T;
            && (forall k | 0 <= k < |F| :: F[k].clockMs >= lo)
            && (forall i, j | 0 <= i < j < |F| :: F[i].clockMs <= F[j].clockMs)
  {
    var F := F0 + T;
    forall k | 0 <= k < |F| ensures F[k].clockMs >= lo' {
      if k >= |F0| {
        assert F[k] == T[k - |F0|];
      }
    }
    forall i, j | 0 <= i < j < |F| ensures F[i].clockMs <= F[j].clockMs {
      if i >= |F0| {
        assert F[i] == T[i - |F0|] && F[j] == T[j - |F0|];
      } else {
        assert F[j] == T[j - |F0|];
      }
    }
  }

  /** What a loop leaves unread keeps the clock order and was read no
      earlier than any frame the loop sent. */
  lemma {:induction false} DrainLoopClockBound(pool: Pool, script: seq<Dequeue>, st: State, lo: int)
    requires ClocksFrom(script, lo) && ClocksNonDecreasing(script)
    ensures var r := DrainLoop(pool, script, st);
            var F := FrameCalls(r.actions);
            && ClocksNonDecreasing(r.rest) && ClocksFrom(r.rest, lo)
            && forall k | 0 <= k < |F| :: ClocksFrom(r.rest, F[k].clockMs)
    decreases |script|
  {
    if |script| > 0 {
      var e := script[0];
      ClocksTail(script, lo);
      if !e.TryAgainLater? {
        StepFacts(pool, st, e);
        var p := Step(pool, st, e);
        if p.Continue? {
          DrainCons(pool, script, st);
          var lo' := if e.Output? then e.clockMs else lo;
          var t := DrainLoop(p.pool, script[1..], p.state);
          DrainLoopClockBound(p.pool, script[1..], p.state, lo');
          FrameCallsAppend(p.acts, t.actions);
          ClockBoundJoin(FrameCalls(p.acts), FrameCalls(t.actions), t.rest, lo');
        }
      }
    }
  }

  /** Frames read at `lo` followed by frames read no later than `rest`. */
  lemma ClockBoundJoin(F0: seq<Action>, T: seq<Action>, rest: seq<Dequeue>, lo: int)
    requires forall a | a in F0 + T :: a.OnFrame?
    requires ClocksFrom(rest, lo) && forall k | 0 <= k < |F0| :: F0[k].clockMs == lo
    requires forall k | 0 <= k < |T| :: ClocksFrom(rest, T[k].clockMs)
    ensures forall k | 0 <= k < |F0 + T| :: ClocksFrom(rest, (F0 + T)[k].clockMs)
  {
    var F := F0 + T;
    forall k | 0 <= k < |F| ensures ClocksFrom(rest, F[k].clockMs) {
      if k >= |F0| {
        assert F[k] == T[k - |F0|];
      } else {
        assert F[k] == F0[k];
      }
    }
  }

  // ---------------------------------------------------------------------
  // One handleCodecOutput call

  /** The call returns at once, doing nothing but record the buffer info,
      exactly when the first dequeue leaves the shared buffer info with size
      0. A slot handed out by that dequeue is never released. */
  lemma EmptyFirstBufferReturnsAtOnce(pool: Pool, script: seq<Dequeue>, st: State)
    ensures var r := HandleCodecOutput(pool, script, st);
            var info := InfoAfter(st.info, Head(script));
            && (r.stop == EmptyFirstBuffer <==> info.size == 0)
            && (r.stop == EmptyFirstBuffer ==>
                  r.actions == [] && r.state == st.(info := info) && r.rest == Tail(script))
            && (r.stop != EmptyFirstBuffer ==> r == DrainLoop(pool, script, st))
  {
    DrainLoopEnds(pool, script, st);
  }

  /** Every slot one call handles is released exactly once, in order and
      without rendering, except the slot it returned or raised on; a slot of
      size 0 handed out by the first dequeue is never released. */
  lemma HandleCodecOutputReleases(pool: Pool, script: seq<Dequeue>, st: State)
    ensures var r := HandleCodecOutput(pool, script, st);
            var c := Consumed(script, r.rest);
            && (forall a | a in r.actions && a.Release? :: !a.render)
            && (r.stop == DrainedAll ==> Released(r.actions) == OutputIndices(c))
            && (r.stop != DrainedAll && r.stop != EmptyFirstBuffer ==>
                  |c| > 0 && Released(r.actions) == OutputIndices(c[..|c| - 1]))
            && (r.stop == EmptyFirstBuffer ==> Released(r.actions) == [] && |c| <= 1)
            && (|script| > 0 && script[0].Output? && script[0].info.size == 0 ==>
                  r.stop == EmptyFirstBuffer && OutputIndices(c) == [script[0].index])
  {
    EmptyFirstBufferReturnsAtOnce(pool, script, st);
    DrainLoopReleases(pool, script, st);
    var r := HandleCodecOutput(pool, script, st);
    if r.stop == EmptyFirstBuffer && |script| > 0 {
      var c := Consumed(script, r.rest);
      assert c == [script[0]];
      OutputIndicesCons(script[0], []);
    }
  }

  /** The frames of one call take consecutive indices from `mFrameIndex`,
      which ends advanced by the number of frames. */
  lemma HandleCodecOutputNumbersFrames(pool: Pool, script: seq<Dequeue>, st: State)
    ensures var r := HandleCodecOutput(pool, script, st);
            && Consecutive(FrameCalls(r.actions), st.frameIndex)
            && r.state.frameIndex == st.frameIndex + |FrameCalls(r.actions)|
  {
    EmptyFirstBufferReturnsAtOnce(pool, script, st);
    DrainLoopNumbersFrames(pool, script, st);
  }

  /** With positive, non-decreasing clock readings, every frame of one call
      is stamped against one fragment start, the first frame of a fresh
      fragment is stamped 1 and the stamps never decrease. */
  lemma HandleCodecOutputStampsFrames(pool: Pool, script: seq<Dequeue>, st: State)
    requires ClocksPositive(script) && ClocksNonDecreasing(script)
    ensures var r := HandleCodecOutput(pool, script, st);
            var F := FrameCalls(r.actions);
            && StampedFrom(F, r.state.fragmentStartMs)
            && (st.fragmentStartMs != 0 ==> r.state.fragmentStartMs == st.fragmentStartMs)
            && (|F| > 0 ==> r.state.fragmentStartMs != 0)
            && (|F| == 0 ==> r.state.fragmentStartMs == st.fragmentStartMs)
            && (st.fragmentStartMs == 0 && |F| > 0 ==> F[0].frame.timestampMs == 1)
            && (forall i, j | 0 <= i < j < |F| :: F[i].frame.timestampMs <= F[j].frame.timestampMs)
  {
    EmptyFirstBufferReturnsAtOnce(pool, script, st);
    DrainLoopStampsFrames(pool, script, st);
    DrainLoopKeepsClockOrder(pool, script, st, 0);
  }

  /** The clock facts of one whole call: its frames are in clock order from
      `lo` on, and what it leaves unread keeps the order and was read no
      earlier than any of them. */
  lemma HandleCodecOutputClockBound(pool: Pool, script: seq<Dequeue>, st: State, lo: int)
    requires ClocksFrom(script, lo) && ClocksNonDecreasing(script)
    ensures var r := HandleCodecOutput(pool, script, st);
            var F := FrameCalls(r.actions);
            && ClocksNonDecreasing(r.rest) && ClocksFrom(r.rest, lo)
            && InClockOrder(F, lo)
            && (|F| > 0 ==> ClocksFrom(r.rest, F[|F| - 1].clockMs))
  {
    EmptyFirstBufferReturnsAtOnce(pool, script, st);
    var r := HandleCodecOutput(pool, script, st);
    if r.stop == EmptyFirstBuffer {
      if |script| > 0 {
        ClocksTail(script, lo);
      }
    } else {
      DrainLoopClockBound(pool, script, st, lo);
      DrainLoopKeepsClockOrder(pool, script, st, lo);
    }
  }

  /** Frames in clock order from `lo` up to `hi`, followed by frames in clock
      order from `hi` on, are in clock order from `lo` on. */
  lemma ClockOrderJoin(D: seq<Action>, T: seq<Action>, lo: int, hi: int)
    requires forall a | a in D :: a.OnFrame?
    requires forall a | a in T :: a.OnFrame?
    requires lo <= hi && InClockOrder(D, lo) && InClockOrder(T, hi)
    requires forall k | 0 <= k < |D| :: D[k].clockMs <= hi
    ensures forall a | a in D + T :: a.OnFrame?
    ensures InClockOrder(D + T, lo)
  {
    var F := D + T;
    forall k | 0 <= k < |F| ensures F[k].clockMs >= lo {
      if k >= |D| {
        assert F[k] == T[k - |D|];
      }
    }
    forall i, j | 0 <= i < j < |F| ensures F[i].clockMs <= F[j].clockMs {
      if i >= |D| {
        assert F[i] == T[i - |D|] && F[j] == T[j - |D|];
      } else if j >= |D| {
        assert F[i] == D[i] && F[j] == T[j - |D|];
      } else {
        assert F[i] == D[i] && F[j] == D[j];
      }
    }
  }

  // ---------------------------------------------------------------------
  // The capture thread

  /** `Thread.currentThread().isAlive()`, asked by the capture thread about
      itself, which is running whenever it asks. */
  const RUNNING: bool := true

  /** One pass of the capture loop as the environment answers it: the length
      `AudioRecord.read` returns and the input slot the encoder hands out. */
  datatype Iteration = Iteration(readLength: int, dequeuedInput: int)

  /** A capture session: the fields at its end, the inputs queued, the drain
      actions, the exception that ended the thread (if any) and the unread
      part of the encoder script. */
  datatype Session = Session(state: State, queued: seq<QueuedInput>, actions: seq<Action>,
                             failure: Nullable<Exception>, rest: seq<Dequeue>)

  /** The `while (isCapturing)` loop of the capture thread, one iteration per
      element of `iterations`: input first, and a drain only when the input
      half reports success. The output pool is the array fetched before the
      loop, whatever a drain saw; an exception ends the thread. */
  function Capture(bufferSize: int, inputCapacities: seq<Nullable<nat>>, outputPool: Pool,
                   iterations: seq<Iteration>, script: seq<Dequeue>, st: State): (s: Session)
    decreases |iterations|
    ensures |s.rest| <= |script|
    // each drain takes up the script where the previous one stopped
    ensures SuffixOf(s.rest, script)
    // each iteration queues at most one input buffer
    ensures |s.queued| <= |iterations|
    // what ends the thread is one of the exceptions the two halves raise
    ensures s.failure.NonNull? ==>
              s.failure.get in {NegativeArraySize, IndexOutOfBounds, NullPointer, BufferOverflow, IllegalArgument, Runtime}
    ensures st.fragmentStartMs != 0 ==> s.state.fragmentStartMs == st.fragmentStartMs
  {
    if |iterations| == 0 then Session(st, [], [], Null, script)
    else
      var it := iterations[0];
      match AudioInput.HandleCodecInput(bufferSize, it.readLength, it.dequeuedInput, inputCapacities, RUNNING)
      case Throws(ex) => Session(st, [], [], NonNull(ex), script)
      case Ok(Rejected) => Capture(bufferSize, inputCapacities, outputPool, iterations[1..], script, st)
      case Ok(Accepted(q)) =>
        var queued := if q.NonNull? then [q.get] else [];
        var d := HandleCodecOutput(outputPool, script, st);
        if d.stop.Threw? then Session(d.state, queued, d.actions, NonNull(d.stop.ex), d.rest)
        else
          var s := Capture(bufferSize, inputCapacities, outputPool, iterations[1..], d.rest, d.state);
          Session(s.state, queued + s.queued, d.actions + s.actions, s.failure, s.rest)
  }

  /** The capture thread never queues an input flagged end of stream: the
      flag it passes is always "running". */
  lemma {:induction false} CaptureNeverEndsStream(bufferSize: int, inputCapacities: seq<Nullable<nat>>, outputPool: Pool,
                                                  iterations: seq<Iteration>, script: seq<Dequeue>, st: State)
    ensures forall q | q in Capture(bufferSize, inputCapacities, outputPool, iterations, script, st).queued ::
              q.flags == NO_FLAGS && q.flags & BUFFER_FLAG_END_OF_STREAM == 0
    decreases |iterations|
  {
    if |iterations| > 0 {
      var it := iterations[0];
      var d := HandleCodecOutput(outputPool, script, st);
      CaptureNeverEndsStream(bufferSize, inputCapacities, outputPool, iterations[1..], script, st);
      CaptureNeverEndsStream(bufferSize, inputCapacities, outputPool, iterations[1..], d.rest, d.state);
    }
  }

  /** Frame indices stay consecutive across the whole session, and
      `mFrameIndex` ends advanced by the number of frames sent. */
  lemma {:induction false} CaptureNumbersFrames(bufferSize: int, inputCapacities: seq<Nullable<nat>>, outputPool: Pool,
                                                iterations: seq<Iteration>, script: seq<Dequeue>, st: State)
    ensures var s := Capture(bufferSize, inputCapacities, outputPool, iterations, script, st);
            && Consecutive(FrameCalls(s.actions), st.frameIndex)
            && s.state.frameIndex == st.frameIndex + |FrameCalls(s.actions)|
    decreases |iterations|
  {
    var s := Capture(bufferSize, inputCapacities, outputPool, iterations, script, st);
    if |iterations| > 0 {
      var it := iterations[0];
      var input := AudioInput.HandleCodecInput(bufferSize, it.readLength, it.dequeuedInput, inputCapacities, RUNNING);
      if input == Ok(AudioInput.Rejected) {
        CaptureNumbersFrames(bufferSize, inputCapacities, outputPool, iterations[1..], script, st);
      } else if input.Ok? {
        var d := HandleCodecOutput(outputPool, script, st);
        HandleCodecOutputNumbersFrames(outputPool, script, st);
        if !d.stop.Threw? {
          var t := Capture(bufferSize, inputCapacities, outputPool, iterations[1..], d.rest, d.state);
          CaptureNumbersFrames(bufferSize, inputCapacities, outputPool, iterations[1..], d.rest, d.state);
          FrameCallsAppend(d.actions, t.actions);
          var D := FrameCalls(d.actions);
          var F := FrameCalls(s.actions);
          assert F == D + FrameCalls(t.actions);
          forall k | 0 <= k < |F| ensures F[k].frame.index == st.frameIndex + k {
            if k >= |D| {
              assert F[k] == FrameCalls(t.actions)[k - |D|];
            }
          }
        }
      }
    }
  }

  /** Across the whole session the frames carry clock readings from `lo` on,
      in the order the clock gave them. */
  lemma {:induction false} CaptureKeepsClockOrder(bufferSize: int, inputCapacities: seq<Nullable<nat>>, outputPool: Pool,
                                                  iterations: seq<Iteration>, script: seq<Dequeue>, st: State, lo: int)
    requires ClocksFrom(script, lo) && ClocksNonDecreasing(script)
    ensures InClockOrder(FrameCalls(Capture(bufferSize, inputCapacities, outputPool, iterations, script, st).actions), lo)
    decreases |iterations|
  {
    var s := Capture(bufferSize, inputCapacities, outputPool, iterations, script, st);
    if |iterations| > 0 {
      var it := iterations[0];
      var input := AudioInput.HandleCodecInput(bufferSize, it.readLength, it.dequeuedInput, inputCapacities, RUNNING);
      if input == Ok(AudioInput.Rejected) {
        CaptureKeepsClockOrder(bufferSize, inputCapacities, outputPool, iterations[1..], script, st, lo);
      } else if input.Ok? {
        var d := HandleCodecOutput(outputPool, script, st);
        HandleCodecOutputClockBound(outputPool, script, st, lo);
        if !d.stop.Threw? {
          var D := FrameCalls(d.actions);
          assert InClockOrder(D, lo);
          var hi := if |D| > 0 then D[|D| - 1].clockMs else lo;
          forall k | 0 <= k < |D| ensures D[k].clockMs <= hi {
            if k < |D| - 1 {
              assert D[k].clockMs <= D[|D| - 1].clockMs;
            }
          }
          var t := Capture(bufferSize, inputCapacities, outputPool, iterations[1..], d.rest, d.state);
          CaptureKeepsClockOrder(bufferSize, inputCapacities, outputPool, iterations[1..], d.rest, d.state, hi);
          FrameCallsAppend(d.actions, t.actions);
          ClockOrderJoin(D, FrameCalls(t.actions), lo, hi);
        }
      }
    }
  }

  /** With positive clock readings, every frame of the session is stamped
      against one fragment start, which the first frame fixes and nothing
      later moves. */
  lemma {:induction false} CaptureStampsAgainstOneStart(bufferSize: int, inputCapacities: seq<Nullable<nat>>, outputPool: Pool,
                                                        iterations: seq<Iteration>, script: seq<Dequeue>, st: State)
    requires ClocksPositive(script) && ClocksNonDecreasing(script)
    ensures var s := Capture(bufferSize, inputCapacities, outputPool, iterations, script, st);
            var F := FrameCalls(s.actions);
            && StampedFrom(F, s.state.fragmentStartMs)
            && (st.fragmentStartMs != 0 ==> s.state.fragmentStartMs == st.fragmentStartMs)
            && (|F| > 0 ==> s.state.fragmentStartMs != 0)
            && (|F| == 0 ==> s.state.fragmentStartMs == st.fragmentStartMs)
            && (st.fragmentStartMs == 0 && |F| > 0 ==> F[0].frame.timestampMs == 1)
    decreases |iterations|
  {
    var s := Capture(bufferSize, inputCapacities, outputPool, iterations, script, st);
    if |iterations| > 0 {
      var it := iterations[0];
      var input := AudioInput.HandleCodecInput(bufferSize, it.readLength, it.dequeuedInput, inputCapacities, RUNNING);
      if input == Ok(AudioInput.Rejected) {
        CaptureStampsAgainstOneStart(bufferSize, inputCapacities, outputPool, iterations[1..], script, st);
      } else if input.Ok? {
        var d := HandleCodecOutput(outputPool, script, st);
        HandleCodecOutputStampsFrames(outputPool, script, st);
        if !d.stop.Threw? {
          assert ClocksFrom(script, 1);
          HandleCodecOutputClockBound(outputPool, script, st, 1);
          assert ClocksPositive(d.rest);
          var t := Capture(bufferSize, inputCapacities, outputPool, iterations[1..], d.rest, d.state);
          CaptureStampsAgainstOneStart(bufferSize, inputCapacities, outputPool, iterations[1..], d.rest, d.state);
          FrameCallsAppend(d.actions, t.actions);
          var D := FrameCalls(d.actions);
          StampedAppend(D, FrameCalls(t.actions), d.state.fragmentStartMs, t.state.fragmentStartMs);
        }
      }
    }
  }

  /** With a positive, non-decreasing clock, the frame timestamps of the
      whole session never decrease, all measured from one fragment start,
      and the first frame of a fresh fragment is stamped 1. */
  lemma CaptureStampsFrames(bufferSize: int, inputCapacities: seq<Nullable<nat>>, outputPool: Pool,
                            iterations: seq<Iteration>, script: seq<Dequeue>, st: State)
    requires ClocksPositive(script) && ClocksNonDecreasing(script)
    ensures var s := Capture(bufferSize, inputCapacities, outputPool, iterations, script, st);
            var F := FrameCalls(s.actions);
            && StampedFrom(F, s.state.fragmentStartMs)
            && (st.fragmentStartMs != 0 ==> s.state.fragmentStartMs == st.fragmentStartMs)
            && (st.fragmentStartMs == 0 && |F| > 0 ==> F[0].frame.timestampMs == 1)
            && (forall i, j | 0 <= i < j < |F| :: F[i].frame.timestampMs <= F[j].frame.timestampMs)
  {
    CaptureStampsAgainstOneStart(bufferSize, inputCapacities, outputPool, iterations, script, st);
    assert ClocksFrom(script, 1);
    CaptureKeepsClockOrder(bufferSize, inputCapacities, outputPool, iterations, script, st, 1);
    var s := Capture(bufferSize, inputCapacities, outputPool, iterations, script, st);
    var F := FrameCalls(s.actions);
    assert InClockOrder(F, 1);
  }

  /** An iteration whose input half queues `q` and whose drain does not raise
      adds `q` in front of what the remaining iterations queue. */
  lemma CaptureQueuedCons(bufferSize: nat, inputCapacities: seq<Nullable<nat>>, outputPool: Pool,
                          iterations: seq<Iteration>, script: seq<Dequeue>, st: State, q: QueuedInput)
    requires |iterations| > 0
    requires AudioInput.HandleCodecInput(bufferSize, iterations[0].readLength, iterations[0].dequeuedInput,
                                         inputCapacities, RUNNING) == Ok(AudioInput.Accepted(NonNull(q)))
    requires !HandleCodecOutput(outputPool, script, st).stop.Threw?
    ensures var d := HandleCodecOutput(outputPool, script, st);
            var s := Capture(bufferSize, inputCapacities, outputPool, iterations, script, st);
            var t := Capture(bufferSize, inputCapacities, outputPool, iterations[1..], d.rest, d.state);
            s.queued == [q] + t.queued && s.failure == t.failure
  {
  }

  /** A full read into a usable input slot is a full read that queues: when
      every read fills the buffer and every slot fits it, each iteration
      queues exactly its own slot, unless a drain raised and ended the thread. */
  lemma {:induction false} CaptureQueuesEveryFullRead(bufferSize: nat, inputCapacities: seq<Nullable<nat>>, outputPool: Pool,
                                                      iterations: seq<Iteration>, script: seq<Dequeue>, st: State)
    requires forall k | 0 <= k < |iterations| ::
               && iterations[k].readLength == bufferSize
               && 0 <= iterations[k].dequeuedInput < |inputCapacities|
               && inputCapacities[iterations[k].dequeuedInput].NonNull?
               && inputCapacities[iterations[k].dequeuedInput].get >= bufferSize
    ensures var s := Capture(bufferSize, inputCapacities, outputPool, iterations, script, st);
            s.failure.Null? ==>
              && |s.queued| == |iterations|
              && forall k | 0 <= k < |iterations| ::
                   s.queued[k] == QueuedInput(iterations[k].dequeuedInput, 0, bufferSize, 0, NO_FLAGS)
    decreases |iterations|
  {
    if |iterations| > 0 {
      var it := iterations[0];
      var d := HandleCodecOutput(outputPool, script, st);
      var q := QueuedInput(it.dequeuedInput, 0, bufferSize, 0, NO_FLAGS);
      assert AudioInput.HandleCodecInput(bufferSize, it.readLength, it.dequeuedInput, inputCapacities, RUNNING)
             == Ok(AudioInput.Accepted(NonNull(q)));
      if !d.stop.Threw? {
        var tail := iterations[1..];
        forall k | 0 <= k < |tail|
          ensures && tail[k].readLength == bufferSize
                  && 0 <= tail[k].dequeuedInput < |inputCapacities|
                  && inputCapacities[tail[k].dequeuedInput].NonNull?
                  && inputCapacities[tail[k].dequeuedInput].get >= bufferSize
        {
          assert tail[k] == iterations[k + 1];
        }
        var t := Capture(bufferSize, inputCapacities, outputPool, tail, d.rest, d.state);
        CaptureQueuesEveryFullRead(bufferSize, inputCapacities, outputPool, tail, d.rest, d.state);
        var s := Capture(bufferSize, inputCapacities, outputPool, iterations, script, st);
        CaptureQueuedCons(bufferSize, inputCapacities, outputPool, iterations, script, st, q);
        if s.failure.Null? {
          forall k | 0 <= k < |iterations|
            ensures s.queued[k] == QueuedInput(iterations[k].dequeuedInput, 0, bufferSize, 0, NO_FLAGS)
          {
            if k > 0 {
              assert s.queued[k] == t.queued[k - 1];
              assert iterations[k] == tail[k - 1];
            }
          }
        }
      }
    }
  }

  /** Short reads and error codes never reach the encoder: a session of
      nothing but them queues nothing, drains nothing and changes no field. */
  lemma {:induction false} CaptureIgnoresShortReads(bufferSize: nat, inputCapacities: seq<Nullable<nat>>, outputPool: Pool,
                                                    iterations: seq<Iteration>, script: seq<Dequeue>, st: State)
    requires forall k | 0 <= k < |iterations| :: iterations[k].readLength != bufferSize
    ensures Capture(bufferSize, inputCapacities, outputPool, iterations, script, st) == Session(st, [], [], Null, script)
    decreases |iterations|
  {
    if |iterations| > 0 {
      var tail := iterations[1..];
      forall k | 0 <= k < |tail| ensures tail[k].readLength != bufferSize {
        assert tail[k] == iterations[k + 1];
      }
      CaptureIgnoresShortReads(bufferSize, inputCapacities, outputPool, tail, script, st);
    }
  }
}
