/**
  The two audio sources drain the encoder with the same loop and differ only
  in where the payload goes: `MicrophoneSource` hands each one to the sink as
  a frame, `MicrophoneFramesSource` appends it to a byte stream. While no
  sink call fails, the two drains consume the same dequeue results, release
  the same slots and carry the same payload bytes.
 */
module AudioSourcesAgree {
  import opened JavaRuntime
  import opened MediaCodec
  import M = MicrophoneSource
  import F = MicrophoneFramesSource

  /** The bytes of the frames handed to the sink, in order. */
  function Payloads(actions: seq<M.Action>): seq<Byte>
    decreases |actions|
  {
    if |actions| == 0 then []
    else (if actions[0].OnFrame? then actions[0].frame.data else []) + Payloads(actions[1..])
  }

  lemma PayloadsAppend(a: seq<M.Action>, b: seq<M.Action>)
    ensures Payloads(a + b) == Payloads(a) + Payloads(b)
  {
    if |a| > 0 {
      assert (a + b)[1..] == a[1..] + b;
      PayloadsAppend(a[1..], b);
    } else {
      assert a + b == b;
    }
  }

  /** The ways the two drains end that match: a null output buffer makes the
      frame source return quietly where the stream source throws
      `NullPointerException`. */
  predicate Corresponds(m: M.Stop, f: F.Stop) {
    match m
    case DrainedAll => f == F.DrainedAll
    case EmptyFirstBuffer => false
    case NullOutputBuffer => f == F.Threw(NullPointer)
    case Threw(ex) => f == F.Threw(ex)
  }

  /** No sink call made for a slot of the script throws. */
  ghost predicate NoSinkFailures(script: seq<Dequeue>) {
    forall k | 0 <= k < |script| && script[k].Output? :: !script[k].sinkThrows
  }

  /** One pass of the two loop bodies agrees when the slot's sink call does
      not throw. */
  lemma StepsAgree(pool: Pool, st: M.State, e: Dequeue)
    requires !e.TryAgainLater? && (e.Output? ==> !e.sinkThrows)
    ensures var m := M.Step(pool, st, e);
            var f := F.Step(pool, e);
            && (m.Continue? <==> f.Continue?)
            && (m.Continue? ==>
                  && m.pool == f.pool
                  && F.Stream(f.acts) == Payloads(m.acts)
                  && F.Released(f.acts) == M.Released(m.acts))
            && (m.Halt? ==> m.acts == [] && Corresponds(m.stop, F.Threw(f.ex)))
  {
    M.StepFacts(pool, st, e);
    F.StepFacts(pool, e);
    var m := M.Step(pool, st, e);
    if m.Continue? && |m.acts| > 0 {
      var acts := m.acts;
      assert |acts| == 2;
      assert acts[1..][1..] == [];
      assert Payloads(acts[1..]) == [] + Payloads(acts[1..][1..]);
      if acts[0].OnFrame? {
        assert Payloads(acts) == acts[0].frame.data + Payloads(acts[1..]);
      }
    }
  }

  lemma DrainTail(script: seq<Dequeue>)
    requires |script| > 0 && NoSinkFailures(script)
    ensures NoSinkFailures(script[1..])
    ensures script[0].Output? ==> !script[0].sinkThrows
  {
    forall k | 0 <= k < |script| - 1 && script[1..][k].Output? ensures !script[1..][k].sinkThrows {
      assert script[1..][k] == script[k + 1];
    }
  }

  /** While no sink call fails, the frame source's drain loop and the stream
      source's drain end at the same point, in matching ways, release the
      same slots and carry the same payload bytes. */
  lemma {:induction false} DrainLoopsAgree(pool: Pool, script: seq<Dequeue>, st: M.State)
    requires NoSinkFailures(script)
    ensures var m := M.DrainLoop(pool, script, st);
            var f := F.HandleCodecOutput(pool, script);
            && m.rest == f.rest
            && Corresponds(m.stop, f.stop)
            && F.Stream(f.actions) == Payloads(m.actions)
            && F.Released(f.actions) == M.Released(m.actions)
    decreases |script|
  {
    if |script| > 0 && !script[0].TryAgainLater? {
      var e := script[0];
      DrainTail(script);
      StepsAgree(pool, st, e);
      var mp := M.Step(pool, st, e);
      if mp.Continue? {
        var fp := F.Step(pool, e);
        M.DrainCons(pool, script, st);
        F.DrainCons(pool, script);
        var mt := M.DrainLoop(mp.pool, script[1..], mp.state);
        var ft := F.HandleCodecOutput(fp.pool, script[1..]);
        DrainLoopsAgree(mp.pool, script[1..], mp.state);
        PayloadsAppend(mp.acts, mt.actions);
        F.StreamAppend(fp.acts, ft.actions);
        M.ReleasedAppend(mp.acts, mt.actions);
        F.ReleasedAppend(fp.acts, ft.actions);
      }
    }
  }

  /** The same for whole `handleCodecOutput` calls, once the first dequeue has
      left a non-empty buffer info (otherwise the frame source returns at
      once and the stream source drains as usual). */
  lemma DrainsAgree(pool: Pool, script: seq<Dequeue>, st: M.State)
    requires NoSinkFailures(script)
    requires InfoAfter(st.info, Head(script)).size != 0
    ensures var m := M.HandleCodecOutput(pool, script, st);
            var f := F.HandleCodecOutput(pool, script);
            && m.rest == f.rest
            && Corresponds(m.stop, f.stop)
            && F.Stream(f.actions) == Payloads(m.actions)
            && F.Released(f.actions) == M.Released(m.actions)
  {
    DrainLoopsAgree(pool, script, st);
  }
}
