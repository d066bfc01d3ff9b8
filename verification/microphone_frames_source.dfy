/**
  The output half of `MicrophoneFramesSource`: `handleCodecOutput` drains the
  encoder and appends every non-configuration payload to a byte stream.

  The input half is `AudioInput.HandleCodecInput`.
 */
module MicrophoneFramesSource {
  import opened JavaRuntime
  import opened MediaCodec

  /** What the drain does, in order: stream writes and slot releases. */
  datatype Action = Write(data: seq<Byte>) | Release(index: nat, render: bool)

  /** How a drain ends: at `INFO_TRY_AGAIN_LATER`, or by an exception. */
  datatype Stop = DrainedAll | Threw(ex: Exception)

  /** One `handleCodecOutput` call: its actions, how it ended and the part of
      the encoder script it left unread. */
  datatype Drain = Drain(actions: seq<Action>, stop: Stop, rest: seq<Dequeue>)

  /** The bytes the drain writes to the output stream. */
  function Stream(actions: seq<Action>): seq<Byte>
    decreases |actions|
  {
    if |actions| == 0 then []
    else (if actions[0].Write? then actions[0].data else []) + Stream(actions[1..])
  }

  /** The slots released, in order. This view and its append lemma have the
      same shape as `MicrophoneSource.Released`, but are over this source's
      own `Action` type: the two loops do different things with a slot (a
      stream write here, a sink call there), so each keeps its own trace. */
  function Released(actions: seq<Action>): seq<nat>
    decreases |actions|
  {
    if |actions| == 0 then []
    else (if actions[0].Release? then [actions[0].index] else []) + Released(actions[1..])
  }

  lemma StreamAppend(a: seq<Action>, b: seq<Action>)
    ensures Stream(a + b) == Stream(a) + Stream(b)
  {
    if |a| > 0 {
      assert (a + b)[1..] == a[1..] + b;
      StreamAppend(a[1..], b);
    } else {
      assert a + b == b;
    }
  }

  lemma ReleasedAppend(a: seq<Action>, b: seq<Action>)
    ensures Released(a + b) == Released(a) + Released(b)
  {
    if |a| > 0 {
      assert (a + b)[1..] == a[1..] + b;
      ReleasedAppend(a[1..], b);
    } else {
      assert a + b == b;
    }
  }

  lemma OutputIndicesCons(e: Dequeue, s: seq<Dequeue>)
    ensures OutputIndices([e] + s) == (if e.Output? then [e.index] else []) + OutputIndices(s)
  {
    assert ([e] + s)[1..] == s;
  }

  /** What one pass of the loop body does with a dequeue result other than
      `INFO_TRY_AGAIN_LATER`: carry on with some actions and a pool, or stop. */
  datatype Pass = Continue(acts: seq<Action>, pool: Pool) | Halt(ex: Exception)

  /** The loop body of `handleCodecOutput` for dequeue result `e`. A slot is
      looked up in the pool (the array access and the null buffer can throw),
      its window is taken, its payload written unless it is codec config, and
      it is released without rendering. `INFO_OUTPUT_BUFFERS_CHANGED`
      replaces the pool; any other negative code is ignored. */
  function Step(pool: Pool, e: Dequeue): (p: Pass)
    requires !e.TryAgainLater?
    // a status code never ends the loop and writes nothing
    ensures !e.Output? ==> p.Continue? && p.acts == []
    // a slot ends it exactly when the array access, the null buffer or the
    // window throws, and with that exception
    ensures p.Halt? <==>
              && e.Output?
              && (|| e.index >= |pool| || pool[e.index].Null?
                  || !WindowFits(pool[e.index].get, e.info))
    ensures e.Output? && e.index >= |pool| ==> p == Halt(IndexOutOfBounds)
    ensures e.Output? && e.index < |pool| && pool[e.index].Null? ==> p == Halt(NullPointer)
    ensures e.Output? && e.index < |pool| && pool[e.index].NonNull?
            && !WindowFits(pool[e.index].get, e.info) ==>
              p == Halt(IllegalArgument)
  {
    match e
    case OutputFormatChanged => Continue([], pool)
    case OutputBuffersChanged(refreshed) => Continue([], refreshed)
    case Output(i, info, _, _) =>
      if i >= |pool| then Halt(IndexOutOfBounds)
      else if pool[i].Null? then Halt(NullPointer)
      else match Window(pool[i].get, info)
        case Throws(ex) => Halt(ex)
        case Ok(data) =>
          if IsCodecConfig(info.flags) then Continue([Release(i, false)], pool)
          else Continue([Write(data), Release(i, false)], pool)
  }

  /** `handleCodecOutput(codecOutputBuffers, bufferInfo, outputStream)` on the
      output pool `pool`, with the encoder answering `script`: the loop body
      runs on each dequeue result until one is `INFO_TRY_AGAIN_LATER`. A
      refreshed pool replaces the parameter for the rest of this call only. */
  function HandleCodecOutput(pool: Pool, script: seq<Dequeue>): (r: Drain)
    decreases |script|
    ensures |r.rest| <= |script|
    // what the drain leaves unread is the rest of the script
    ensures SuffixOf(r.rest, script)
    // a drain that throws has consumed the slot it threw on, and the
    // exception is one of the three a slot can raise
    ensures r.stop.Threw? ==>
              && |r.rest| < |script|
              && r.stop.ex in {IndexOutOfBounds, NullPointer, IllegalArgument}
  {
    if |script| == 0 then Drain([], DrainedAll, [])
    else if script[0].TryAgainLater? then Drain([], DrainedAll, script[1..])
    else match Step(pool, script[0])
      case Halt(ex) => Drain([], Threw(ex), script[1..])
      case Continue(acts, next) =>
        var t := HandleCodecOutput(next, script[1..]);
        Drain(acts + t.actions, t.stop, t.rest)
  }

  /** What the drain consumes from a non-empty script is its head followed by
      what the drain of the tail consumes. */
  lemma ConsumedCons(script: seq<Dequeue>, rest: seq<Dequeue>)
    requires |script| > 0 && |rest| <= |script| - 1
    ensures Consumed(script, rest) == [script[0]] + Consumed(script[1..], rest)
  {
  }

  /** The bytes slot `e` contributes to the stream, read from `pool`. */
  function SlotBytes(pool: Pool, e: Dequeue): seq<Byte> {
    if e.Output? && !IsCodecConfig(e.info.flags) && e.index < |pool| && pool[e.index].NonNull?
       && Window(pool[e.index].get, e.info).Ok?
    then Window(pool[e.index].get, e.info).value
    else []
  }

  /** Reference: the in-order concatenation of the non-configuration payloads
      among `events`, each read from the pool in effect when it was
      dequeued. */
  function ExpectedStream(pool: Pool, events: seq<Dequeue>): seq<Byte>
    decreases |events|
  {
    if |events| == 0 then []
    else SlotBytes(pool, events[0]) + ExpectedStream(PoolNext(pool, events[0]), events[1..])
  }

  /** However a drain ends, it has written exactly the non-configuration
      payloads it dequeued, in order, each read from the output pool in
      effect at that point; a slot that throws contributes nothing. */
  lemma {:induction false} StreamIsPayloadConcatenation(pool: Pool, script: seq<Dequeue>)
    ensures var r := HandleCodecOutput(pool, script);
            Stream(r.actions) == ExpectedStream(pool, Consumed(script, r.rest))
    decreases |script|
  {
    var r := HandleCodecOutput(pool, script);
    if |script| > 0 {
      var e := script[0];
      ConsumedCons(script, r.rest);
      if e.TryAgainLater? {
        assert Consumed(script[1..], r.rest) == [];
      } else if Step(pool, e).Halt? {
        assert Consumed(script[1..], r.rest) == [];
        ExpectedCons(pool, e, []);
      } else {
        StepFacts(pool, e);
        var st := Step(pool, e);
        DrainCons(pool, script);
        var t := HandleCodecOutput(st.pool, script[1..]);
        StreamIsPayloadConcatenation(st.pool, script[1..]);
        StreamAppend(st.acts, t.actions);
        ExpectedCons(pool, e, Consumed(script[1..], t.rest));
      }
    }
  }

  lemma ExpectedCons(pool: Pool, e: Dequeue, events: seq<Dequeue>)
    ensures ExpectedStream(pool, [e] + events) == SlotBytes(pool, e) + ExpectedStream(PoolNext(pool, e), events)
  {
    assert ([e] + events)[1..] == events;
  }

  /** The pool a drain reads after dequeue result `e`. */
  function PoolNext(pool: Pool, e: Dequeue): Pool {
    if e.OutputBuffersChanged? then e.refreshed else pool
  }

  /** What the loop body does, stated slot by slot: a result that is not a
      slot only picks the pool; a slot that does not raise writes its
      non-configuration payload and is released once, without rendering. */
  lemma StepFacts(pool: Pool, e: Dequeue)
    requires !e.TryAgainLater?
    ensures Step(pool, e).Halt? ==> e.Output?
    ensures Step(pool, e).Continue? ==>
              && Step(pool, e).pool == PoolNext(pool, e)
              && Stream(Step(pool, e).acts) == SlotBytes(pool, e)
              && Released(Step(pool, e).acts) == (if e.Output? then [e.index] else [])
              && forall a | a in Step(pool, e).acts && a.Release? :: !a.render
  {
    if e.Output? && Step(pool, e).Continue? {
      var acts := Step(pool, e).acts;
      var data := Window(pool[e.index].get, e.info).value;
      if !IsCodecConfig(e.info.flags) {
        assert acts == [Write(data), Release(e.index, false)];
        assert acts[1..] == [Release(e.index, false)];
        assert acts[1..][1..] == [];
        assert Stream(acts[1..]) == [] + Stream(acts[1..][1..]);
        assert Stream(acts) == data + Stream(acts[1..]);
        assert Released(acts[1..]) == [e.index] + Released(acts[1..][1..]);
        assert Released(acts) == [] + Released(acts[1..]);
      } else {
        assert acts[1..] == [];
      }
    }
  }

  /** A drain whose first dequeue result is handled without raising continues
      as the drain of the remaining script. */
  lemma DrainCons(pool: Pool, script: seq<Dequeue>)
    requires |script| > 0 && !script[0].TryAgainLater? && Step(pool, script[0]).Continue?
    ensures var st := Step(pool, script[0]);
            var t := HandleCodecOutput(st.pool, script[1..]);
            HandleCodecOutput(pool, script) == Drain(st.acts + t.actions, t.stop, t.rest)
  {
  }

  /** The drain consumes dequeue results up to and including the first
      `INFO_TRY_AGAIN_LATER` and stops there, unless a slot raises first. */
  lemma {:induction false} DrainEndsAtTryAgainLater(pool: Pool, script: seq<Dequeue>)
    ensures var r := HandleCodecOutput(pool, script);
            var c := Consumed(script, r.rest);
            && (forall k | 0 <= k < |c| - 1 :: !c[k].TryAgainLater?)
            && (r.stop == DrainedAll ==>
                  (|c| > 0 && c[|c| - 1].TryAgainLater?) || (c == script && TryAgainLater !in script))
            && (r.stop.Threw? ==> |c| > 0 && c[|c| - 1].Output?)
    decreases |script|
  {
    var r := HandleCodecOutput(pool, script);
    if |script| > 0 {
      ConsumedCons(script, r.rest);
      if script[0].TryAgainLater? {
        assert Consumed(script, r.rest) == [script[0]];
      } else if Step(pool, script[0]).Halt? {
        StepFacts(pool, script[0]);
        assert Consumed(script, r.rest) == [script[0]];
      } else {
        var st := Step(pool, script[0]);
        var t := HandleCodecOutput(st.pool, script[1..]);
        DrainEndsAtTryAgainLater(st.pool, script[1..]);
        var c := Consumed(script, r.rest);
        var c' := Consumed(script[1..], t.rest);
        assert c == [script[0]] + c';
        forall k | 0 <= k < |c| - 1 ensures !c[k].TryAgainLater? {
          if k > 0 { assert c[k] == c'[k - 1]; }
        }
        if r.stop == DrainedAll && !(|c| > 0 && c[|c| - 1].TryAgainLater?) {
          assert c' == script[1..];
          assert script == [script[0]] + script[1..];
        }
      }
    }
  }

  /** Every slot the drain handles is released exactly once, in dequeue order
      and without rendering; a slot whose handling raised is not released. */
  lemma {:induction false} DrainReleasesEachSlotOnce(pool: Pool, script: seq<Dequeue>)
    ensures var r := HandleCodecOutput(pool, script);
            var c := Consumed(script, r.rest);
            && (forall a | a in r.actions && a.Release? :: !a.render)
            && (r.stop == DrainedAll ==> Released(r.actions) == OutputIndices(c))
            && (r.stop.Threw? ==> |c| > 0 && Released(r.actions) == OutputIndices(c[..|c| - 1]))
    decreases |script|
  {
    var r := HandleCodecOutput(pool, script);
    if |script| > 0 {
      ConsumedCons(script, r.rest);
      var e := script[0];
      if e.TryAgainLater? {
        assert Consumed(script, r.rest) == [e];
        OutputIndicesCons(e, []);
      } else if Step(pool, e).Halt? {
        assert Consumed(script, r.rest) == [e];
        assert Consumed(script, r.rest)[..0] == [];
      } else {
        StepFacts(pool, e);
        var st := Step(pool, e);
        var t := HandleCodecOutput(st.pool, script[1..]);
        DrainReleasesEachSlotOnce(st.pool, script[1..]);
        ReleasedAppend(st.acts, t.actions);
        var c := Consumed(script, r.rest);
        var c' := Consumed(script[1..], t.rest);
        assert c == [e] + c';
        OutputIndicesCons(e, c');
        if t.stop.Threw? {
          assert c[..|c| - 1] == [e] + c'[..|c'| - 1];
          OutputIndicesCons(e, c'[..|c'| - 1]);
        }
      }
    }
  }
}
