/**
 * The worker loop of sentinel.go, as a specification over a serialized
 * stream of events. Each event is what the loop's `select` offers next:
 * a stop request, a ticker tick or a manual trigger. An event whose channel
 * cannot be ready (the stop slot is empty, or there is no ticker) is passed
 * over. Tick and manual events carry the Reply the user callbacks give when
 * that event is processed.
 */
module Worker {
  import opened SentinelTypes
  import opened TriggerProtocol

  datatype Event =
    | StopReq
    | Tick(at: int, reply: Reply)
    | Manual(payload: Data, reply: Reply)

  /** The outcome of one loop iteration: keep looping, or leave with a reason. */
  datatype Step = Continue(calls: seq<Call>) | Exit(reason: StopReason, calls: seq<Call>)

  /** A trigger's decision as a loop step: a stop leaves with AutomaticStop. */
  function Fire(t: TriggerResult): (r: Step)
  {
    if t.stop then Exit(AutomaticStop, t.calls) else Continue(t.calls)
  }

  /** One iteration of the select loop, given the constant configuration and the stop slot. */
  function StepOf(fns: Functions, ticking: bool, stopPending: bool, e: Event): (r: Step)
    // Only a received stop request ends the loop with ManualStop.
    ensures (r.Exit? && r.reason == ManualStop) <==> (e.StopReq? && stopPending)
    // Without a ticker a tick is never received, so it does nothing.
    ensures e.Tick? && !ticking ==> r == Continue([])
    // A stop event consults no callback; with the stop slot empty it cannot be received, so it does nothing.
    ensures e.StopReq? ==> r.calls == []
    ensures e.StopReq? && !stopPending ==> r == Continue([])
    // A received tick runs the trigger protocol with InternalTrigger and the tick's time,
    // and leaves, with AutomaticStop, exactly when the protocol says stop.
    ensures e.Tick? && ticking ==>
              var t := Trigger(fns, InternalTrigger, Time(e.at), e.reply);
              r.calls == t.calls && (r.Exit? <==> t.stop) && (r.Exit? ==> r.reason == AutomaticStop)
    // A manual trigger runs it with ExternalTrigger and the payload, likewise.
    ensures e.Manual? ==>
              var t := Trigger(fns, ExternalTrigger, e.payload, e.reply);
              r.calls == t.calls && (r.Exit? <==> t.stop) && (r.Exit? ==> r.reason == AutomaticStop)
  {
    match e
    case StopReq => if stopPending then Exit(ManualStop, []) else Continue([])
    case Tick(at, reply) =>
      if ticking then Fire(Trigger(fns, InternalTrigger, Time(at), reply)) else Continue([])
    case Manual(payload, reply) => Fire(Trigger(fns, ExternalTrigger, payload, reply))
  }

  predicate Exits(fns: Functions, ticking: bool, stopPending: bool, e: Event)
  {
    StepOf(fns, ticking, stopPending, e).Exit?
  }

  /** The Finally invocation made on leaving, if Finally is present. */
  function FinallyCalls(fns: Functions, reason: StopReason): (r: seq<Call>)
  {
    if fns.hasFinally then [FinallyCall(reason)] else []
  }

  /**
   * consumed: how many events the loop took; reason: None while it is still
   * running, Some(r) once it has left; calls: every callback invoked, in order.
   */
  datatype RunResult = RunResult(consumed: nat, reason: Option<StopReason>, calls: seq<Call>)

  /** The loop run over `events` until it leaves or the events run out; on leaving, Finally runs if present. */
  function Run(fns: Functions, ticking: bool, stopPending: bool, events: seq<Event>): (r: RunResult)
    decreases |events|
    ensures r.consumed <= |events|
  {
    if events == [] then RunResult(0, None, [])
    else
      match StepOf(fns, ticking, stopPending, events[0])
      case Exit(reason, calls) => RunResult(1, Some(reason), calls + FinallyCalls(fns, reason))
      case Continue(calls) =>
        var rest := Run(fns, ticking, stopPending, events[1..]);
        RunResult(1 + rest.consumed, rest.reason, calls + rest.calls)
  }

  /** Running over a single event is one iteration. */
  lemma RunSingle(fns: Functions, ticking: bool, stopPending: bool, e: Event)
    ensures Run(fns, ticking, stopPending, [e]) ==
              match StepOf(fns, ticking, stopPending, e)
              case Exit(reason, calls) => RunResult(1, Some(reason), calls + FinallyCalls(fns, reason))
              case Continue(calls) => RunResult(1, None, calls)
  {
  }

  /**
   * The loop is still running exactly when no event makes it leave;
   * otherwise it leaves on the first such event, with that event's reason,
   * having taken the events up to it and no further. The reason is
   * ManualStop exactly when that event is a stop request, which needs a
   * pending request.
   */
  lemma {:induction false} RunLeavesOnFirstExit(fns: Functions, ticking: bool, stopPending: bool, events: seq<Event>)
    ensures var r := Run(fns, ticking, stopPending, events);
            && (r.reason.None? <==> forall i :: 0 <= i < |events| ==> !Exits(fns, ticking, stopPending, events[i]))
            && (r.reason.None? ==> r.consumed == |events|)
            && (r.reason.Some? ==>
                  && 0 < r.consumed
                  && StepOf(fns, ticking, stopPending, events[r.consumed - 1]).Exit?
                  && StepOf(fns, ticking, stopPending, events[r.consumed - 1]).reason == r.reason.value
                  && (forall i :: 0 <= i < r.consumed - 1 ==> !Exits(fns, ticking, stopPending, events[i]))
                  && (r.reason.value == ManualStop <==> events[r.consumed - 1].StopReq?)
                  && (r.reason.value == ManualStop ==> stopPending))
  {
    if events != [] {
      var step := StepOf(fns, ticking, stopPending, events[0]);
      if step.Continue? {
        RunLeavesOnFirstExit(fns, ticking, stopPending, events[1..]);
        assert forall i :: 1 <= i < |events| ==> events[i] == events[1..][i - 1];
      }
    }
  }

  /**
   * The loop has no state of its own between iterations, so a run that has
   * not left can be resumed on further events: running over e1 and then e2
   * is running over e1 + e2.
   */
  lemma {:induction false} RunResume(fns: Functions, ticking: bool, stopPending: bool, e1: seq<Event>, e2: seq<Event>)
    requires Run(fns, ticking, stopPending, e1).reason.None?
    ensures var r1, r2 := Run(fns, ticking, stopPending, e1), Run(fns, ticking, stopPending, e2);
            Run(fns, ticking, stopPending, e1 + e2) == RunResult(|e1| + r2.consumed, r2.reason, r1.calls + r2.calls)
  {
    if e1 != [] {
      var e := e1 + e2;
      assert e[0] == e1[0];
      assert e[1..] == e1[1..] + e2;
      var step := StepOf(fns, ticking, stopPending, e1[0]);
      assert step.Continue?;
      var calls := step.calls;
      var rest1 := Run(fns, ticking, stopPending, e1[1..]);
      assert Run(fns, ticking, stopPending, e1) == RunResult(1 + rest1.consumed, rest1.reason, calls + rest1.calls);
      RunResume(fns, ticking, stopPending, e1[1..], e2);
      var rest := Run(fns, ticking, stopPending, e[1..]);
      assert Run(fns, ticking, stopPending, e) == RunResult(1 + rest.consumed, rest.reason, calls + rest.calls);
    } else {
      assert e1 + e2 == e2;
    }
  }


  /** A run still going after events[..i] takes events[i] as its next iteration. */
  lemma RunExtend(fns: Functions, ticking: bool, stopPending: bool, events: seq<Event>, i: nat)
    requires i < |events|
    requires Run(fns, ticking, stopPending, events[..i]).reason.None?
    ensures var before := Run(fns, ticking, stopPending, events[..i]).calls;
            Run(fns, ticking, stopPending, events[..i + 1]) ==
              match StepOf(fns, ticking, stopPending, events[i])
              case Exit(reason, calls) => RunResult(i + 1, Some(reason), before + calls + FinallyCalls(fns, reason))
              case Continue(calls) => RunResult(i + 1, None, before + calls)
  {
    assert events[..i + 1] == events[..i] + [events[i]];
    RunResume(fns, ticking, stopPending, events[..i], [events[i]]);
    RunSingle(fns, ticking, stopPending, events[i]);
  }

  /** Once the loop has left, later events are never taken: they change nothing. */
  lemma {:induction false} RunIgnoresLater(fns: Functions, ticking: bool, stopPending: bool, e1: seq<Event>, e2: seq<Event>)
    requires Run(fns, ticking, stopPending, e1).reason.Some?
    ensures Run(fns, ticking, stopPending, e1 + e2) == Run(fns, ticking, stopPending, e1)
  {
    var e := e1 + e2;
    assert e[0] == e1[0];
    assert e[1..] == e1[1..] + e2;
    if StepOf(fns, ticking, stopPending, e1[0]).Continue? {
      RunIgnoresLater(fns, ticking, stopPending, e1[1..], e2);
    }
  }

  /** The Every invocations in a trace, in order. */
  function EveryCalls(calls: seq<Call>): (r: seq<Call>)
    ensures |r| <= |calls|
    ensures forall i :: 0 <= i < |r| ==> r[i].EveryCall?
  {
    if calls == [] then []
    else (if calls[0].EveryCall? then [calls[0]] else []) + EveryCalls(calls[1..])
  }

  lemma {:induction false} EveryCallsAppend(a: seq<Call>, b: seq<Call>)
    ensures EveryCalls(a + b) == EveryCalls(a) + EveryCalls(b)
  {
    if a != [] {
      assert (a + b)[0] == a[0];
      assert (a + b)[1..] == a[1..] + b;
      EveryCallsAppend(a[1..], b);
    } else {
      assert a + b == b;
    }
  }

  /** The Every invocation each event asks for when it is received: none for stop requests or ticks without a ticker. */
  function Requested(ticking: bool, events: seq<Event>): (r: seq<Call>)
  {
    if events == [] then []
    else
      var head := match events[0]
        case StopReq => []
        case Tick(at, _) => if ticking then [EveryCall(InternalTrigger, Time(at))] else []
        case Manual(payload, _) => [EveryCall(ExternalTrigger, payload)];
      head + Requested(ticking, events[1..])
  }

  /** One iteration asks Every exactly for what its event requests (Every present). */
  lemma StepEveryCalls(fns: Functions, ticking: bool, stopPending: bool, e: Event)
    requires fns.hasEvery
    ensures EveryCalls(StepOf(fns, ticking, stopPending, e).calls) == Requested(ticking, [e])
  {
  }

  /**
   * With Every present, the loop calls Every once for each tick or manual
   * event it takes, in the order taken, with the matching reason and data.
   */
  lemma {:induction false} RunCallsEveryInOrder(fns: Functions, ticking: bool, stopPending: bool, events: seq<Event>)
    requires fns.hasEvery
    ensures var r := Run(fns, ticking, stopPending, events);
            EveryCalls(r.calls) == Requested(ticking, events[..r.consumed])
  {
    if events != [] {
      var r := Run(fns, ticking, stopPending, events);
      StepEveryCalls(fns, ticking, stopPending, events[0]);
      match StepOf(fns, ticking, stopPending, events[0])
      case Exit(reason, calls) =>
        EveryCallsAppend(calls, FinallyCalls(fns, reason));
        assert EveryCalls(FinallyCalls(fns, reason)) == [] by {
          if fns.hasFinally { assert [FinallyCall(reason)][1..] == []; }
        }
        assert events[..r.consumed] == [events[0]];
      case Continue(calls) =>
        var rest := Run(fns, ticking, stopPending, events[1..]);
        assert r == RunResult(1 + rest.consumed, rest.reason, calls + rest.calls);
        RunCallsEveryInOrder(fns, ticking, stopPending, events[1..]);
        EveryCallsAppend(calls, rest.calls);
        assert events[..r.consumed] == [events[0]] + events[1..][..rest.consumed];
        RequestedAppend(ticking, [events[0]], events[1..][..rest.consumed]);
    }
  }

  lemma {:induction false} RequestedAppend(ticking: bool, a: seq<Event>, b: seq<Event>)
    ensures Requested(ticking, a + b) == Requested(ticking, a) + Requested(ticking, b)
  {
    if a != [] {
      assert (a + b)[0] == a[0];
      assert (a + b)[1..] == a[1..] + b;
      RequestedAppend(ticking, a[1..], b);
    } else {
      assert a + b == b;
    }
  }

  /** How many times a trace invokes Finally. */
  function FinallyCount(calls: seq<Call>): (n: nat)
    ensures n <= |calls|
  {
    if calls == [] then 0
    else (if calls[0].FinallyCall? then 1 else 0) + FinallyCount(calls[1..])
  }

  lemma {:induction false} FinallyCountAppend(a: seq<Call>, b: seq<Call>)
    ensures FinallyCount(a + b) == FinallyCount(a) + FinallyCount(b)
  {
    if a != [] {
      assert (a + b)[0] == a[0];
      assert (a + b)[1..] == a[1..] + b;
      FinallyCountAppend(a[1..], b);
    } else {
      assert a + b == b;
    }
  }

  lemma StepNeverFinally(fns: Functions, ticking: bool, stopPending: bool, e: Event)
    ensures FinallyCount(StepOf(fns, ticking, stopPending, e).calls) == 0
  {
  }

  /**
   * Finally runs at most once: exactly once, and as the very last call, when
   * the loop has left and Finally is present; never while the loop runs.
   */
  lemma {:induction false} RunFinallyOnce(fns: Functions, ticking: bool, stopPending: bool, events: seq<Event>)
    ensures var r := Run(fns, ticking, stopPending, events);
            && FinallyCount(r.calls) == (if r.reason.Some? && fns.hasFinally then 1 else 0)
            && (r.reason.Some? && fns.hasFinally ==> r.calls[|r.calls| - 1] == FinallyCall(r.reason.value))
  {
    if events != [] {
      StepNeverFinally(fns, ticking, stopPending, events[0]);
      match StepOf(fns, ticking, stopPending, events[0])
      case Exit(reason, calls) =>
        FinallyCountAppend(calls, FinallyCalls(fns, reason));
        if fns.hasFinally {
          assert FinallyCount([FinallyCall(reason)]) == 1 by {
            assert [FinallyCall(reason)][1..] == [];
          }
        }
      case Continue(calls) =>
        RunFinallyOnce(fns, ticking, stopPending, events[1..]);
        FinallyCountAppend(calls, Run(fns, ticking, stopPending, events[1..]).calls);
    }
  }

  predicate IsInternalEvery(c: Call)
  {
    c.EveryCall? && c.tReason == InternalTrigger
  }

  /** Without a ticker (a duration of zero or less) Every is never invoked with InternalTrigger. */
  lemma {:induction false} NoInternalTriggerWithoutTicker(fns: Functions, ticking: bool, stopPending: bool, events: seq<Event>)
    requires !ticking
    ensures forall i :: 0 <= i < |Run(fns, ticking, stopPending, events).calls| ==>
              !IsInternalEvery(Run(fns, ticking, stopPending, events).calls[i])
  {
    if events != [] {
      var step := StepOf(fns, ticking, stopPending, events[0]);
      assert forall i :: 0 <= i < |step.calls| ==> !IsInternalEvery(step.calls[i]);
      if step.Continue? {
        var rest := Run(fns, ticking, stopPending, events[1..]).calls;
        NoInternalTriggerWithoutTicker(fns, ticking, stopPending, events[1..]);
        var all := Run(fns, ticking, stopPending, events).calls;
        assert all == step.calls + rest;
        forall i | 0 <= i < |all| ensures !IsInternalEvery(all[i]) {
          if i < |step.calls| {
            assert all[i] == step.calls[i];
            assert !IsInternalEvery(step.calls[i]);
          } else {
            assert all[i] == rest[i - |step.calls|];
            assert !IsInternalEvery(rest[i - |step.calls|]);
          }
        }
      } else {
        assert forall i :: 0 <= i < |FinallyCalls(fns, step.reason)| ==> !IsInternalEvery(FinallyCalls(fns, step.reason)[i]);
      }
    }
  }

  /**
   * A manual-only sentinel fed a single payload invokes Every exactly once,
   * with that payload and the ExternalTrigger reason.
   */
  lemma ManualOnlySingleTrigger(fns: Functions, stopPending: bool, payload: Data, reply: Reply)
    requires fns.hasEvery
    ensures EveryCalls(Run(fns, false, stopPending, [Manual(payload, reply)]).calls) == [EveryCall(ExternalTrigger, payload)]
  {
    var events := [Manual(payload, reply)];
    RunCallsEveryInOrder(fns, false, stopPending, events);
    assert events[..1] == events;
    assert Requested(false, events[1..]) == [];
  }
}
