/**
 * The sentinel object of sentinel.go: its lifecycle flag, the one-slot stop
 * channel, the one-slot done channel, and the worker loop that Start spawns.
 * The lock and the goroutine are abstracted away: each method runs
 * atomically, and a worker exists exactly while `active` holds.
 */
module Supervisor {
  import opened SentinelTypes
  import opened TriggerProtocol
  import opened Worker

  /** The errors Start and Stop return. */
  datatype LifecycleError = AlreadyStarted | MustBeActiveToStop | StopAlreadyRequested

  /** A Go `error` result: nil, or one of the lifecycle errors. */
  datatype Outcome = Ok | Fail(error: LifecycleError)

  class Sentinel {
    /** The callbacks, fixed at construction. */
    const functions: Functions
    /** Whether a ticker exists, i.e. the duration given to New was positive. */
    const ticking: bool

    /** The lifecycle flag. */
    var active: bool
    /** The capacity-1 stop channel holds a request. */
    var stopPending: bool
    /** The capacity-1 done channel C holds its value. */
    var donePending: bool
    /**
     * Where the worker is: Some(r) once its loop has left with reason r and
     * it has yet to run Finally and shut down; None otherwise.
     */
    ghost var leaving: Option<StopReason>

    /**
     * A stop request is only ever posted while active, and is drained before
     * active is cleared; a worker that has left its loop is still active.
     */
    ghost predicate Valid()
      reads this
    {
      && (stopPending ==> active)
      && (leaving.Some? ==> active)
    }

    /** New: an inactive sentinel with empty channels, ticking exactly when the duration is positive. */
    constructor (duration: int, functions: Functions)
      ensures Valid()
      ensures this.functions == functions && ticking == (duration > 0)
      ensures !active && !stopPending && !donePending && leaving.None?
    {
      this.functions := functions;
      ticking := duration > 0;
      active := false;
      stopPending := false;
      donePending := false;
      leaving := None;
    }

    /** Start fails on an active sentinel and changes nothing; otherwise it marks it active (the worker is then running). */
    method Start() returns (o: Outcome)
      requires Valid()
      modifies this`active
      ensures Valid() && active
      ensures o == (if old(active) then Fail(AlreadyStarted) else Ok)
    {
      if active {
        return Fail(AlreadyStarted);
      }
      active := true;
      return Ok;
    }

    /**
     * Stop fails on an inactive sentinel; on an active one it posts a stop
     * request without blocking, failing if one is already pending. Either
     * way at most one request is pending and `active` is untouched.
     */
    method Stop() returns (o: Outcome)
      requires Valid()
      modifies this`stopPending
      ensures Valid() && active == old(active)
      ensures !active ==> o == Fail(MustBeActiveToStop) && stopPending == old(stopPending)
      ensures active && !old(stopPending) ==> o == Ok && stopPending
      ensures active && old(stopPending) ==> o == Fail(StopAlreadyRequested) && stopPending
    {
      if !active {
        return Fail(MustBeActiveToStop);
      }
      if !stopPending {
        stopPending := true;
        return Ok;
      }
      return Fail(StopAlreadyRequested);
    }

    /** IsActive reports the lifecycle flag and changes nothing. */
    method IsActive() returns (b: bool)
      ensures b == active
    {
      return active;
    }

    /** shutdown: drain the stop channel, clear active, and send on the done channel unless it is already full. */
    method Shutdown()
      requires leaving.Some?
      modifies this`active, this`stopPending, this`donePending, this`leaving
      ensures Valid() && leaving.None?
      ensures !active && !stopPending && donePending
    {
      stopPending := false;
      active := false;
      if !donePending {
        donePending := true;
      }
      // The worker is gone.
      leaving := None;
    }

    /**
     * The loop of work: take events in order until a received stop request
     * (ManualStop) or a trigger that says stop (AutomaticStop). The worker is
     * then leaving but still active; Finish runs the rest. If the events run
     * out first the worker is still looping and the state is as it was.
     */
    method Work(events: seq<Event>) returns (consumed: nat, reason: Option<StopReason>, calls: seq<Call>)
      requires Valid() && active && leaving.None?
      modifies this`stopPending, this`leaving
      ensures Valid() && active
      ensures Run(functions, ticking, old(stopPending), events)
           == RunResult(consumed, reason, calls + if reason.Some? then FinallyCalls(functions, reason.value) else [])
      ensures leaving == reason
      // A received stop request has left the stop slot; otherwise the slot is as it was.
      ensures stopPending == (old(stopPending) && reason != Some(ManualStop))
    {
      ghost var pending0 := stopPending;
      var sReason := AutomaticStop;
      var left := false;
      var i := 0;
      calls := [];
      while i < |events| && !left
        invariant 0 <= i <= |events|
        invariant left ==> 0 < i
        invariant Valid() && active && leaving.None?
        invariant !left ==> stopPending == pending0 && sReason == AutomaticStop
        invariant left ==> stopPending == (pending0 && sReason != ManualStop)
        invariant !left ==> Run(functions, ticking, pending0, events[..i]) == RunResult(i, None, calls)
        invariant left ==>
                    Run(functions, ticking, pending0, events[..i]) == RunResult(i, Some(sReason), calls + FinallyCalls(functions, sReason))
        decreases |events| - i
      {
        ghost var before := calls;
        ghost var step := StepOf(functions, ticking, pending0, events[i]);
        match events[i] {
          case StopReq =>
            if stopPending {
              stopPending := false;
              sReason := ManualStop;
              left := true;
            }
          case Tick(at, reply) =>
            if ticking {
              var t := Trigger(functions, InternalTrigger, Time(at), reply);
              calls := calls + t.calls;
              left := t.stop;
            }
          case Manual(payload, reply) =>
            var t := Trigger(functions, ExternalTrigger, payload, reply);
            calls := calls + t.calls;
            left := t.stop;
        }
        assert calls == before + step.calls;
        RunExtend(functions, ticking, pending0, events, i);
        i := i + 1;
      }
      assert events[..i] + events[i..] == events;
      if !left {
        assert events[..i] == events;
        assert calls + [] == calls;
        return i, None, calls;
      }
      RunIgnoresLater(functions, ticking, pending0, events[..i], events[i..]);
      leaving := Some(sReason);
      return i, Some(sReason), calls;
    }

    /**
     * The end of work, after its loop has left with `reason`: call Finally,
     * if present, with the reason, then shut down. Until this runs the
     * sentinel is still active, so Start, Stop and IsActive may be called
     * in between, Finally itself included.
     */
    method Finish(reason: StopReason) returns (calls: seq<Call>)
      requires Valid() && leaving == Some(reason)
      modifies this`active, this`stopPending, this`donePending, this`leaving
      ensures Valid() && leaving.None?
      ensures calls == FinallyCalls(functions, reason)
      ensures !active && !stopPending && donePending
    {
      calls := [];
      if functions.hasFinally {
        calls := [FinallyCall(reason)];
      }
      Shutdown();
    }
  }

  /** A client run through one lifecycle, using only the contracts above. */
  method LifecycleExample(fns: Functions, reply: Reply)
    requires fns.hasEvery && fns.hasSuccess && !reply.successDone && !reply.every.done && reply.every.err.None?
  {
    var s := new Sentinel(0, fns);
    var o := s.Stop();
    assert o == Fail(MustBeActiveToStop);
    o := s.Start();
    assert o == Ok;
    o := s.Start();
    assert o == Fail(AlreadyStarted);
    // Without a ticker a tick is passed over; the manual trigger runs Every and Success and goes on.
    RunSingle(fns, false, false, Manual(Opaque(7), reply));
    RunSingle(fns, false, false, Tick(100, reply));
    RunResume(fns, false, false, [Manual(Opaque(7), reply)], [Tick(100, reply)]);
    assert [Manual(Opaque(7), reply)] + [Tick(100, reply)] == [Manual(Opaque(7), reply), Tick(100, reply)];
    var consumed, reason, calls := s.Work([Manual(Opaque(7), reply), Tick(100, reply)]);
    assert reason == None && calls == [EveryCall(ExternalTrigger, Opaque(7)), SuccessCall(reply.every.data)];
    o := s.Stop();
    assert o == Ok;
    o := s.Stop();
    assert o == Fail(StopAlreadyRequested);
    RunSingle(fns, false, true, StopReq);
    consumed, reason, calls := s.Work([StopReq]);
    assert reason == Some(ManualStop);
    // The loop has left but Finally and shutdown have not run: still active,
    // and a new stop request is accepted, only to be drained by shutdown.
    var b := s.IsActive();
    assert b;
    o := s.Start();
    assert o == Fail(AlreadyStarted);
    o := s.Stop();
    assert o == Ok;
    calls := s.Finish(ManualStop);
    b := s.IsActive();
    assert !b && !s.stopPending && s.donePending;
    o := s.Start();
    assert o == Ok;
  }
}
