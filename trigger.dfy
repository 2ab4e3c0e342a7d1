/** The decision taken after one trigger: run Every, then Success or Failure, and say whether to stop. */
module TriggerProtocol {
  import opened SentinelTypes

  /** Whether the worker must stop, and the callbacks consulted on the way, in order. */
  datatype TriggerResult = TriggerResult(stop: bool, calls: seq<Call>)

  function Trigger(fns: Functions, tReason: TriggerReason, tData: Data, reply: Reply): (r: TriggerResult)
    // No Every: stop at once, consulting nothing.
    ensures !fns.hasEvery ==> r.stop && r.calls == []
    // Otherwise Every is consulted first, with the trigger's reason and data.
    ensures fns.hasEvery ==> 1 <= |r.calls| <= 2 && r.calls[0] == EveryCall(tReason, tData)
    // Error path: stop exactly when Failure is absent or reports done; Failure gets the error, Success is never consulted.
    ensures fns.hasEvery && reply.every.err.Some? ==>
              && r.stop == (!fns.hasFailure || reply.failureDone)
              && r.calls[1..] == (if fns.hasFailure then [FailureCall(reply.every.err.value)] else [])
    // No error: stop when Success is absent, or Success or Every reports done; Success gets Every's data.
    ensures fns.hasEvery && reply.every.err.None? ==>
              && r.stop == (!fns.hasSuccess || reply.successDone || reply.every.done)
              && r.calls[1..] == (if fns.hasSuccess then [SuccessCall(reply.every.data)] else [])
    // Continuing needs every consulted callback present and none of them done.
    ensures !r.stop ==>
              && fns.hasEvery
              && (if reply.every.err.Some? then fns.hasFailure && !reply.failureDone
                  else fns.hasSuccess && !reply.successDone && !reply.every.done)
  {
    if !fns.hasEvery then TriggerResult(true, [])
    else
      var every := EveryCall(tReason, tData);
      var res := reply.every;
      if res.err.Some? then
        if !fns.hasFailure then TriggerResult(true, [every])
        else if reply.failureDone then TriggerResult(true, [every, FailureCall(res.err.value)])
        else TriggerResult(false, [every, FailureCall(res.err.value)])
      else if !fns.hasSuccess then TriggerResult(true, [every])
      else if reply.successDone then TriggerResult(true, [every, SuccessCall(res.data)])
      else if res.done then TriggerResult(true, [every, SuccessCall(res.data)])
      else TriggerResult(false, [every, SuccessCall(res.data)])
  }

  /** On the error path Every's own done flag plays no part: flipping it changes nothing. */
  lemma ErrorPathIgnoresEveryDone(fns: Functions, tReason: TriggerReason, tData: Data, reply: Reply)
    requires reply.every.err.Some?
    ensures Trigger(fns, tReason, tData, reply.(every := reply.every.(done := !reply.every.done)))
         == Trigger(fns, tReason, tData, reply)
  {
  }
}
