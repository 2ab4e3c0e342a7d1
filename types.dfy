/** The enumerations and the callback record of the sentinel package (types.go), as values. */
module SentinelTypes {

  datatype Option<+T> = None | Some(value: T)

  /** Why the worker loop ended; passed once to the Finally callback. */
  datatype StopReason = ManualStop | AutomaticStop

  /** Where a trigger came from: the package's own ticker, or a send on the manual channel. */
  datatype TriggerReason = InternalTrigger | ExternalTrigger

  /**
   * A Go `interface{}` value flowing through the callbacks: nil, the time
   * delivered by a ticker tick, or any other value (known only by identity).
   */
  datatype Data = Nil | Time(instant: int) | Opaque(id: int)

  /** A non-nil Go `error`; the sentinel never inspects it, it only passes it on to Failure. */
  datatype Error = Error(id: int)

  /**
   * The four optional callbacks. Their bodies are user code outside the
   * model; what matters to the core is which of them are non-nil.
   */
  datatype Functions = Functions(hasEvery: bool, hasSuccess: bool, hasFailure: bool, hasFinally: bool)

  /** What one call of Every returns: data, a done flag and a possibly-nil error. */
  datatype EveryResult = EveryResult(data: Data, done: bool, err: Option<Error>)

  /**
   * The answers the user callbacks give while one trigger is processed:
   * Every's result, and the done flags Success and Failure would return.
   */
  datatype Reply = Reply(every: EveryResult, successDone: bool, failureDone: bool)

  /** One invocation of a user callback, with the arguments it received. */
  datatype Call =
    | EveryCall(tReason: TriggerReason, tData: Data)
    | SuccessCall(data: Data)
    | FailureCall(err: Error)
    | FinallyCall(sReason: StopReason)
}
