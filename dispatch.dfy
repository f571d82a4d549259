/** What one dispatch does once a descriptor is matched: it may call the
 *  descriptor's `run`, its `error` callback, leave a failure unhandled, or
 *  throw at its caller. The asynchronous `run` is represented by how its
 *  promise settles, supplied by the caller as an `Outcome`. */
module Dispatch {
  import opened Common

  /** The typed error classes of the framework; `instanceof` tells them apart. */
  datatype ErrorClass = CommandError | ComponentError | ContextMenuActionError | ExecutionError

  /** How the promise returned by `run` settles. */
  datatype Outcome =
    | Fulfilled                                                // with a value that is no error instance
    | FulfilledWithError(cls: ErrorClass, message: string)     // returns an instance of an error class
    | RejectedWithError(cls: ErrorClass, message: string)      // throws an instance of an error class
    | RejectedOther                                            // throws anything else

  /** Return-based handlers inspect the fulfilled value (`promise.then`);
   *  throw-based handlers inspect the rejection (`promise.catch`). */
  datatype Contract = ReturnBased | ThrowBased

  /** One observable effect of a dispatch. `index` is the position of the
   *  matched descriptor in its registry. */
  datatype Step =
    | RunCalled(index: nat, args: seq<string>)
    | AutocompleteCalled(index: nat)
    | ErrorCalled(index: nat, message: string, args: seq<string>)
    | Unhandled                 // the failure escapes to the host's unhandled-rejection channel
    | Threw(thrown: Thrown)     // thrown synchronously at the dispatcher's caller

  /** `callErrorIfPresent`: the error callback if the descriptor has one,
   *  otherwise only a diagnostic. */
  function CallErrorIfPresent(index: nat, hasError: bool, message: string, args: seq<string>): (t: seq<Step>)
    ensures t != [] <==> hasError
    ensures |t| <= 1 && forall s :: s in t ==> s == ErrorCalled(index, message, args)
  {
    if hasError then [ErrorCalled(index, message, args)] else []
  }

  /** The failure this handler hands to `error`: an instance of its own error
   *  class, fulfilled (return-based) or rejected (throw-based). */
  predicate IsTyped(contract: Contract, cls: ErrorClass, outcome: Outcome) {
    match outcome
    case FulfilledWithError(c, _) => contract == ReturnBased && c == cls
    case RejectedWithError(c, _) => contract == ThrowBased && c == cls
    case _ => false
  }

  /** The continuation attached to the promise returned by `run`. */
  function Settle(index: nat, contract: Contract, cls: ErrorClass, hasError: bool, args: seq<string>, outcome: Outcome): (t: seq<Step>)
    // a return-based handler attaches no rejection handler, so every rejection escapes
    ensures contract == ReturnBased ==>
      (t == [Unhandled] <==> outcome.RejectedWithError? || outcome.RejectedOther?)
    // a throw-based handler ignores whatever the promise fulfils with
    ensures contract == ThrowBased && (outcome.Fulfilled? || outcome.FulfilledWithError?) ==> t == []
    // a throw-based handler rethrows every rejection that is not its own error class
    ensures contract == ThrowBased ==>
      (t == [Unhandled] <==> outcome.RejectedOther? || (outcome.RejectedWithError? && outcome.cls != cls))
    // only the handler's own typed failure reaches `error`, and only when `error` exists
    ensures (exists k, m, a :: ErrorCalled(k, m, a) in t) <==> hasError && IsTyped(contract, cls, outcome)
    ensures hasError && IsTyped(contract, cls, outcome) ==> t == [ErrorCalled(index, outcome.message, args)]
    ensures forall k, a :: RunCalled(k, a) !in t
    // nothing else happens: a success, another class's fulfilled error, or a
    // typed failure without `error` leaves no trace
    ensures t == [] || t == [Unhandled] ||
            (hasError && IsTyped(contract, cls, outcome) && t == [ErrorCalled(index, outcome.message, args)])
  {
    match outcome
    case Fulfilled => []
    case FulfilledWithError(c, m) =>
      if contract == ReturnBased && c == cls then CallErrorIfPresent(index, hasError, m, args) else []
    case RejectedWithError(c, m) =>
      if contract == ThrowBased && c == cls then CallErrorIfPresent(index, hasError, m, args) else [Unhandled]
    case RejectedOther => [Unhandled]
  }

  /** Calling `run` (when the descriptor has one) and settling its promise. */
  function Invoke(index: nat, hasRun: bool, contract: Contract, cls: ErrorClass, hasError: bool, args: seq<string>, outcome: Outcome): (t: seq<Step>)
    ensures !hasRun ==> t == []
    ensures hasRun ==> |t| > 0 && t[0] == RunCalled(index, args) && t[1..] == Settle(index, contract, cls, hasError, args, outcome)
    ensures forall k, a :: RunCalled(k, a) in t <==> hasRun && k == index && a == args
  {
    if hasRun then [RunCalled(index, args)] + Settle(index, contract, cls, hasError, args, outcome) else []
  }

  /** The same thrown error class is funnelled to `error` by a throw-based
   *  handler and escapes a return-based one; the same returned error is
   *  funnelled by a return-based handler and ignored by a throw-based one. */
  lemma ContractsDisagree(index: nat, cls: ErrorClass, message: string, args: seq<string>)
    ensures Settle(index, ThrowBased, cls, true, args, RejectedWithError(cls, message)) == [ErrorCalled(index, message, args)]
    ensures Settle(index, ReturnBased, cls, true, args, RejectedWithError(cls, message)) == [Unhandled]
    ensures Settle(index, ReturnBased, cls, true, args, FulfilledWithError(cls, message)) == [ErrorCalled(index, message, args)]
    ensures Settle(index, ThrowBased, cls, true, args, FulfilledWithError(cls, message)) == []
  {
  }
}
