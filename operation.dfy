/**
 * A deferred controller call (src/Internal/Operation.php): the call that
 * does the work and, optionally, the controller call that checks whether
 * it took effect. Both are plain controller calls, so an operation is a
 * value; running or verifying it sends its call to the controller.
 */
module Operation {
  import opened Wrappers
  import opened Controller
  import opened Trace

  /** An operation without a check is built with verify == None (the NULL default). */
  datatype Operation = Operation(run: Call, verify: Option<Call>)

  /** The controller calls verify() makes: the check, when there is one. */
  function CheckCalls(op: Operation): (r: seq<Call>)
    ensures |r| <= 1
    ensures r == [] <==> op.verify.None?
    ensures op.verify.Some? ==> r[0] == op.verify.value
  {
    if op.verify.Some? then [op.verify.value] else []
  }

  /**
   * What verify() reports, given the controller's answer to each check:
   * done when there is no check, otherwise the answer to the check.
   */
  function Verified(op: Operation, answer: Call -> bool): (r: bool)
    ensures op.verify.None? ==> r
    ensures op.verify.Some? ==> (r <==> answer(op.verify.value))
  {
    op.verify.None? || answer(op.verify.value)
  }

  /** run(): the deferred call reaches the controller. */
  method Run(op: Operation, ctrl: Recorder<Call>)
    modifies ctrl
    ensures ctrl.calls == old(ctrl.calls) + [op.run]
  {
    ctrl.Send(op.run);
  }

  /** verify(): TRUE without a check, otherwise the controller's answer to the check. */
  method Verify(op: Operation, ctrl: Recorder<Call>, answer: Call -> bool) returns (done: bool)
    modifies ctrl
    ensures done == Verified(op, answer)
    ensures ctrl.calls == old(ctrl.calls) + CheckCalls(op)
  {
    if op.verify.None? {
      return true;
    }
    ctrl.Send(op.verify.value);
    done := answer(op.verify.value);
  }
}
