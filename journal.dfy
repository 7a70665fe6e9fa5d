/**
 * The operation journal (src/Internal/Journal.php): it stands between the
 * updater and a controller, defers member and alternate-address changes and
 * office creation into named queues, runs the queues phase by phase with a
 * begin/complete pair around each, and then verifies every queued operation,
 * keeping only those that did not verify.
 */
module Journal {
  import opened Wrappers
  import opened Memberships
  import opened Controller
  import opened Trace
  import opened Operation

  const CreationQueue: string := "create"
  const DefaultQueue: string := "default"
  const LastQueue: string := "last"

  /** The queues execute() works through, in this order. */
  const Phases: seq<string> := [CreationQueue, DefaultQueue, LastQueue]

  /** The journal's queues by name; a name never queued to is absent. */
  type QueueMap = map<string, seq<Operation>>

  /** $operationQueues[$q], where an absent queue reads as empty. */
  function Queued(m: QueueMap, q: string): seq<Operation> {
    if q in m then m[q] else []
  }

  /** queue(op, q): op goes to the back of queue q; no other queue changes. */
  function Enqueued(m: QueueMap, q: string, op: Operation): (r: QueueMap)
    ensures r.Keys == m.Keys + {q}
    ensures Queued(r, q) == Queued(m, q) + [op]
    ensures forall p :: p != q ==> Queued(r, p) == Queued(m, p)
  {
    m[q := Queued(m, q) + [op]]
  }

  // ---------------------------------------------------------------------------
  // One queue
  // ---------------------------------------------------------------------------

  /** The calls executeQueue sends: every operation's deferred call, in queue order. */
  function Runs(ops: seq<Operation>): seq<Call>
    decreases |ops|
  {
    if ops == [] then [] else Runs(ops[..|ops| - 1]) + [ops[|ops| - 1].run]
  }

  /** Running a queue sends exactly one call per operation, the k-th for the k-th. */
  lemma {:induction false} RunsAt(ops: seq<Operation>, k: nat)
    requires k < |ops|
    ensures |Runs(ops)| == |ops|
    ensures Runs(ops)[k] == ops[k].run
    decreases |ops|
  {
    var init := ops[..|ops| - 1];
    RunsLength(init);
    if k < |init| {
      RunsAt(init, k);
    }
  }

  lemma {:induction false} RunsLength(ops: seq<Operation>)
    ensures |Runs(ops)| == |ops|
    decreases |ops|
  {
    if ops != [] {
      RunsLength(ops[..|ops| - 1]);
    }
  }

  /** The calls verifyQueue sends: each operation's check, in queue order. */
  function Checks(ops: seq<Operation>): seq<Call>
    decreases |ops|
  {
    if ops == [] then [] else Checks(ops[..|ops| - 1]) + CheckCalls(ops[|ops| - 1])
  }

  /** Every queued operation that has a check is checked, whether or not its run took effect. */
  lemma {:induction false} ChecksCover(ops: seq<Operation>, k: nat)
    requires k < |ops| && ops[k].verify.Some?
    ensures ops[k].verify.value in Checks(ops)
    decreases |ops|
  {
    var init := ops[..|ops| - 1];
    if k < |init| {
      ChecksCover(init, k);
      assert ops[k] == init[k];
    } else {
      assert CheckCalls(ops[k]) == [ops[k].verify.value];
    }
  }

  /** The queue verifyQueue leaves behind: the operations that did not verify, in order. */
  function Unfinished(ops: seq<Operation>, answer: Call -> bool): seq<Operation>
    decreases |ops|
  {
    if ops == [] then []
    else
      var last := ops[|ops| - 1];
      Unfinished(ops[..|ops| - 1], answer) + (if Verified(last, answer) then [] else [last])
  }

  /** An operation stays queued exactly when it was queued and did not verify. */
  lemma {:induction false} UnfinishedIff(ops: seq<Operation>, answer: Call -> bool, op: Operation)
    ensures op in Unfinished(ops, answer) <==> op in ops && !Verified(op, answer)
    decreases |ops|
  {
    if ops != [] {
      var init := ops[..|ops| - 1];
      UnfinishedIff(init, answer, op);
      assert ops == init + [ops[|ops| - 1]];
    }
  }

  /** Filtering keeps relative order: the unfinished part of a + b is a's, then b's. */
  lemma {:induction false} UnfinishedConcat(a: seq<Operation>, b: seq<Operation>, answer: Call -> bool)
    ensures Unfinished(a + b, answer) == Unfinished(a, answer) + Unfinished(b, answer)
    decreases |b|
  {
    if b == [] {
      assert a + b == a;
    } else {
      var init := b[..|b| - 1];
      var last := b[|b| - 1];
      UnfinishedConcat(a, init, answer);
      assert (a + b)[..|a + b| - 1] == a + init;
      assert (a + b)[|a + b| - 1] == last;
    }
  }

  /** Verifying again with the same answers keeps the queue as it is. */
  lemma {:induction false} UnfinishedIdempotent(ops: seq<Operation>, answer: Call -> bool)
    ensures Unfinished(Unfinished(ops, answer), answer) == Unfinished(ops, answer)
    decreases |ops|
  {
    if ops != [] {
      var init := ops[..|ops| - 1];
      var last := ops[|ops| - 1];
      var tail := if Verified(last, answer) then [] else [last];
      UnfinishedIdempotent(init, answer);
      UnfinishedConcat(Unfinished(init, answer), tail, answer);
      if tail != [] {
        assert Unfinished(tail, answer) == Unfinished([], answer) + tail by {
          assert tail[..0] == [];
        }
      }
    }
  }

  // ---------------------------------------------------------------------------
  // execute(): every phase, then every verification
  // ---------------------------------------------------------------------------

  /** One phase of execute(): begin, the queue's runs, complete. */
  function RunPhase(m: QueueMap, q: string): seq<Call> {
    [Begin] + Runs(Queued(m, q)) + [Complete]
  }

  /** The first loop of execute(), over the given queue names. */
  function RunPhases(m: QueueMap, qs: seq<string>): seq<Call>
    decreases |qs|
  {
    if qs == [] then [] else RunPhases(m, qs[..|qs| - 1]) + RunPhase(m, qs[|qs| - 1])
  }

  /** The queues after the second loop of execute() has verified the given names in turn. */
  function VerifiedQueues(m: QueueMap, qs: seq<string>, answer: Call -> bool): QueueMap
    decreases |qs|
  {
    if qs == [] then m
    else
      var v := VerifiedQueues(m, qs[..|qs| - 1], answer);
      v[qs[|qs| - 1] := Unfinished(Queued(v, qs[|qs| - 1]), answer)]
  }

  /** The checks the second loop of execute() sends, queue by queue. */
  function CheckPhases(m: QueueMap, qs: seq<string>, answer: Call -> bool): seq<Call>
    decreases |qs|
  {
    if qs == [] then []
    else
      var v := VerifiedQueues(m, qs[..|qs| - 1], answer);
      CheckPhases(m, qs[..|qs| - 1], answer) + Checks(Queued(v, qs[|qs| - 1]))
  }

  /** execute()'s first loop as three explicit phases: create, default, last, each bracketed by begin/complete. */
  lemma ExecuteRunsInOrder(m: QueueMap)
    ensures RunPhases(m, Phases) == RunPhase(m, CreationQueue) + RunPhase(m, DefaultQueue) + RunPhase(m, LastQueue)
  {
    var r1, r2, r3 := RunPhase(m, CreationQueue), RunPhase(m, DefaultQueue), RunPhase(m, LastQueue);
    assert RunPhases(m, Phases[..1]) == r1 by {
      assert Phases[..1][..0] == [];
      assert [] + r1 == r1;
    }
    assert RunPhases(m, Phases[..2]) == r1 + r2 by {
      assert Phases[..2][..1] == Phases[..1];
    }
    assert Phases[..2] == Phases[..|Phases| - 1];
  }

  /** The queues as the second loop of execute() leaves them after its first j passes. */
  lemma VerifiedQueuesPrefix(m: QueueMap, answer: Call -> bool)
    ensures VerifiedQueues(m, Phases[..1], answer) == m[CreationQueue := Unfinished(Queued(m, CreationQueue), answer)]
    ensures var v1 := VerifiedQueues(m, Phases[..1], answer);
      VerifiedQueues(m, Phases[..2], answer) == v1[DefaultQueue := Unfinished(Queued(v1, DefaultQueue), answer)]
    ensures var v2 := VerifiedQueues(m, Phases[..2], answer);
      VerifiedQueues(m, Phases, answer) == v2[LastQueue := Unfinished(Queued(v2, LastQueue), answer)]
  {
    assert Phases[..1][..0] == [];
    assert Phases[..2][..1] == Phases[..1];
    assert Phases[..2] == Phases[..|Phases| - 1];
  }

  /** Verifying a queue touches that queue only. */
  lemma {:induction false} VerifiedQueuesOthers(m: QueueMap, qs: seq<string>, answer: Call -> bool, p: string)
    requires p !in qs
    ensures Queued(VerifiedQueues(m, qs, answer), p) == Queued(m, p)
    decreases |qs|
  {
    if qs != [] {
      assert p !in qs[..|qs| - 1] && p != qs[|qs| - 1] by {
        assert qs == qs[..|qs| - 1] + [qs[|qs| - 1]];
      }
      VerifiedQueuesOthers(m, qs[..|qs| - 1], answer, p);
    }
  }

  /**
   * After execute(), each of the three queues holds exactly its operations
   * that did not verify, and every other queue is as it was.
   */
  lemma ExecuteVerifiesEachQueue(m: QueueMap, answer: Call -> bool)
    ensures Queued(VerifiedQueues(m, Phases, answer), CreationQueue) == Unfinished(Queued(m, CreationQueue), answer)
    ensures Queued(VerifiedQueues(m, Phases, answer), DefaultQueue) == Unfinished(Queued(m, DefaultQueue), answer)
    ensures Queued(VerifiedQueues(m, Phases, answer), LastQueue) == Unfinished(Queued(m, LastQueue), answer)
    ensures forall p :: p !in Phases ==> Queued(VerifiedQueues(m, Phases, answer), p) == Queued(m, p)
  {
    assert CreationQueue != DefaultQueue && DefaultQueue != LastQueue && CreationQueue != LastQueue by {
      // The three queue names differ in their first letter.
      assert CreationQueue[0] != DefaultQueue[0] && DefaultQueue[0] != LastQueue[0] && CreationQueue[0] != LastQueue[0];
    }
    VerifiedQueuesPrefix(m, answer);
    forall p | p !in Phases
      ensures Queued(VerifiedQueues(m, Phases, answer), p) == Queued(m, p)
    {
      VerifiedQueuesOthers(m, Phases, answer, p);
    }
  }

  /** The checks of execute() go out queue by queue, in the same order as the runs. */
  lemma ExecuteChecksInOrder(m: QueueMap, answer: Call -> bool)
    ensures CheckPhases(m, Phases, answer)
      == Checks(Queued(m, CreationQueue)) + Checks(Queued(m, DefaultQueue)) + Checks(Queued(m, LastQueue))
  {
    assert CreationQueue != DefaultQueue && DefaultQueue != LastQueue && CreationQueue != LastQueue by {
      // The three queue names differ in their first letter.
      assert CreationQueue[0] != DefaultQueue[0] && DefaultQueue[0] != LastQueue[0] && CreationQueue[0] != LastQueue[0];
    }
    VerifiedQueuesPrefix(m, answer);
    CheckPhasesUnfolded(m, answer);
    var v1, v2 := VerifiedQueues(m, Phases[..1], answer), VerifiedQueues(m, Phases[..2], answer);
    assert Queued(v1, DefaultQueue) == Queued(m, DefaultQueue);
    assert Queued(v2, LastQueue) == Queued(m, LastQueue) by {
      assert Queued(v1, LastQueue) == Queued(m, LastQueue);
    }
  }

  /** The checks of execute(), phase by phase, each phase seeing the queues its predecessors left. */
  lemma CheckPhasesUnfolded(m: QueueMap, answer: Call -> bool)
    ensures var v1, v2 := VerifiedQueues(m, Phases[..1], answer), VerifiedQueues(m, Phases[..2], answer);
      CheckPhases(m, Phases, answer)
      == Checks(Queued(m, CreationQueue)) + Checks(Queued(v1, DefaultQueue)) + Checks(Queued(v2, LastQueue))
  {
    var c1 := Checks(Queued(m, CreationQueue));
    assert CheckPhases(m, Phases[..1], answer) == c1 by {
      assert Phases[..1][..0] == [];
      assert [] + c1 == c1;
    }
    assert Phases[..2][..1] == Phases[..1];
    assert Phases[..2] == Phases[..|Phases| - 1];
  }

  // ---------------------------------------------------------------------------
  // What the journal queues
  // ---------------------------------------------------------------------------

  /** The verify calls of the controller. */
  predicate IsCheck(c: Call) {
    c.VerifyMember? || c.VerifyGroupAlternateAddress? || c.VerifyOffice?
  }

  /**
   * An operation as the journal builds one: an insert carries the matching
   * verify call with the same arguments, a removal carries none.
   */
  predicate Matched(op: Operation) {
    match op.run
    case InsertMember(b, o, a) => op.verify == Some(VerifyMember(b, o, a))
    case InsertGroupAlternateAddress(b, o, a) => op.verify == Some(VerifyGroupAlternateAddress(b, o, a))
    case InsertOffice(b, o, p) => op.verify == Some(VerifyOffice(b, o, p))
    case RemoveMember(_, _, _) => op.verify.None?
    case RemoveGroupAlternateAddress(_, _, _) => op.verify.None?
    case _ => false
  }

  /** Every queued operation was built by the journal. */
  predicate AllMatched(m: QueueMap) {
    forall q :: q in m ==> forall op :: op in m[q] ==> Matched(op)
  }

  /** Queuing a journal-built operation keeps every queue journal-built. */
  lemma EnqueuedMatched(m: QueueMap, q: string, op: Operation)
    requires AllMatched(m) && Matched(op)
    ensures AllMatched(Enqueued(m, q, op))
  {
    var r := Enqueued(m, q, op);
    forall p, x | p in r && x in r[p] ensures Matched(x) {
      if p == q {
        assert x in Queued(m, q) || x == op;
      }
    }
  }

  /** Verification only removes operations, so it keeps every queue journal-built. */
  lemma {:induction false} VerifiedMatched(m: QueueMap, qs: seq<string>, answer: Call -> bool)
    requires AllMatched(m)
    ensures AllMatched(VerifiedQueues(m, qs, answer))
    decreases |qs|
  {
    if qs != [] {
      var v := VerifiedQueues(m, qs[..|qs| - 1], answer);
      var q := qs[|qs| - 1];
      VerifiedMatched(m, qs[..|qs| - 1], answer);
      forall op | op in Unfinished(Queued(v, q), answer) ensures Matched(op) {
        UnfinishedIff(Queued(v, q), answer, op);
      }
    }
  }

  /** A journal-built queue runs no verify call. */
  lemma {:induction false} RunsNoCheck(ops: seq<Operation>)
    requires forall op :: op in ops ==> Matched(op)
    ensures forall c :: c in Runs(ops) ==> !IsCheck(c)
    decreases |ops|
  {
    if ops != [] {
      RunsNoCheck(ops[..|ops| - 1]);
      assert ops[|ops| - 1] in ops;
    }
  }

  /** A journal-built queue's checks are all verify calls. */
  lemma {:induction false} ChecksAllChecks(ops: seq<Operation>)
    requires forall op :: op in ops ==> Matched(op)
    ensures forall c :: c in Checks(ops) ==> IsCheck(c)
    decreases |ops|
  {
    if ops != [] {
      ChecksAllChecks(ops[..|ops| - 1]);
      assert ops[|ops| - 1] in ops;
    }
  }

  lemma QueuedMatched(m: QueueMap, q: string)
    requires AllMatched(m)
    ensures forall op :: op in Queued(m, q) ==> Matched(op)
  {
  }

  /** The run phases of a journal-built state send no verify call. */
  lemma {:induction false} RunPhasesNoCheck(m: QueueMap, qs: seq<string>)
    requires AllMatched(m)
    ensures forall c :: c in RunPhases(m, qs) ==> !IsCheck(c)
    decreases |qs|
  {
    if qs != [] {
      RunPhasesNoCheck(m, qs[..|qs| - 1]);
      QueuedMatched(m, qs[|qs| - 1]);
      RunsNoCheck(Queued(m, qs[|qs| - 1]));
    }
  }

  /** The verification phase of a journal-built state sends only verify calls. */
  lemma {:induction false} CheckPhasesAllChecks(m: QueueMap, qs: seq<string>, answer: Call -> bool)
    requires AllMatched(m)
    ensures forall c :: c in CheckPhases(m, qs, answer) ==> IsCheck(c)
    decreases |qs|
  {
    if qs != [] {
      var v := VerifiedQueues(m, qs[..|qs| - 1], answer);
      CheckPhasesAllChecks(m, qs[..|qs| - 1], answer);
      VerifiedMatched(m, qs[..|qs| - 1], answer);
      QueuedMatched(v, qs[|qs| - 1]);
      ChecksAllChecks(Queued(v, qs[|qs| - 1]));
    }
  }

  /**
   * No verification happens before every phase has completed: in execute()'s
   * trace, every call of the run part comes before every call of the check
   * part, the first holds no verify call and the second nothing else.
   */
  lemma ExecuteRunsBeforeChecks(m: QueueMap, answer: Call -> bool)
    requires AllMatched(m)
    ensures forall c :: c in RunPhases(m, Phases) ==> !IsCheck(c)
    ensures forall c :: c in CheckPhases(m, Phases, answer) ==> IsCheck(c)
  {
    RunPhasesNoCheck(m, Phases);
    CheckPhasesAllChecks(m, Phases, answer);
  }

  // ---------------------------------------------------------------------------
  // The class
  // ---------------------------------------------------------------------------

  class Journal {
    const ctrl: Recorder<Call>
    var operationQueues: QueueMap

    constructor(ctrl: Recorder<Call>)
      ensures this.ctrl == ctrl && operationQueues == map[]
    {
      this.ctrl := ctrl;
      operationQueues := map[];
    }

    /** queue: append op to the named queue (the default queue unless told otherwise). */
    method Queue(op: Operation, queueName: string)
      modifies this
      ensures operationQueues == Enqueued(old(operationQueues), queueName, op)
    {
      operationQueues := operationQueues[queueName := Queued(operationQueues, queueName) + [op]];
    }

    /** executeQueue: run every operation of the queue in order; an absent queue runs nothing. */
    method ExecuteQueue(queueName: string)
      modifies ctrl
      ensures ctrl.calls == old(ctrl.calls) + Runs(Queued(operationQueues, queueName))
    {
      if queueName in operationQueues {
        var ops := operationQueues[queueName];
        var i := 0;
        while i < |ops|
          invariant 0 <= i <= |ops|
          invariant ctrl.calls == old(ctrl.calls) + Runs(ops[..i])
        {
          Run(ops[i], ctrl);
          assert ops[..i + 1][..i] == ops[..i];
          i := i + 1;
        }
        assert ops[..i] == ops;
      }
    }

    /**
     * verifyQueue: verify every operation of the queue in order and keep the
     * ones that did not verify; an absent queue becomes present and empty.
     */
    method VerifyQueue(queueName: string, answer: Call -> bool)
      modifies this, ctrl
      ensures operationQueues
        == old(operationQueues)[queueName := Unfinished(Queued(old(operationQueues), queueName), answer)]
      ensures ctrl.calls == old(ctrl.calls) + Checks(Queued(old(operationQueues), queueName))
    {
      var unfinished := [];
      if queueName in operationQueues {
        var ops := operationQueues[queueName];
        var i := 0;
        while i < |ops|
          invariant 0 <= i <= |ops|
          invariant operationQueues == old(operationQueues)
          invariant unfinished == Unfinished(ops[..i], answer)
          invariant ctrl.calls == old(ctrl.calls) + Checks(ops[..i])
        {
          unfinished := VerifyQueuePass(ops, i, unfinished, answer, old(ctrl.calls));
          i := i + 1;
        }
        assert ops[..i] == ops;
      }
      operationQueues := operationQueues[queueName := unfinished];
    }

    /** Pass i of verifyQueue's loop: verify ops[i] and keep it when it did not verify. */
    method VerifyQueuePass(ops: seq<Operation>, i: nat, unfinished: seq<Operation>, answer: Call -> bool, ghost before: seq<Call>)
      returns (kept: seq<Operation>)
      requires i < |ops|
      requires unfinished == Unfinished(ops[..i], answer)
      requires ctrl.calls == before + Checks(ops[..i])
      modifies ctrl
      ensures kept == Unfinished(ops[..i + 1], answer)
      ensures ctrl.calls == before + Checks(ops[..i + 1])
    {
      kept := unfinished;
      var done := Verify(ops[i], ctrl, answer);
      if !done {
        kept := kept + [ops[i]];
      }
      assert ops[..i + 1][..i] == ops[..i];
    }

    /** execute: each phase between begin and complete, then every verification. */
    method Execute(answer: Call -> bool)
      modifies this, ctrl
      ensures ctrl.calls == old(ctrl.calls) + RunPhases(old(operationQueues), Phases)
        + CheckPhases(old(operationQueues), Phases, answer)
      ensures operationQueues == VerifiedQueues(old(operationQueues), Phases, answer)
    {
      var i := 0;
      while i < |Phases|
        invariant 0 <= i <= |Phases|
        invariant operationQueues == old(operationQueues)
        invariant ctrl.calls == old(ctrl.calls) + RunPhases(old(operationQueues), Phases[..i])
      {
        RunPhasePass(i, old(ctrl.calls));
        i := i + 1;
      }
      assert Phases[..i] == Phases;
      ghost var ran := ctrl.calls;
      var j := 0;
      while j < |Phases|
        invariant 0 <= j <= |Phases|
        invariant operationQueues == VerifiedQueues(old(operationQueues), Phases[..j], answer)
        invariant ctrl.calls == ran + CheckPhases(old(operationQueues), Phases[..j], answer)
      {
        VerifyPhasePass(j, answer, old(operationQueues), ran);
        j := j + 1;
      }
      assert Phases[..j] == Phases;
    }

    /** Pass i of execute()'s first loop: begin, run queue Phases[i], complete. */
    method RunPhasePass(i: nat, ghost before: seq<Call>)
      requires i < |Phases|
      requires ctrl.calls == before + RunPhases(operationQueues, Phases[..i])
      modifies ctrl
      ensures ctrl.calls == before + RunPhases(operationQueues, Phases[..i + 1])
    {
      ghost var done := RunPhases(operationQueues, Phases[..i]);
      ghost var runs := Runs(Queued(operationQueues, Phases[i]));
      ctrl.Send(Begin);
      ExecuteQueue(Phases[i]);
      ctrl.Send(Complete);
      Appended3(before + done, [Begin], runs, [Complete]);
      assert RunPhases(operationQueues, Phases[..i + 1]) == done + RunPhase(operationQueues, Phases[i]) by {
        assert Phases[..i + 1][..i] == Phases[..i];
      }
      Appended(before, done, RunPhase(operationQueues, Phases[i]), RunPhases(operationQueues, Phases[..i + 1]));
    }

    /** Pass j of execute()'s second loop: verify queue Phases[j]. */
    method VerifyPhasePass(j: nat, answer: Call -> bool, ghost m: QueueMap, ghost before: seq<Call>)
      requires j < |Phases|
      requires operationQueues == VerifiedQueues(m, Phases[..j], answer)
      requires ctrl.calls == before + CheckPhases(m, Phases[..j], answer)
      modifies this, ctrl
      ensures operationQueues == VerifiedQueues(m, Phases[..j + 1], answer)
      ensures ctrl.calls == before + CheckPhases(m, Phases[..j + 1], answer)
    {
      ghost var checks := Checks(Queued(operationQueues, Phases[j]));
      VerifyQueue(Phases[j], answer);
      assert Phases[..j + 1][..j] == Phases[..j];
      Appended(before, CheckPhases(m, Phases[..j], answer), checks, CheckPhases(m, Phases[..j + 1], answer));
    }

    /** insertBranch: passed straight to the controller; no queue changes. */
    method InsertBranch(branch: string)
      modifies ctrl
      ensures ctrl.calls == old(ctrl.calls) + [Call.InsertBranch(branch)]
    {
      ctrl.Send(Call.InsertBranch(branch));
    }

    /** deleteBranch: passed straight to the controller; no queue changes. */
    method DeleteBranch(branch: string)
      modifies ctrl
      ensures ctrl.calls == old(ctrl.calls) + [Call.DeleteBranch(branch)]
    {
      ctrl.Send(Call.DeleteBranch(branch));
    }

    /** insertMember: deferred to the default queue, checked later by verifyMember. */
    method InsertMember(branch: string, officename: string, memberEmailAddress: string)
      modifies this
      ensures operationQueues == Enqueued(old(operationQueues), DefaultQueue,
        Operation(Call.InsertMember(branch, officename, memberEmailAddress),
          Some(VerifyMember(branch, officename, memberEmailAddress))))
      ensures old(AllMatched(operationQueues)) ==> AllMatched(operationQueues)
    {
      var op := Operation(Call.InsertMember(branch, officename, memberEmailAddress),
        Some(VerifyMember(branch, officename, memberEmailAddress)));
      if AllMatched(operationQueues) {
        EnqueuedMatched(operationQueues, DefaultQueue, op);
      }
      Queue(op, DefaultQueue);
    }

    /** removeMember: deferred to the default queue with no check, so it always verifies. */
    method RemoveMember(branch: string, officename: string, memberEmailAddress: string)
      modifies this
      ensures operationQueues == Enqueued(old(operationQueues), DefaultQueue,
        Operation(Call.RemoveMember(branch, officename, memberEmailAddress), None))
      ensures old(AllMatched(operationQueues)) ==> AllMatched(operationQueues)
    {
      var op := Operation(Call.RemoveMember(branch, officename, memberEmailAddress), None);
      if AllMatched(operationQueues) {
        EnqueuedMatched(operationQueues, DefaultQueue, op);
      }
      Queue(op, DefaultQueue);
    }

    /** insertGroupAlternateAddress: deferred to the default queue, checked by verifyGroupAlternateAddress. */
    method InsertGroupAlternateAddress(branch: string, officename: string, alternateAddress: string)
      modifies this
      ensures operationQueues == Enqueued(old(operationQueues), DefaultQueue,
        Operation(Call.InsertGroupAlternateAddress(branch, officename, alternateAddress),
          Some(VerifyGroupAlternateAddress(branch, officename, alternateAddress))))
      ensures old(AllMatched(operationQueues)) ==> AllMatched(operationQueues)
    {
      var op := Operation(Call.InsertGroupAlternateAddress(branch, officename, alternateAddress),
        Some(VerifyGroupAlternateAddress(branch, officename, alternateAddress)));
      if AllMatched(operationQueues) {
        EnqueuedMatched(operationQueues, DefaultQueue, op);
      }
      Queue(op, DefaultQueue);
    }

    /** removeGroupAlternateAddress: deferred to the default queue with no check. */
    method RemoveGroupAlternateAddress(branch: string, officename: string, alternateAddress: string)
      modifies this
      ensures operationQueues == Enqueued(old(operationQueues), DefaultQueue,
        Operation(Call.RemoveGroupAlternateAddress(branch, officename, alternateAddress), None))
      ensures old(AllMatched(operationQueues)) ==> AllMatched(operationQueues)
    {
      var op := Operation(Call.RemoveGroupAlternateAddress(branch, officename, alternateAddress), None);
      if AllMatched(operationQueues) {
        EnqueuedMatched(operationQueues, DefaultQueue, op);
      }
      Queue(op, DefaultQueue);
    }

    /**
     * insertOffice: queued to the creation queue with a verifyOffice check,
     * and also passed to the controller at once.
     */
    method InsertOffice(branch: string, officename: string, properties: Properties)
      modifies this, ctrl
      ensures operationQueues == Enqueued(old(operationQueues), CreationQueue,
        Operation(Call.InsertOffice(branch, officename, properties),
          Some(VerifyOffice(branch, officename, properties))))
      ensures ctrl.calls == old(ctrl.calls) + [Call.InsertOffice(branch, officename, properties)]
      ensures old(AllMatched(operationQueues)) ==> AllMatched(operationQueues)
    {
      var op := Operation(Call.InsertOffice(branch, officename, properties),
        Some(VerifyOffice(branch, officename, properties)));
      if AllMatched(operationQueues) {
        EnqueuedMatched(operationQueues, CreationQueue, op);
      }
      Queue(op, CreationQueue);
      ctrl.Send(Call.InsertOffice(branch, officename, properties));
    }

    /** deleteOffice: passed straight to the controller; no queue changes. */
    method DeleteOffice(branch: string, officename: string, properties: Properties)
      modifies ctrl
      ensures ctrl.calls == old(ctrl.calls) + [Call.DeleteOffice(branch, officename, properties)]
    {
      ctrl.Send(Call.DeleteOffice(branch, officename, properties));
    }
  }
}
