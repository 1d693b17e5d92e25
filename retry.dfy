/**
 * The deferred-retry queue: operations that failed with a permission error wait here and
 * are attempted again on every tick of a periodic timer until they succeed. The timer
 * itself is represented only by whether it is armed (`hasStarted`).
 */
module Retry {
  import opened Seqs
  import opened Paths

  /** The filesystem operation a watcher queues when the first attempt was refused. */
  datatype Action =
    | Create(srcPath: Path)
    | Delete(destination: Path)
    | Replace(srcPath: Path)
    | Rename(targetSourcePath: Path, targetDestPath: Path)

  /**
   * `AttemptOperation`: one queued operation. Whether an attempt succeeds depends on the
   * filesystem at that moment, so the ticks below take it as an oracle.
   */
  class AttemptOperation {
    const action: Action

    constructor(action: Action)
      ensures this.action == action
    {
      this.action := action;
    }
  }

  class AttemptsManager {
    var operations: seq<AttemptOperation>
    var hasStarted: bool

    /** A fresh manager: nothing queued, timer not armed. */
    constructor()
      ensures operations == [] && !hasStarted
    {
      operations := [];
      hasStarted := false;
    }

    /**
     * `start`: arms the timer. On a manager that is already started the timer thread is
     * alive, and `reset_timer` setting `daemon` on it raises `RuntimeError`; the flag has
     * been set by then either way. `ok` is false exactly in that case.
     */
    method Start() returns (ok: bool)
      modifies this
      ensures hasStarted && operations == old(operations)
      ensures ok == !old(hasStarted)
    {
      ok := !hasStarted;
      hasStarted := true;
    }

    /** `stop`: cancels and drops the timer. */
    method Stop()
      modifies this
      ensures !hasStarted && operations == old(operations)
    {
      hasStarted := false;
    }

    /**
     * `QueueOperation`: appends at the end; a running timer is stopped and restarted after
     * the append, so the started flag ends as it was.
     */
    method QueueOperation(op: AttemptOperation)
      modifies this
      ensures operations == old(operations) + [op]
      ensures hasStarted == old(hasStarted)
    {
      if hasStarted {
        Stop();
        operations := operations + [op];
        var ok := Start();
        assert ok;
      } else {
        operations := operations + [op];
      }
    }

    /**
     * `Dequeue`: removes the listed operations, one occurrence each and first occurrence
     * first; `list.remove` needs each one to be present when its turn comes.
     */
    method Dequeue(ops: seq<AttemptOperation>)
      requires multiset(ops) <= multiset(operations)
      modifies this
      ensures operations == RemoveEach(old(operations), ops)
      ensures hasStarted == old(hasStarted)
    {
      var wasStarted := hasStarted;
      if hasStarted {
        Stop();
      }
      operations := RemoveAll(operations, ops);
      if wasStarted {
        var ok := Start();
      }
    }

    /**
     * `inquire`, one tick of the timer: every operation is attempted once in queue order;
     * the ones that succeeded are removed, the rest stay in their order, and the timer is
     * re-armed exactly when something is left.
     */
    method Inquire(attempt: AttemptOperation -> bool)
      modifies this
      ensures operations == FilterBy(old(operations), attempt, false)
      ensures hasStarted <==> operations != []
    {
      var toRemove: seq<AttemptOperation> := [];
      for i := 0 to |operations|
        invariant toRemove == FilterBy(operations[..i], attempt, true)
        invariant operations == old(operations)
      {
        assert operations[..i + 1][..i] == operations[..i];
        if attempt(operations[i]) {
          toRemove := toRemove + [operations[i]];
        }
      }
      assert operations[..|operations|] == operations;
      RemoveSelectedLeavesRest(operations, attempt);
      if |toRemove| > 0 {
        Dequeue(toRemove);
      }
      Stop();
      if |operations| > 0 {
        var ok := Start();
      }
    }

    /**
     * What every watcher's permission-error handler does: `QueueCallable` and then
     * `start()`. On a started manager the second call fails (see `Start`), whatever
     * `QueueOperation` did.
     */
    method QueueAndStartAsWritten(op: AttemptOperation) returns (ok: bool)
      modifies this
      ensures operations == old(operations) + [op] && hasStarted
      ensures ok == !old(hasStarted)
    {
      QueueOperation(op);
      ok := Start();
    }

    /** The handler as intended: queue the operation and arm the timer unless it is armed. */
    method QueueAndStart(op: AttemptOperation)
      modifies this
      ensures operations == old(operations) + [op] && hasStarted
    {
      QueueOperation(op);
      if !hasStarted {
        var ok := Start();
      }
    }
  }

  /**
   * Two permission errors in a row, as the handlers are written: the first arms the
   * timer, the second finds it armed and raises from `start()`.
   */
  method SecondQueuedRetryRaises(first: Action, second: Action) returns (firstOk: bool, secondOk: bool)
    ensures firstOk && !secondOk
  {
    var manager := new AttemptsManager();
    var a := new AttemptOperation(first);
    var b := new AttemptOperation(second);
    firstOk := manager.QueueAndStartAsWritten(a);
    secondOk := manager.QueueAndStartAsWritten(b);
  }

  /** The same two errors through the intended handler: both are queued, in order, and the timer is armed. */
  method SecondQueuedRetryQueues(first: Action, second: Action) returns (actions: seq<Action>, armed: bool)
    ensures actions == [first, second] && armed
  {
    var manager := new AttemptsManager();
    var a := new AttemptOperation(first);
    var b := new AttemptOperation(second);
    manager.QueueAndStart(a);
    manager.QueueAndStart(b);
    assert manager.operations == [a, b];
    actions := [manager.operations[0].action, manager.operations[1].action];
    armed := manager.hasStarted;
  }

  /**
   * After a tick an operation is still queued exactly when it was queued and its attempt
   * failed; a queued operation whose attempt succeeds is gone.
   */
  lemma TickKeepsExactlyFailures(queue: seq<AttemptOperation>, attempt: AttemptOperation -> bool, op: AttemptOperation)
    ensures op in FilterBy(queue, attempt, false) <==> op in queue && !attempt(op)
    ensures multiset(FilterBy(queue, attempt, false)) == multiset(queue) - multiset(FilterBy(queue, attempt, true))
  {
    FilterByMembership(queue, attempt, false, op);
    FilterBySplits(queue, attempt);
  }

  /**
   * An operation that keeps failing is retried on every tick: across any number of ticks
   * it stays queued as long as each attempt on it fails, and the first successful tick
   * removes it.
   */
  lemma {:induction false} RetriedUntilSuccess(queue: seq<AttemptOperation>, ticks: seq<AttemptOperation -> bool>, op: AttemptOperation)
    requires op in queue
    ensures op in AfterTicks(queue, ticks) <==> forall t :: 0 <= t < |ticks| ==> !ticks[t](op)
    decreases |ticks|
  {
    if ticks != [] {
      var n := |ticks| - 1;
      var init, last := ticks[..n], ticks[n];
      var before := AfterTicks(queue, init);
      assert AfterTicks(queue, ticks) == FilterBy(before, last, false);
      RetriedUntilSuccess(queue, init, op);
      FilterByMembership(before, last, false, op);
      assert (forall t :: 0 <= t < |ticks| ==> !ticks[t](op)) <==>
        (forall t :: 0 <= t < n ==> !init[t](op)) && !last(op) by {
        assert forall t :: 0 <= t < n ==> init[t] == ticks[t];
      }
    }
  }

  /** The queue left by a series of ticks, the `t`-th deciding each attempt with `ticks[t]`, when nothing is queued in between. */
  function AfterTicks(queue: seq<AttemptOperation>, ticks: seq<AttemptOperation -> bool>): (r: seq<AttemptOperation>)
    ensures |r| <= |queue|
  {
    if ticks == [] then queue else FilterBy(AfterTicks(queue, ticks[..|ticks| - 1]), ticks[|ticks| - 1], false)
  }
}
