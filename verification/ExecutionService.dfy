/** The inline execution service (include/framekit/service/execution.hpp:34-271).
    Each function named `…Section` is what one critical section does to the data behind the lock. */
module ExecutionService {
  datatype TaskState = Queued | Running | Completed | Cancelled | Failed | Rejected

  datatype TaskResult = TaskResult(taskId: nat, state: TaskState)

  datatype Metrics =
    Metrics(submitted: nat, rejected: nat, cancelled: nat, completed: nat, failed: nat, pending: nat)

  datatype Shared = Shared(shuttingDown: bool, metrics: Metrics, nextTaskId: nat,
                           pending: seq<nat>, results: map<nat, TaskState>)

  const INITIAL := Shared(false, Metrics(0, 0, 0, 0, 0, 0), 1, [], map[])

  function Refused(s: Shared): Shared {
    s.(metrics := s.metrics.(rejected := s.metrics.rejected + 1))
  }

  function SubmitSection(s: Shared, hasTask: bool): Shared {
    if s.shuttingDown || !hasTask then Refused(s)
    else
      var pending := s.pending + [s.nextTaskId];
      s.(nextTaskId := s.nextTaskId + 1, pending := pending, results := s.results[s.nextTaskId := Queued],
         metrics := s.metrics.(submitted := s.metrics.submitted + 1, pending := |pending|))
  }

  function Without(ids: seq<nat>, id: nat): (r: seq<nat>)
    ensures id !in ids ==> r == ids
    ensures id in ids ==> |r| == |ids| - 1
  {
    if ids == [] then [] else if ids[0] == id then ids[1..] else [ids[0]] + Without(ids[1..], id)
  }

  function CancelSection(s: Shared, id: nat): Shared {
    if s.shuttingDown || id !in s.pending then s
    else
      var pending := Without(s.pending, id);
      s.(pending := pending, results := s.results[id := Cancelled],
         metrics := s.metrics.(cancelled := s.metrics.cancelled + 1, pending := |pending|))
  }

  function TakeSection(s: Shared): Shared {
    s.(pending := [], metrics := s.metrics.(pending := 0))
  }

  function StartSection(s: Shared, id: nat): Shared {
    s.(results := s.results[id := Running])
  }

  function Outcome(threw: bool): TaskState {
    if threw then Failed else Completed
  }

  function FinishSection(s: Shared, id: nat, threw: bool): Shared {
    s.(results := s.results[id := Outcome(threw)],
       metrics := if threw then s.metrics.(failed := s.metrics.failed + 1)
                  else s.metrics.(completed := s.metrics.completed + 1))
  }

  function CancelAll(results: map<nat, TaskState>, ids: seq<nat>): map<nat, TaskState> {
    if ids == [] then results
    else CancelAll(results, ids[..|ids| - 1])[ids[|ids| - 1] := Cancelled]
  }

  function ShutdownSection(s: Shared): Shared {
    if s.shuttingDown then s
    else
      s.(shuttingDown := true, pending := [], results := CancelAll(s.results, s.pending),
         metrics := s.metrics.(cancelled := s.metrics.cancelled + |s.pending|, pending := 0))
  }

  /** What an undisturbed drain leaves once the first `n` of `ids` have run. */
  function DrainedUpTo(s: Shared, ids: seq<nat>, threw: nat -> bool, n: nat): Shared
    requires n <= |ids|
  {
    if n == 0 then s
    else FinishSection(StartSection(DrainedUpTo(s, ids, threw, n - 1), ids[n - 1]), ids[n - 1], threw(ids[n - 1]))
  }

  class InlineExecutionService {
    var shuttingDown: bool
    var metrics: Metrics
    var nextTaskId: nat
    var pending: seq<nat>
    var results: map<nat, TaskState>

    function Value(): Shared
      reads this
    {
      Shared(shuttingDown, metrics, nextTaskId, pending, results)
    }

    constructor ()
      ensures Value() == INITIAL
    {
      shuttingDown, metrics, nextTaskId := false, Metrics(0, 0, 0, 0, 0, 0), 1;
      pending, results := [], map[];
    }

    /** execution.hpp:106-133 */
    method SubmitTask(hasTask: bool) returns (r: TaskResult)
      modifies this
      ensures Value() == SubmitSection(old(Value()), hasTask)
      ensures r.state == Queued <==> !old(shuttingDown) && hasTask
      ensures r.state == Queued ==> r.taskId == old(nextTaskId) && pending == old(pending) + [r.taskId]
      ensures r.state == Queued ==> results == old(results)[r.taskId := Queued] && nextTaskId == old(nextTaskId) + 1
      ensures r.state == Queued ==>
                metrics == old(metrics).(submitted := old(metrics).submitted + 1, pending := |pending|)
      ensures r.state != Queued ==> r == TaskResult(0, Rejected) && unchanged(`pending, `results, `nextTaskId)
      ensures r.state != Queued ==> metrics == old(metrics).(rejected := old(metrics).rejected + 1)
    {
      if shuttingDown || !hasTask {
        metrics := metrics.(rejected := metrics.rejected + 1);
        return TaskResult(0, Rejected);
      }
      var taskId := nextTaskId;
      nextTaskId := nextTaskId + 1;
      pending := pending + [taskId];
      results := results[taskId := Queued];
      metrics := metrics.(submitted := metrics.submitted + 1);
      metrics := metrics.(pending := |pending|);
      r := TaskResult(taskId, Queued);
    }

    /** execution.hpp:135-158 */
    method Cancel(taskId: nat) returns (ok: bool)
      modifies this
      ensures Value() == CancelSection(old(Value()), taskId)
      ensures ok <==> !old(shuttingDown) && taskId in old(pending)
      ensures !ok ==> Value() == old(Value())
      ensures ok ==> exists i :: 0 <= i < |old(pending)| && old(pending)[i] == taskId && taskId !in old(pending)[..i]
                                 && pending == old(pending)[..i] + old(pending)[i + 1..]
      ensures ok ==> results == old(results)[taskId := Cancelled]
      ensures ok ==> metrics == old(metrics).(cancelled := old(metrics).cancelled + 1, pending := |pending|)
    {
      if shuttingDown {
        return false;
      }
      for i := 0 to |pending|
        invariant Value() == old(Value())
        invariant taskId !in pending[..i]
      {
        if pending[i] == taskId {
          WithoutAt(pending, taskId, i);
          pending := pending[..i] + pending[i + 1..];
          results := results[taskId := Cancelled];
          metrics := metrics.(cancelled := metrics.cancelled + 1, pending := |pending|);
          return true;
        }
        assert pending[..i + 1] == pending[..i] + [pending[i]];
      }
      assert pending[..|pending|] == pending;
      ok := false;
    }

    /** execution.hpp:161-166, the first section of a drain */
    method Take() returns (toRun: seq<nat>)
      modifies this
      ensures Value() == TakeSection(old(Value())) && toRun == old(pending)
      ensures pending == [] && metrics == old(metrics).(pending := 0) && unchanged(`results, `nextTaskId, `shuttingDown)
    {
      toRun, pending := pending, [];
      metrics := metrics.(pending := |pending|);
    }

    /** execution.hpp:172-179 */
    method MarkRunning(taskId: nat)
      modifies this`results
      ensures Value() == StartSection(old(Value()), taskId)
      ensures results == old(results)[taskId := Running]
    {
      results := results[taskId := Running];
    }

    /** execution.hpp:197-205 */
    method Record(outcome: TaskResult)
      requires outcome.state == Completed || outcome.state == Failed
      modifies this`results, this`metrics
      ensures Value() == FinishSection(old(Value()), outcome.taskId, outcome.state == Failed)
      ensures results == old(results)[outcome.taskId := outcome.state]
      ensures outcome.state == Completed ==> metrics == old(metrics).(completed := old(metrics).completed + 1)
      ensures outcome.state == Failed ==> metrics == old(metrics).(failed := old(metrics).failed + 1)
    {
      results := results[outcome.taskId := outcome.state];
      if outcome.state == Completed {
        metrics := metrics.(completed := metrics.completed + 1);
      } else if outcome.state == Failed {
        metrics := metrics.(failed := metrics.failed + 1);
      }
    }

    /** execution.hpp:160-210 with nobody else at work; `threw` says which tasks throw. */
    method Drain(threw: nat -> bool) returns (drained: seq<TaskResult>)
      modifies this
      ensures |drained| == |old(pending)|
      ensures forall i :: 0 <= i < |drained| ==>
                drained[i] == TaskResult(old(pending)[i], if threw(old(pending)[i]) then Failed else Completed)
      ensures Value() == DrainedUpTo(TakeSection(old(Value())), old(pending), threw, |old(pending)|)
    {
      var toRun := Take();
      drained := [];
      for i := 0 to |toRun|
        invariant |drained| == i
        invariant forall j :: 0 <= j < i ==> drained[j] == TaskResult(toRun[j], Outcome(threw(toRun[j])))
        invariant Value() == DrainedUpTo(TakeSection(old(Value())), toRun, threw, i)
      {
        MarkRunning(toRun[i]);
        var outcome := TaskResult(toRun[i], Outcome(threw(toRun[i])));
        Record(outcome);
        drained := drained + [outcome];
      }
    }

    /** execution.hpp:212-230 */
    method BeginShutdown() returns (ok: bool)
      modifies this
      ensures ok && shuttingDown
      ensures Value() == ShutdownSection(old(Value()))
      ensures old(shuttingDown) ==> Value() == old(Value())
      ensures !old(shuttingDown) ==>
                && pending == [] && nextTaskId == old(nextTaskId)
                && metrics == old(metrics).(cancelled := old(metrics).cancelled + |old(pending)|, pending := 0)
                && (forall id :: id in results <==> id in old(results) || id in old(pending))
                && (forall id :: id in results ==>
                      results[id] == if id in old(pending) then Cancelled else old(results)[id])
    {
      if shuttingDown {
        return true;
      }
      shuttingDown := true;
      for i := 0 to |pending|
        invariant shuttingDown && pending == old(pending) && nextTaskId == old(nextTaskId)
        invariant results == CancelAll(old(results), pending[..i])
        invariant metrics == old(metrics).(cancelled := old(metrics).cancelled + i)
      {
        assert pending[..i + 1][..i] == pending[..i];
        results := results[pending[i] := Cancelled];
        metrics := metrics.(cancelled := metrics.cancelled + 1);
      }
      assert pending[..|pending|] == pending;
      CancelAllMeaning(old(results), old(pending));
      pending := [];
      metrics := metrics.(pending := |pending|);
      ok := true;
    }
  }

  lemma {:induction false} WithoutAt(ids: seq<nat>, id: nat, i: nat)
    requires i < |ids| && ids[i] == id && id !in ids[..i]
    ensures Without(ids, id) == ids[..i] + ids[i + 1..]
  {
    if i > 0 {
      assert ids[..i][0] == ids[0];
      assert ids[1..][..i - 1] == ids[..i][1..];
      WithoutAt(ids[1..], id, i - 1);
      assert ids[..i] + ids[i + 1..] == [ids[0]] + (ids[1..][..i - 1] + ids[1..][i..]);
    }
  }

  /** Cancelling everything touches exactly the listed tasks. */
  lemma {:induction false} CancelAllMeaning(results: map<nat, TaskState>, ids: seq<nat>)
    ensures forall x :: x in CancelAll(results, ids) <==> x in results || x in ids
    ensures forall x :: x in CancelAll(results, ids) ==>
              CancelAll(results, ids)[x] == if x in ids then Cancelled else results[x]
  {
    if ids != [] {
      var n := |ids| - 1;
      CancelAllMeaning(results, ids[..n]);
      assert ids == ids[..n] + [ids[n]];
    }
  }
}
