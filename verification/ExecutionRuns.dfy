/** Every interleaving of submitters, cancellers, one shutdown and any number of drains:
    one action is one critical section of include/framekit/service/execution.hpp:106-230. */
module ExecutionRuns {
  import opened ExecutionService

  /** One call of Drain: what it took, the outcomes so far, and whether its next task is running. */
  datatype Drainer = Drainer(toRun: seq<nat>, drained: seq<TaskResult>, busy: bool)

  datatype World = World(svc: Shared, drainers: seq<Drainer>)

  datatype Action =
    | Submit(hasTask: bool)
    | Cancel(id: nat)
    | Shutdown
    | Take
    | Start(k: nat)
    | Finish(k: nat, threw: bool)

  const INITIAL_WORLD := World(INITIAL, [])

  predicate Unfinished(d: Drainer) {
    |d.drained| < |d.toRun|
  }

  function CurrentTask(d: Drainer): nat
    requires Unfinished(d)
  {
    d.toRun[|d.drained|]
  }

  predicate Enabled(w: World, a: Action) {
    match a
    case Start(k) => k < |w.drainers| && Unfinished(w.drainers[k]) && !w.drainers[k].busy
    case Finish(k, _) => k < |w.drainers| && Unfinished(w.drainers[k]) && w.drainers[k].busy
    case _ => true
  }

  function Next(w: World, a: Action): World
    requires Enabled(w, a)
  {
    match a
    case Submit(hasTask) => w.(svc := SubmitSection(w.svc, hasTask))
    case Cancel(id) => w.(svc := CancelSection(w.svc, id))
    case Shutdown => w.(svc := ShutdownSection(w.svc))
    case Take => World(TakeSection(w.svc), w.drainers + [Drainer(w.svc.pending, [], false)])
    case Start(k) =>
      var d := w.drainers[k];
      World(StartSection(w.svc, CurrentTask(d)), w.drainers[k := d.(busy := true)])
    case Finish(k, threw) =>
      var d := w.drainers[k];
      var outcome := TaskResult(CurrentTask(d), Outcome(threw));
      World(FinishSection(w.svc, CurrentTask(d), threw),
            w.drainers[k := Drainer(d.toRun, d.drained + [outcome], false)])
  }

  // ---------- the invariant ----------

  ghost predicate Increasing(s: seq<nat>) {
    forall i, j :: 0 <= i < j < |s| ==> s[i] < s[j]
  }

  /** The recorded state of the task at position `i` of a drain. */
  function StateAt(d: Drainer, i: nat): TaskState
    requires i < |d.toRun|
  {
    if i < |d.drained| then d.drained[i].state
    else if i == |d.drained| && d.busy then Running
    else Queued
  }

  ghost predicate DrainerOk(results: map<nat, TaskState>, d: Drainer) {
    && Increasing(d.toRun)
    && |d.drained| <= |d.toRun|
    && (d.busy ==> Unfinished(d))
    && (forall i :: 0 <= i < |d.drained| ==>
          d.drained[i].taskId == d.toRun[i] && d.drained[i].state in {Completed, Failed})
    && (forall i :: 0 <= i < |d.toRun| ==> d.toRun[i] in results && results[d.toRun[i]] == StateAt(d, i))
  }

  ghost predicate Held(w: World, k: nat, id: nat) {
    k < |w.drainers| && id in w.drainers[k].toRun
  }

  /** Each issued id is pending, held by exactly one drain, or cancelled. */
  ghost predicate Placed(w: World) {
    && w.svc.nextTaskId >= 1
    && (forall id :: id in w.svc.results <==> 1 <= id < w.svc.nextTaskId)
    && Increasing(w.svc.pending)
    && (forall id :: id in w.svc.pending ==> id in w.svc.results && w.svc.results[id] == Queued)
    && (forall k, id :: Held(w, k, id) ==> id !in w.svc.pending)
    && (forall k, l, id :: Held(w, k, id) && Held(w, l, id) ==> k == l)
    && (forall id :: id in w.svc.results && id !in w.svc.pending && w.svc.results[id] != Cancelled ==>
          exists k :: Held(w, k, id))
    && (forall k :: 0 <= k < |w.drainers| ==> DrainerOk(w.svc.results, w.drainers[k]))
    && (w.svc.shuttingDown ==> w.svc.pending == [])
  }

  ghost function InState(results: map<nat, TaskState>, st: TaskState): set<nat> {
    set id | id in results && results[id] == st
  }

  function Waiting(ds: seq<Drainer>): int {
    if ds == [] then 0
    else Waiting(ds[..|ds| - 1]) + |ds[|ds| - 1].toRun| - |ds[|ds| - 1].drained| - if ds[|ds| - 1].busy then 1 else 0
  }

  function Busy(ds: seq<Drainer>): nat {
    if ds == [] then 0 else Busy(ds[..|ds| - 1]) + if ds[|ds| - 1].busy then 1 else 0
  }

  ghost predicate Counted(w: World) {
    var m := w.svc.metrics;
    && m.pending == |w.svc.pending|
    && m.submitted == w.svc.nextTaskId - 1
    && m.submitted == m.pending + Waiting(w.drainers) + Busy(w.drainers) + m.completed + m.failed + m.cancelled
    && m.completed == |InState(w.svc.results, Completed)|
    && m.failed == |InState(w.svc.results, Failed)|
    && m.cancelled == |InState(w.svc.results, Cancelled)|
  }

  ghost predicate Inv(w: World) {
    Placed(w) && Counted(w)
  }

  // ---------- counting ----------

  lemma CountAfterUpdate(results: map<nat, TaskState>, id: nat, to: TaskState, st: TaskState)
    ensures |InState(results[id := to], st)|
         == |InState(results, st)|
            - (if id in results && results[id] == st then 1 else 0) + (if to == st then 1 else 0)
  {
    var before, after := InState(results, st), InState(results[id := to], st);
    assert after - {id} == before - {id};
    SizeWithout(before, id);
    SizeWithout(after, id);
  }

  lemma SizeWithout(s: set<nat>, id: nat)
    ensures |s| == |s - {id}| + if id in s then 1 else 0
  {
    if id in s {
      assert s == (s - {id}) + {id};
    } else {
      assert s == s - {id};
    }
  }

  lemma {:induction false} CountAfterCancelAll(results: map<nat, TaskState>, ids: seq<nat>, st: TaskState)
    requires Increasing(ids)
    requires forall id :: id in ids ==> id in results && results[id] == Queued
    requires st != Queued
    ensures |InState(CancelAll(results, ids), st)|
         == |InState(results, st)| + if st == Cancelled then |ids| else 0
  {
    if ids != [] {
      var n := |ids| - 1;
      assert forall id :: id in ids[..n] ==> id in ids;
      CountAfterCancelAll(results, ids[..n], st);
      CancelAllMeaning(results, ids[..n]);
      CountAfterUpdate(CancelAll(results, ids[..n]), ids[n], Cancelled, st);
      assert ids[n] in ids && ids[n] !in ids[..n];
    }
  }

  lemma {:induction false} SumsAfterUpdate(ds: seq<Drainer>, k: nat, d: Drainer)
    requires k < |ds|
    ensures Busy(ds[k := d]) == Busy(ds) + (if d.busy then 1 else 0) - (if ds[k].busy then 1 else 0)
    ensures Waiting(ds[k := d]) + |ds[k].toRun| - |ds[k].drained| - (if ds[k].busy then 1 else 0)
         == Waiting(ds) + |d.toRun| - |d.drained| - (if d.busy then 1 else 0)
  {
    var n := |ds| - 1;
    if k < n {
      SumsAfterUpdate(ds[..n], k, d);
      assert ds[k := d][..n] == ds[..n][k := d];
    } else {
      assert ds[k := d][..n] == ds[..n];
    }
  }

  lemma SumsAfterAppend(ds: seq<Drainer>, d: Drainer)
    ensures Busy(ds + [d]) == Busy(ds) + if d.busy then 1 else 0
    ensures Waiting(ds + [d]) == Waiting(ds) + |d.toRun| - |d.drained| - if d.busy then 1 else 0
  {
    assert (ds + [d])[..|ds|] == ds;
  }

  lemma CountedStep(w: World, a: Action)
    requires Inv(w) && Enabled(w, a)
    ensures Counted(Next(w, a))
  {
    var s := w.svc;
    match a {
      case Submit(hasTask) =>
        CountAfterUpdate(s.results, s.nextTaskId, Queued, Completed);
        CountAfterUpdate(s.results, s.nextTaskId, Queued, Failed);
        CountAfterUpdate(s.results, s.nextTaskId, Queued, Cancelled);
      case Cancel(id) =>
        CountAfterUpdate(s.results, id, Cancelled, Completed);
        CountAfterUpdate(s.results, id, Cancelled, Failed);
        CountAfterUpdate(s.results, id, Cancelled, Cancelled);
      case Shutdown =>
        CountAfterCancelAll(s.results, s.pending, Completed);
        CountAfterCancelAll(s.results, s.pending, Failed);
        CountAfterCancelAll(s.results, s.pending, Cancelled);
      case Take =>
        SumsAfterAppend(w.drainers, Drainer(s.pending, [], false));
      case Start(k) =>
        CountedStart(w, k);
      case Finish(k, threw) =>
        CountedFinish(w, k, threw);
    }
  }

  lemma CountedStart(w: World, k: nat)
    requires Inv(w) && Enabled(w, Start(k))
    ensures Counted(Next(w, Start(k)))
  {
    var d := w.drainers[k];
    assert DrainerOk(w.svc.results, d) && w.svc.results[CurrentTask(d)] == StateAt(d, |d.drained|);
    SumsAfterUpdate(w.drainers, k, d.(busy := true));
    CountAfterUpdate(w.svc.results, CurrentTask(d), Running, Completed);
    CountAfterUpdate(w.svc.results, CurrentTask(d), Running, Failed);
    CountAfterUpdate(w.svc.results, CurrentTask(d), Running, Cancelled);
  }

  lemma CountedFinish(w: World, k: nat, threw: bool)
    requires Inv(w) && Enabled(w, Finish(k, threw))
    ensures Counted(Next(w, Finish(k, threw)))
  {
    var d, st := w.drainers[k], Outcome(threw);
    assert DrainerOk(w.svc.results, d) && w.svc.results[CurrentTask(d)] == StateAt(d, |d.drained|);
    SumsAfterUpdate(w.drainers, k, Drainer(d.toRun, d.drained + [TaskResult(CurrentTask(d), st)], false));
    CountAfterUpdate(w.svc.results, CurrentTask(d), st, Completed);
    CountAfterUpdate(w.svc.results, CurrentTask(d), st, Failed);
    CountAfterUpdate(w.svc.results, CurrentTask(d), st, Cancelled);
  }

  // ---------- placement ----------

  /** A drain does not notice changes to tasks it does not hold. */
  lemma DrainerFrame(results: map<nat, TaskState>, results': map<nat, TaskState>, d: Drainer)
    requires DrainerOk(results, d)
    requires forall id :: id in d.toRun && id in results ==> id in results' && results'[id] == results[id]
    ensures DrainerOk(results', d)
  {
    forall i | 0 <= i < |d.toRun| ensures d.toRun[i] in results' && results'[d.toRun[i]] == StateAt(d, i) {
      assert d.toRun[i] in d.toRun;
    }
  }

  lemma PlacedSubmit(w: World, hasTask: bool)
    requires Placed(w)
    ensures Placed(Next(w, Submit(hasTask)))
  {
    var w' := Next(w, Submit(hasTask));
    forall k | 0 <= k < |w.drainers| ensures DrainerOk(w'.svc.results, w.drainers[k]) {
      DrainerFrame(w.svc.results, w'.svc.results, w.drainers[k]);
    }
    forall k, id | Held(w', k, id) ensures Held(w, k, id) && id in w.svc.results {
      HeldIsIssued(w, k, id);
    }
    assert forall k, id :: Held(w, k, id) ==> Held(w', k, id);
    assert forall i :: 0 <= i < |w.svc.pending| ==> w.svc.pending[i] in w.svc.results;
  }

  lemma HeldIsIssued(w: World, k: nat, id: nat)
    requires Placed(w) && Held(w, k, id)
    ensures id in w.svc.results && w.svc.results[id] != Cancelled
  {
    var d := w.drainers[k];
    var i :| 0 <= i < |d.toRun| && d.toRun[i] == id;
    assert DrainerOk(w.svc.results, d);
    assert w.svc.results[id] == StateAt(d, i);
  }

  lemma IncreasingCons(x: nat, rest: seq<nat>)
    ensures Increasing([x] + rest) <==> Increasing(rest) && forall y :: y in rest ==> x < y
  {
    var s := [x] + rest;
    if Increasing(s) {
      forall i, j | 0 <= i < j < |rest| ensures rest[i] < rest[j] {
        assert s[i + 1] < s[j + 1];
      }
      forall y | y in rest ensures x < y {
        var j :| 0 <= j < |rest| && rest[j] == y;
        assert s[0] < s[j + 1];
      }
    } else {
      var i, j :| 0 <= i < j < |s| && s[i] >= s[j];
      assert s[j] == rest[j - 1] && rest[j - 1] in rest;
      assert i > 0 ==> s[i] == rest[i - 1];
    }
  }

  lemma {:induction false} WithoutKeepsOrder(ids: seq<nat>, id: nat)
    requires Increasing(ids)
    ensures Increasing(Without(ids, id))
    ensures forall x :: x in Without(ids, id) <==> x in ids && x != id
  {
    if ids != [] {
      assert ids == [ids[0]] + ids[1..];
      IncreasingCons(ids[0], ids[1..]);
      if ids[0] != id {
        WithoutKeepsOrder(ids[1..], id);
        IncreasingCons(ids[0], Without(ids[1..], id));
      }
    }
  }

  /** Cancel and Shutdown only turn pending tasks into cancelled ones. */
  lemma PlacedWhenCancelling(w: World, w': World)
    requires Placed(w) && w'.drainers == w.drainers
    requires w'.svc.nextTaskId == w.svc.nextTaskId && Increasing(w'.svc.pending)
    requires forall id :: id in w'.svc.pending ==> id in w.svc.pending
    requires forall id :: id in w'.svc.results <==> id in w.svc.results
    requires forall id :: id in w.svc.results ==>
               w'.svc.results[id]
               == if id in w.svc.pending && id !in w'.svc.pending then Cancelled else w.svc.results[id]
    requires w'.svc.shuttingDown ==> w'.svc.pending == []
    ensures Placed(w')
  {
    forall k, id | Held(w', k, id) ensures Held(w, k, id) {
    }
    forall k | 0 <= k < |w.drainers| ensures DrainerOk(w'.svc.results, w.drainers[k]) {
      assert forall id :: id in w.drainers[k].toRun ==> Held(w, k, id);
      DrainerFrame(w.svc.results, w'.svc.results, w.drainers[k]);
    }
    forall id | id in w'.svc.results && id !in w'.svc.pending && w'.svc.results[id] != Cancelled
      ensures exists k :: Held(w', k, id)
    {
      var k :| Held(w, k, id);
      assert Held(w', k, id);
    }
  }

  lemma PlacedTake(w: World)
    requires Placed(w)
    ensures Placed(Next(w, Take))
  {
    var w', n := Next(w, Take), |w.drainers|;
    forall k: nat, id | Held(w', k, id) ensures if k < n then Held(w, k, id) else k == n && id in w.svc.pending {
    }
    forall id | id in w'.svc.results && w'.svc.results[id] != Cancelled
      ensures exists k :: Held(w', k, id)
    {
      if id in w.svc.pending {
        assert Held(w', n, id);
      } else {
        var k :| Held(w, k, id);
        assert Held(w', k, id);
      }
    }
  }

  /** Start and Finish move one task of one drain to its next state. */
  lemma PlacedWhenRunning(w: World, w': World, k: nat, st: TaskState)
    requires Placed(w) && k < |w.drainers| && Unfinished(w.drainers[k]) && |w'.drainers| == |w.drainers|
    requires w'.drainers == w.drainers[k := w'.drainers[k]]
    requires w'.drainers[k].toRun == w.drainers[k].toRun
    requires w'.svc.nextTaskId == w.svc.nextTaskId && w'.svc.pending == w.svc.pending
    requires w'.svc.shuttingDown == w.svc.shuttingDown
    requires st != Cancelled && w'.svc.results == w.svc.results[CurrentTask(w.drainers[k]) := st]
    requires DrainerOk(w'.svc.results, w'.drainers[k])
    ensures Placed(w')
  {
    var id := CurrentTask(w.drainers[k]);
    assert Held(w, k, id);
    HeldIsIssued(w, k, id);
    forall l, x ensures Held(w', l, x) <==> Held(w, l, x) {
    }
    forall l: nat | l < |w.drainers| && l != k ensures DrainerOk(w'.svc.results, w'.drainers[l]) {
      assert !Held(w, l, id);
      DrainerFrame(w.svc.results, w'.svc.results, w.drainers[l]);
    }
    forall x | x in w'.svc.results && x !in w'.svc.pending && w'.svc.results[x] != Cancelled
      ensures exists l :: Held(w', l, x)
    {
      if x == id {
        assert Held(w', k, x);
      } else {
        var l :| Held(w, l, x);
        assert Held(w', l, x);
      }
    }
  }

  lemma DrainerMoves(results: map<nat, TaskState>, d: Drainer, st: TaskState, d': Drainer)
    requires DrainerOk(results, d) && Unfinished(d)
    requires (!d.busy && st == Running && d' == d.(busy := true))
          || (d.busy && st in {Completed, Failed}
              && d' == Drainer(d.toRun, d.drained + [TaskResult(CurrentTask(d), st)], false))
    ensures DrainerOk(results[CurrentTask(d) := st], d')
  {
    var id := CurrentTask(d);
    forall i | 0 <= i < |d.toRun|
      ensures d.toRun[i] in results[id := st] && results[id := st][d.toRun[i]] == StateAt(d', i)
    {
      assert results[d.toRun[i]] == StateAt(d, i);
      assert i != |d.drained| ==> d.toRun[i] != id;
    }
  }

  lemma PlacedStep(w: World, a: Action)
    requires Placed(w) && Enabled(w, a)
    ensures Placed(Next(w, a))
  {
    var w' := Next(w, a);
    match a {
      case Submit(hasTask) =>
        PlacedSubmit(w, hasTask);
      case Cancel(id) =>
        WithoutKeepsOrder(w.svc.pending, id);
        PlacedWhenCancelling(w, w');
      case Shutdown =>
        CancelAllMeaning(w.svc.results, w.svc.pending);
        PlacedWhenCancelling(w, w');
      case Take =>
        PlacedTake(w);
      case Start(k) =>
        DrainerMoves(w.svc.results, w.drainers[k], Running, w'.drainers[k]);
        PlacedWhenRunning(w, w', k, Running);
      case Finish(k, threw) =>
        DrainerMoves(w.svc.results, w.drainers[k], Outcome(threw), w'.drainers[k]);
        PlacedWhenRunning(w, w', k, Outcome(threw));
    }
  }

  // ---------- whole runs ----------

  ghost predicate IsRun(ws: seq<World>, acts: seq<Action>) {
    && |ws| == |acts| + 1
    && ws[0] == INITIAL_WORLD
    && forall i :: 0 <= i < |acts| ==> Enabled(ws[i], acts[i]) && ws[i + 1] == Next(ws[i], acts[i])
  }

  /** Partition and conservation hold at every release of the lock, in every interleaving. */
  lemma {:induction false} InvHoldsThroughout(ws: seq<World>, acts: seq<Action>, i: nat)
    requires IsRun(ws, acts) && i < |ws|
    ensures Inv(ws[i])
  {
    if i > 0 {
      InvHoldsThroughout(ws, acts, i - 1);
      assert ws[i - 1 + 1] == Next(ws[i - 1], acts[i - 1]);
      PlacedStep(ws[i - 1], acts[i - 1]);
      CountedStep(ws[i - 1], acts[i - 1]);
    }
  }

  /** Queued before running before finished; nothing moves back. */
  function Rank(st: TaskState): nat {
    match st
    case Queued => 0
    case Running => 1
    case _ => 2
  }

  ghost predicate Advances(w: World, w': World) {
    && (forall id :: id in w.svc.results ==> id in w'.svc.results)
    && (forall id :: id in w.svc.results ==>
          w'.svc.results[id] == w.svc.results[id] || Rank(w.svc.results[id]) < Rank(w'.svc.results[id]))
    && (w.svc.shuttingDown ==> w'.svc.shuttingDown && w'.svc.nextTaskId == w.svc.nextTaskId)
    && |w.drainers| <= |w'.drainers|
    && (forall k :: 0 <= k < |w.drainers| ==>
          w'.drainers[k].toRun == w.drainers[k].toRun && w.drainers[k].drained <= w'.drainers[k].drained)
  }

  lemma StepAdvances(w: World, a: Action)
    requires Placed(w) && Enabled(w, a)
    ensures Advances(w, Next(w, a))
  {
    match a {
      case Shutdown =>
        CancelAllMeaning(w.svc.results, w.svc.pending);
      case Start(k) =>
        assert DrainerOk(w.svc.results, w.drainers[k]);
      case Finish(k, threw) =>
        assert DrainerOk(w.svc.results, w.drainers[k]);
      case _ =>
    }
  }

  lemma RunStepAdvances(ws: seq<World>, acts: seq<Action>, i: nat)
    requires IsRun(ws, acts) && i < |acts|
    ensures Advances(ws[i], ws[i + 1])
  {
    InvHoldsThroughout(ws, acts, i);
    StepAdvances(ws[i], acts[i]);
  }

  lemma {:induction false} RunAdvances(ws: seq<World>, acts: seq<Action>, i: nat, j: nat)
    requires IsRun(ws, acts) && i <= j < |ws|
    ensures Advances(ws[i], ws[j])
    decreases j
  {
    if i < j {
      RunAdvances(ws, acts, i, j - 1);
      RunStepAdvances(ws, acts, j - 1);
      AdvancesTransitive(ws[i], ws[j - 1], ws[j]);
    }
  }

  lemma AdvancesTransitive(w: World, w': World, w'': World)
    requires Advances(w, w') && Advances(w', w'')
    ensures Advances(w, w'')
  {
  }

  /** A completed, failed or cancelled task keeps that result for ever. */
  lemma TerminalResultsAreFinal(ws: seq<World>, acts: seq<Action>, i: nat, j: nat, id: nat)
    requires IsRun(ws, acts) && i <= j < |ws|
    requires id in ws[i].svc.results && ws[i].svc.results[id] in {Completed, Failed, Cancelled}
    ensures id in ws[j].svc.results && ws[j].svc.results[id] == ws[i].svc.results[id]
  {
    RunAdvances(ws, acts, i, j);
  }

  /** The action `acts[i]` lets the task `id` run. */
  ghost predicate Starts(ws: seq<World>, acts: seq<Action>, i: nat, id: nat)
    requires IsRun(ws, acts)
  {
    i < |acts| && acts[i].Start? && CurrentTask(ws[i].drainers[acts[i].k]) == id
  }

  lemma StartedWasQueued(ws: seq<World>, acts: seq<Action>, i: nat, id: nat)
    requires IsRun(ws, acts) && Starts(ws, acts, i, id)
    ensures id in ws[i].svc.results && ws[i].svc.results[id] == Queued
    ensures id in ws[i + 1].svc.results && ws[i + 1].svc.results[id] == Running
  {
    InvHoldsThroughout(ws, acts, i);
    var d := ws[i].drainers[acts[i].k];
    assert DrainerOk(ws[i].svc.results, d);
    assert ws[i].svc.results[d.toRun[|d.drained|]] == StateAt(d, |d.drained|);
    assert ws[i + 1] == Next(ws[i], acts[i]);
  }

  /** No task runs twice, however many drains compete. */
  lemma NoTaskRunsTwice(ws: seq<World>, acts: seq<Action>, i: nat, j: nat, id: nat)
    requires IsRun(ws, acts)
    requires Starts(ws, acts, i, id) && Starts(ws, acts, j, id)
    ensures i == j
  {
    StartedWasQueued(ws, acts, i, id);
    StartedWasQueued(ws, acts, j, id);
    if i < j {
      RunAdvances(ws, acts, i + 1, j);
    } else if j < i {
      RunAdvances(ws, acts, j + 1, i);
    }
  }

  /** Once Cancel or Shutdown recorded a cancellation, the task does not run. */
  lemma CancelledTasksNeverRun(ws: seq<World>, acts: seq<Action>, i: nat, j: nat, id: nat)
    requires IsRun(ws, acts) && i <= j
    requires i < |ws| && id in ws[i].svc.results && ws[i].svc.results[id] == Cancelled
    ensures !Starts(ws, acts, j, id)
  {
    if Starts(ws, acts, j, id) {
      StartedWasQueued(ws, acts, j, id);
      RunAdvances(ws, acts, i, j);
    }
  }

  /** A drain that is through returns exactly what it took, oldest task first,
      with results that agree with the recorded ones; whatever happened in between. */
  lemma DrainReturnsWhatItTook(ws: seq<World>, acts: seq<Action>, i: nat, j: nat)
    requires IsRun(ws, acts) && i < |acts| && acts[i] == Take && i < j < |ws|
    ensures |ws[i].drainers| < |ws[j].drainers|
    ensures var d := ws[j].drainers[|ws[i].drainers|];
            && d.toRun == ws[i].svc.pending
            && Increasing(d.toRun)
            && (!Unfinished(d) ==>
                  && |d.drained| == |d.toRun|
                  && forall n :: 0 <= n < |d.drained| ==>
                       && d.drained[n].taskId == d.toRun[n]
                       && d.toRun[n] in ws[j].svc.results
                       && d.drained[n].state == ws[j].svc.results[d.toRun[n]])
  {
    assert ws[i + 1] == Next(ws[i], acts[i]);
    RunAdvances(ws, acts, i + 1, j);
    InvHoldsThroughout(ws, acts, j);
    var d := ws[j].drainers[|ws[i].drainers|];
    assert DrainerOk(ws[j].svc.results, d);
    forall n | 0 <= n < |d.drained|
      ensures d.toRun[n] in ws[j].svc.results && d.drained[n].state == ws[j].svc.results[d.toRun[n]]
    {
      assert ws[j].svc.results[d.toRun[n]] == StateAt(d, n);
    }
  }

  /** After shutdown the queue stays empty and no id is issued, but what a drain
      had taken before stays enabled: shutdown does not stop it. */
  lemma NothingIsAcceptedAfterShutdown(ws: seq<World>, acts: seq<Action>, i: nat, j: nat)
    requires IsRun(ws, acts) && i <= j < |ws| && ws[i].svc.shuttingDown
    ensures ws[j].svc.pending == [] && ws[j].svc.nextTaskId == ws[i].svc.nextTaskId
    ensures ws[j].svc.results.Keys == ws[i].svc.results.Keys
    ensures |ws[i].drainers| <= |ws[j].drainers|
    ensures forall k :: 0 <= k < |ws[i].drainers| && Unfinished(ws[j].drainers[k]) ==>
              Enabled(ws[j], if ws[j].drainers[k].busy then Finish(k, false) else Start(k))
  {
    RunAdvances(ws, acts, i, j);
    InvHoldsThroughout(ws, acts, i);
    InvHoldsThroughout(ws, acts, j);
  }

  /** A task that ran has failed exactly if it threw, and completed otherwise; for ever after. */
  lemma FinishedAsItThrew(ws: seq<World>, acts: seq<Action>, i: nat, j: nat)
    requires IsRun(ws, acts) && i < |acts| && acts[i].Finish? && i < j < |ws|
    ensures var d := ws[i].drainers[acts[i].k];
            && d.toRun[|d.drained|] in ws[j].svc.results
            && ws[j].svc.results[d.toRun[|d.drained|]] == if acts[i].threw then Failed else Completed
  {
    assert ws[i + 1] == Next(ws[i], acts[i]);
    TerminalResultsAreFinal(ws, acts, i + 1, j, CurrentTask(ws[i].drainers[acts[i].k]));
  }

  /** The submissions among the first `n` actions that carried no task or came after the shutdown. */
  ghost function Rejections(ws: seq<World>, acts: seq<Action>, n: nat): set<nat>
    requires n <= |acts| && |acts| < |ws|
  {
    set i: nat | i < n && acts[i].Submit? && (!acts[i].hasTask || ws[i].svc.shuttingDown)
  }

  /** The rejected counter counts exactly those. */
  lemma {:induction false} RejectedCountsRejections(ws: seq<World>, acts: seq<Action>, n: nat)
    requires IsRun(ws, acts) && n < |ws|
    ensures ws[n].svc.metrics.rejected == |Rejections(ws, acts, n)|
  {
    if n > 0 {
      RejectedCountsRejections(ws, acts, n - 1);
      assert ws[n - 1 + 1] == Next(ws[n - 1], acts[n - 1]);
      var before, a := Rejections(ws, acts, n - 1), acts[n - 1];
      if a.Submit? && (!a.hasTask || ws[n - 1].svc.shuttingDown) {
        assert Rejections(ws, acts, n) == before + {n - 1};
      } else {
        assert Rejections(ws, acts, n) == before;
      }
    } else {
      assert Rejections(ws, acts, 0) == {};
    }
  }
}
