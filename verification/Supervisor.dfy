/** The multi-process supervisor (src/multiprocess_runtime.cpp): launching with rollback, restarting within a budget.
    The launcher may fail or refuse at any time; a process it does start carries the name and role of its spec
    and an id that no tracked child has. The transport is not part of this model. */
module Supervisor {
  import opened Sequences

  datatype Role = Primary | Frontend | Backend | Worker | Service | Unknown

  datatype ProcessSpec = ProcessSpec(name: string, role: Role, autoRestart: bool, maxRestartAttempts: nat)

  datatype Identity = Identity(pid: nat, name: string, role: Role)

  datatype HandshakeState = NotStarted | Spawned | HelloReceived | Ready | Failed | TimedOut

  function Pids(children: seq<Identity>): set<nat> {
    set c | c in children :: c.pid
  }

  ghost predicate DistinctPids(children: seq<Identity>) {
    forall i, j :: 0 <= i < j < |children| ==> children[i].pid != children[j].pid
  }

  ghost predicate UniqueNames(nodes: seq<ProcessSpec>) {
    forall i, j :: 0 <= i < j < |nodes| ==> nodes[i].name != nodes[j].name
  }

  // ---------- the table as a subsequence of the topology ----------

  /** The (name, role) pairs of the table. */
  function Labels(children: seq<Identity>): seq<(string, Role)> {
    seq(|children|, i requires 0 <= i < |children| => (children[i].name, children[i].role))
  }

  ghost predicate Rising(slots: seq<nat>) {
    forall i, j :: 0 <= i < j < |slots| ==> slots[i] < slots[j]
  }

  ghost predicate IsNode(nodes: seq<ProcessSpec>, k: nat, who: (string, Role)) {
    k < |nodes| && nodes[k].role != Primary && who == (nodes[k].name, nodes[k].role)
  }

  /** `labels` are those of the non-primary nodes at the rising positions `slots`. */
  ghost predicate FollowsTopology(nodes: seq<ProcessSpec>, labels: seq<(string, Role)>, slots: seq<nat>) {
    && |slots| == |labels| && Rising(slots)
    && forall i :: 0 <= i < |labels| ==> IsNode(nodes, slots[i], labels[i])
  }

  function WithoutIndex<T>(s: seq<T>, i: nat): seq<T>
    requires i < |s|
  {
    s[..i] + s[i + 1..]
  }

  // ---------- budgets ----------

  function CountOf(restarts: map<string, nat>, name: string): nat {
    if name in restarts then restarts[name] else 0
  }

  function SumRestarts(nodes: seq<ProcessSpec>, restarts: map<string, nat>): nat {
    if nodes == [] then 0
    else SumRestarts(nodes[..|nodes| - 1], restarts) + CountOf(restarts, nodes[|nodes| - 1].name)
  }

  function Budget(node: ProcessSpec): nat {
    if node.autoRestart then node.maxRestartAttempts else 0
  }

  function SumBudgets(nodes: seq<ProcessSpec>): nat {
    if nodes == [] then 0 else SumBudgets(nodes[..|nodes| - 1]) + Budget(nodes[|nodes| - 1])
  }

  function NonPrimaryCount(nodes: seq<ProcessSpec>): nat {
    if nodes == [] then 0
    else NonPrimaryCount(nodes[..|nodes| - 1]) + if nodes[|nodes| - 1].role == Primary then 0 else 1
  }

  ghost predicate WithinBudgets(nodes: seq<ProcessSpec>, restarts: map<string, nat>) {
    forall k :: 0 <= k < |nodes| ==> CountOf(restarts, nodes[k].name) <= Budget(nodes[k])
  }

  lemma {:induction false} SumAfterRestart(nodes: seq<ProcessSpec>, restarts: map<string, nat>, k: nat)
    requires UniqueNames(nodes) && k < |nodes|
    ensures SumRestarts(nodes, restarts[nodes[k].name := CountOf(restarts, nodes[k].name) + 1])
         == SumRestarts(nodes, restarts) + 1
  {
    var n := |nodes| - 1;
    var after := restarts[nodes[k].name := CountOf(restarts, nodes[k].name) + 1];
    if k < n {
      assert nodes[..n][k] == nodes[k];
      SumAfterRestart(nodes[..n], restarts, k);
    } else {
      SumUnchanged(nodes[..n], restarts, nodes[k].name, CountOf(restarts, nodes[k].name) + 1);
    }
  }

  lemma {:induction false} SumUnchanged(nodes: seq<ProcessSpec>, restarts: map<string, nat>, name: string, count: nat)
    requires forall k :: 0 <= k < |nodes| ==> nodes[k].name != name
    ensures SumRestarts(nodes, restarts[name := count]) == SumRestarts(nodes, restarts)
  {
    if nodes != [] {
      SumUnchanged(nodes[..|nodes| - 1], restarts, name, count);
    }
  }

  lemma {:induction false} SumWithinBudgets(nodes: seq<ProcessSpec>, restarts: map<string, nat>)
    requires WithinBudgets(nodes, restarts)
    ensures SumRestarts(nodes, restarts) <= SumBudgets(nodes)
  {
    if nodes != [] {
      var before := nodes[..|nodes| - 1];
      assert forall k :: 0 <= k < |before| ==> before[k] == nodes[k];
      SumWithinBudgets(before, restarts);
    }
  }

  lemma {:induction false} SumOfZeros(nodes: seq<ProcessSpec>, restarts: map<string, nat>)
    requires forall name :: name in restarts ==> restarts[name] == 0
    ensures SumRestarts(nodes, restarts) == 0
  {
    if nodes != [] {
      SumOfZeros(nodes[..|nodes| - 1], restarts);
    }
  }

  // ---------- what the table keeps ----------

  /** Ids are distinct, whoever runs is tracked, and each tracked child has a handshake and a heartbeat entry.
      Entries of children that were restarted may linger. */
  ghost predicate Tracks(children: seq<Identity>, handshakes: map<nat, HandshakeState>, heartbeats: map<nat, nat>,
                         live: set<nat>) {
    && DistinctPids(children)
    && live <= Pids(children)
    && Pids(children) <= handshakes.Keys
    && Pids(children) <= heartbeats.Keys
  }

  /** The children whose ids are in `pids`, in order. */
  function Keep(children: seq<Identity>, pids: set<nat>): seq<Identity> {
    if children == [] then []
    else (if children[0].pid in pids then [children[0]] else []) + Keep(children[1..], pids)
  }

  function PidList(children: seq<Identity>): seq<nat> {
    seq(|children|, i requires 0 <= i < |children| => children[i].pid)
  }

  /** What is known about the children at one moment. */
  datatype Snapshot = Snapshot(children: seq<Identity>, handshakes: map<nat, HandshakeState>, heartbeats: map<nat, nat>,
                               restarts: map<string, nat>, live: set<nat>)

  function EntryOf<V>(m: map<nat, V>, pid: nat): Option<V> {
    if pid in m then Some(m[pid]) else None
  }

  /** The child at position `j` keeps its process, which runs or not as before, its restart count and its entries. */
  ghost predicate LeftAlone(before: Snapshot, after: Snapshot, j: nat)
    requires j < |before.children|
  {
    var child := before.children[j];
    && j < |after.children| && after.children[j] == child
    && CountOf(after.restarts, child.name) == CountOf(before.restarts, child.name)
    && (child.pid in after.live <==> child.pid in before.live)
    && EntryOf(after.handshakes, child.pid) == EntryOf(before.handshakes, child.pid)
    && EntryOf(after.heartbeats, child.pid) == EntryOf(before.heartbeats, child.pid)
  }

  ghost predicate SameLabels(before: Snapshot, after: Snapshot) {
    Labels(after.children) == Labels(before.children) && |after.children| == |before.children|
  }

  /** Names and roles stay, and all children but the one at `i` are left alone. */
  ghost predicate OnlyTouches(before: Snapshot, after: Snapshot, i: nat) {
    && SameLabels(before, after)
    && forall j :: 0 <= j < |before.children| && j != i ==> LeftAlone(before, after, j)
  }

  /** Of the first `n` children only the `wanted` ones, and of the others none, may have changed. */
  ghost predicate Spares(before: Snapshot, after: Snapshot, n: nat, wanted: seq<nat>) {
    && SameLabels(before, after)
    && forall j :: 0 <= j < |before.children| && (j >= n || before.children[j].pid !in wanted) ==>
         LeftAlone(before, after, j)
  }

  /** The two maps hold entries for exactly the children in the table. */
  ghost predicate MapsMatch(v: Snapshot) {
    v.handshakes.Keys == Pids(v.children) && v.heartbeats.Keys == Pids(v.children)
  }

  /** A call of LaunchChild and the process it brought, if any. */
  datatype Launch = Launch(node: ProcessSpec, child: Option<Identity>)

  /** A restart that used up an attempt: whether the old process agreed to stop, and what the launch then brought. */
  datatype Restart = Restart(pid: nat, agreed: bool, child: Option<Identity>)

  /** The nodes that are launched, in topology order. */
  function ToLaunch(nodes: seq<ProcessSpec>): seq<ProcessSpec> {
    if nodes == [] then []
    else ToLaunch(nodes[..|nodes| - 1]) + if nodes[|nodes| - 1].role == Primary then [] else [nodes[|nodes| - 1]]
  }

  /** Every node that is launched got its process. */
  ghost predicate LaunchesFit(nodes: seq<ProcessSpec>, log: seq<Launch>, launched: seq<Identity>) {
    && |log| == |launched| == |ToLaunch(nodes)|
    && forall k :: 0 <= k < |log| ==> log[k] == Launch(ToLaunch(nodes)[k], Some(launched[k]))
  }

  /** Nodes were launched in order until the first launch that brought nothing, if there was one. */
  ghost predicate LaunchedInOrder(nodes: seq<ProcessSpec>, log: seq<Launch>, launched: seq<Identity>, ok: bool) {
    && |log| <= |ToLaunch(nodes)| && (ok ==> |log| == |ToLaunch(nodes)|)
    && (forall k :: 0 <= k < |log| ==> log[k].node == ToLaunch(nodes)[k])
    && |launched| == |log| - (if ok then 0 else 1)
    && (forall k :: 0 <= k < |launched| ==> log[k].child == Some(launched[k]))
    && (!ok ==> log[|log| - 1].child == None)
  }

  /** What was asked of the launcher, and what it answered. */
  datatype Ledger = Ledger(stopCalls: seq<nat>, refusals: seq<nat>, launchLog: seq<Launch>, launches: nat)

  /** The slot of `was` after its restart: the process that was launched, running; or the old one, which runs only if
      it ran before and was not stopped. */
  ghost predicate SlotAfter(was: Identity, before: Snapshot, after: Snapshot, j: nat, r: Restart) {
    && j < |after.children|
    && after.children[j] == (if r.child.Some? then r.child.value else was)
    && (after.children[j].pid in after.live <==> r.child.Some? || (!r.agreed && was.pid in before.live))
  }

  ghost predicate LaunchedSince(before: seq<Launch>, after: seq<Launch>, child: Option<Identity>) {
    exists l :: |before| <= l < |after| && after[l].child == child
  }

  /** One attempt to restart `was`: a launcher is asked to stop it; if it agrees, exactly one launch follows. */
  ghost predicate IsAttempt(hasLauncher: bool, was: Identity, before: Ledger, after: Ledger, r: Restart) {
    && r.pid == was.pid && (!r.agreed ==> r.child.None?)
    && if !hasLauncher then after == before && !r.agreed
       else
         && after.stopCalls == before.stopCalls + [was.pid]
         && after.refusals == before.refusals + (if r.agreed then [] else [was.pid])
         && after.launches == before.launches + (if r.agreed then 1 else 0)
         && before.launchLog <= after.launchLog
         && |after.launchLog| == |before.launchLog| + (if r.agreed then 1 else 0)
         && (r.agreed ==>
               var last := after.launchLog[|before.launchLog|];
               last.child == r.child && last.node.name == was.name && last.node.role == was.role)
  }

  /** In terms of the ledger since `before`: whether `pid` agreed to stop, and that its launch is on record. */
  ghost predicate IsAnswered(hasLauncher: bool, pid: nat, before: Ledger, after: Ledger, r: Restart) {
    && r.pid == pid && (!r.agreed ==> r.child.None?)
    && before.refusals <= after.refusals
    && (r.agreed <==> hasLauncher && pid !in after.refusals[|before.refusals|..])
    && (r.agreed ==> LaunchedSince(before.launchLog, after.launchLog, r.child))
  }

  /** What became of the `wanted` children. */
  ghost predicate Outcomes(hasLauncher: bool, before: Snapshot, books: Ledger, after: Snapshot, books': Ledger,
                           wanted: seq<nat>, done: seq<Restart>) {
    && |done| == |wanted|
    && books.launchLog <= books'.launchLog && books.refusals <= books'.refusals
    && (hasLauncher ==>
          |books'.launchLog| + |books'.refusals| == |books.launchLog| + |books.refusals| + |wanted|)
    && (forall pid :: pid in books'.refusals[|books.refusals|..] ==> pid in wanted)
    && (forall k :: 0 <= k < |done| ==> IsAnswered(hasLauncher, wanted[k], books, books', done[k]))
    && (forall j, k :: 0 <= j < |before.children| && 0 <= k < |done| && before.children[j].pid == wanted[k] ==>
          SlotAfter(before.children[j], before, after, j, done[k]))
  }

  class MultiprocessRuntime {
    const nodes: seq<ProcessSpec>
    const isMultiProcess: bool
    const hasLauncher: bool
    var children: seq<Identity>
    var handshakes: map<nat, HandshakeState>
    var heartbeats: map<nat, nat>
    var restarts: map<string, nat>
    var running: bool
    /** positions of the children in the topology */
    ghost var slots: seq<nat>
    /** since the table was last emptied: calls of LaunchChild, and ids started and not successfully stopped */
    ghost var launches: nat
    ghost var live: set<nat>
    /** ids still running when the table was emptied under them */
    ghost var abandoned: set<nat>
    /** every call of StopChild, and those that were refused */
    ghost var stopCalls: seq<nat>
    ghost var refusals: seq<nat>
    /** every call of LaunchChild */
    ghost var launchLog: seq<Launch>
    /** since the table was last emptied: the ticks that asked for a restart */
    ghost var restartingTicks: nat

    ghost predicate Valid()
      reads this
    {
      && UniqueNames(nodes)
      && Tracks(children, handshakes, heartbeats, live)
      && FollowsTopology(nodes, Labels(children), slots)
      && WithinBudgets(nodes, restarts)
      && launches <= NonPrimaryCount(nodes) + SumRestarts(nodes, restarts)
      && restartingTicks <= SumRestarts(nodes, restarts)
    }

    ghost function Books(): Ledger
      reads this
    {
      Ledger(stopCalls, refusals, launchLog, launches)
    }

    ghost function View(): Snapshot
      reads this
    {
      Snapshot(children, handshakes, heartbeats, restarts, live)
    }

    constructor (topology: seq<ProcessSpec>, multiProcess: bool, launcher: bool)
      requires UniqueNames(topology)
      ensures Valid() && !running && children == [] && nodes == topology && abandoned == {}
    {
      nodes, isMultiProcess, hasLauncher := topology, multiProcess, launcher;
      children, handshakes, heartbeats, restarts, running := [], map[], map[], map[], false;
      slots, launches, live, abandoned, stopCalls := [], 0, {}, {}, [];
      refusals, restartingTicks, launchLog := [], 0, [];
    }

    // ---------- the launcher ----------

    /** What a launch brings: nothing, or a running process. */
    method LaunchChild(node: ProcessSpec) returns (child: Option<Identity>)
      modifies this`launches, this`launchLog, this`live
      ensures launches == old(launches) + 1 && launchLog == old(launchLog) + [Launch(node, child)]
      ensures child.None? ==> live == old(live)
      ensures child.Some? ==>
                && child.value.name == node.name && child.value.role == node.role
                && child.value.pid !in Pids(children) && live == old(live) + {child.value.pid}
    {
      launches := launches + 1;
      var starts: bool := *;
      if !starts {
        launchLog := launchLog + [Launch(node, None)];
        return None;
      }
      ghost var unused := FreshPid(Pids(children));
      var pid: nat :| pid !in Pids(children);
      live := live + {pid};
      child := Some(Identity(pid, node.name, node.role));
      launchLog := launchLog + [Launch(node, child)];
    }

    method StopChild(child: Identity) returns (stopped: bool)
      modifies this`live, this`stopCalls, this`refusals
      ensures stopCalls == old(stopCalls) + [child.pid]
      ensures refusals == old(refusals) + if stopped then [] else [child.pid]
      ensures live == if stopped then old(live) - {child.pid} else old(live)
    {
      stopCalls := stopCalls + [child.pid];
      stopped := *;
      if stopped {
        live := live - {child.pid};
      } else {
        refusals := refusals + [child.pid];
      }
    }

    // ---------- start ----------

    /** src/multiprocess_runtime.cpp:215-218 */
    method ForgetChildren()
      requires UniqueNames(nodes)
      modifies this`children, this`handshakes, this`heartbeats, this`restarts, this`slots, this`launches, this`live,
               this`abandoned, this`restartingTicks
      ensures Valid() && children == [] && handshakes == map[] && heartbeats == map[] && restarts == map[]
      ensures launches == restartingTicks == 0 && live == {} && abandoned == old(abandoned) + old(live)
    {
      children, handshakes, heartbeats, restarts := [], map[], map[], map[];
      abandoned := abandoned + live;
      slots, launches, live, restartingTicks := [], 0, {}, 0;
    }

    /** src/multiprocess_runtime.cpp:294-310: an existing or a new entry takes the state. */
    method SetChildHandshakeState(pid: nat, state: HandshakeState)
      requires Valid()
      modifies this`handshakes
      ensures Valid() && handshakes == old(handshakes)[pid := state]
    {
      handshakes := handshakes[pid := state];
    }

    /** src/multiprocess_runtime.cpp:329-330 */
    method RecordHeartbeat(pid: nat)
      requires Valid()
      modifies this`heartbeats
      ensures Valid()
      ensures heartbeats == old(heartbeats)[pid := 1 + if pid in old(heartbeats) then old(heartbeats)[pid] else 0]
    {
      heartbeats := heartbeats[pid := (if pid in heartbeats then heartbeats[pid] else 0) + 1];
    }

    /** The first `n` nodes are launched and nothing failed so far. */
    ghost predicate LaunchedUpTo(n: nat)
      reads this
      requires n <= |nodes|
    {
      && Valid()
      && FollowsTopology(nodes[..n], Labels(children), slots)
      && Labels(children) == NonPrimaryLabels(nodes[..n])
      && live == Pids(children) == handshakes.Keys == heartbeats.Keys
      && (forall name :: name in restarts ==> restarts[name] == 0)
      && launches == NonPrimaryCount(nodes[..n]) && restartingTicks == 0
    }

    /** src/multiprocess_runtime.cpp:285-288 */
    method AddChild(child: Identity, ghost n: nat)
      requires n < |nodes| && nodes[n].role != Primary && child.name == nodes[n].name && child.role == nodes[n].role
      requires UniqueNames(nodes) && DistinctPids(children) && child.pid !in Pids(children)
      requires FollowsTopology(nodes[..n], Labels(children), slots)
      requires Labels(children) == NonPrimaryLabels(nodes[..n])
      requires Pids(children) == handshakes.Keys == heartbeats.Keys && live == Pids(children) + {child.pid}
      requires forall name :: name in restarts ==> restarts[name] == 0
      requires launches == NonPrimaryCount(nodes[..n]) + 1 && restartingTicks == 0
      modifies this`children, this`handshakes, this`heartbeats, this`restarts, this`slots
      ensures LaunchedUpTo(n + 1) && children == old(children) + [child]
    {
      TableAppend(nodes, children, slots, child, n);
      children, slots := children + [child], slots + [n];
      handshakes := handshakes[child.pid := Spawned];
      heartbeats := heartbeats[child.pid := 0];
      restarts := restarts[child.name := 0];
      SumOfZeros(nodes, restarts);
      NonPrimaryPrefix(nodes, n + 1);
    }

    /** src/multiprocess_runtime.cpp:214-292; `launched` are the children that were started. Succeeds exactly if every
        launch brought a process, or there is neither a launcher nor a node. */
    method LaunchChildren() returns (ok: bool, ghost launched: seq<Identity>)
      requires UniqueNames(nodes)
      modifies this`children, this`handshakes, this`heartbeats, this`restarts, this`slots, this`launches,
               this`launchLog, this`live, this`abandoned, this`stopCalls, this`refusals, this`restartingTicks
      ensures Valid() && abandoned == old(abandoned) + old(live)
      ensures !hasLauncher ==> (ok <==> nodes == []) && children == launched == [] && stopCalls == old(stopCalls)
      ensures !hasLauncher ==> launchLog == old(launchLog)
      ensures ok && hasLauncher ==>
                && children == launched && Labels(launched) == NonPrimaryLabels(nodes)
                && live == Pids(children) && stopCalls == old(stopCalls)
      ensures !ok && hasLauncher ==> RolledBack(launched, old(stopCalls))
      ensures hasLauncher ==>
                && old(launchLog) <= launchLog
                && LaunchedInOrder(nodes, launchLog[|old(launchLog)|..], launched, ok)
                && (ok <==> forall k :: |old(launchLog)| <= k < |launchLog| ==> launchLog[k].child.Some?)
    {
      ForgetChildren();
      launched := [];
      if !hasLauncher {
        return nodes == [], [];
      }
      ok, launched := LaunchEach();
      AllBrought(nodes, launchLog, |old(launchLog)|, launched, ok);
    }

    /** src/multiprocess_runtime.cpp:269-291 */
    method LaunchEach() returns (ok: bool, ghost launched: seq<Identity>)
      requires LaunchedUpTo(0) && children == []
      modifies this`children, this`handshakes, this`heartbeats, this`restarts, this`slots, this`launches,
               this`launchLog, this`live, this`stopCalls, this`refusals
      ensures Valid()
      ensures ok ==>
                && children == launched && Labels(launched) == NonPrimaryLabels(nodes)
                && live == Pids(children) && stopCalls == old(stopCalls)
      ensures !ok ==> RolledBack(launched, old(stopCalls))
      ensures old(launchLog) <= launchLog && LaunchedInOrder(nodes, launchLog[|old(launchLog)|..], launched, ok)
    {
      launched := [];
      for n := 0 to |nodes|
        invariant LaunchedUpTo(n) && children == launched && stopCalls == old(stopCalls)
        invariant old(launchLog) <= launchLog && LaunchesFit(nodes[..n], launchLog[|old(launchLog)|..], launched)
      {
        ghost var log := launchLog;
        ok := LaunchNode(n);
        LaunchNext(nodes, n, old(launchLog), log, launchLog, launched, children, ok);
        if !ok {
          return;
        }
        launched := children;
      }
      assert nodes[..|nodes|] == nodes;
      ok := true;
    }

    /** src/multiprocess_runtime.cpp:270-288, for one node */
    method LaunchNode(n: nat) returns (ok: bool)
      requires n < |nodes| && LaunchedUpTo(n)
      modifies this`children, this`handshakes, this`heartbeats, this`restarts, this`slots, this`launches,
               this`launchLog, this`live, this`stopCalls, this`refusals
      ensures ok ==> LaunchedUpTo(n + 1) && stopCalls == old(stopCalls)
      ensures !ok ==> Valid() && RolledBack(old(children), old(stopCalls))
      ensures nodes[n].role == Primary ==> ok && launchLog == old(launchLog) && children == old(children)
      ensures nodes[n].role != Primary ==>
                exists child ::
                  && launchLog == old(launchLog) + [Launch(nodes[n], child)] && (ok <==> child.Some?)
                  && (ok ==> children == old(children) + [child.value])
    {
      if nodes[n].role == Primary {
        SkipPrimary(nodes, Labels(children), slots, n);
        return true;
      }
      ok := LaunchOne(n);
    }

    /** src/multiprocess_runtime.cpp:274-288 */
    method LaunchOne(n: nat) returns (ok: bool)
      requires n < |nodes| && LaunchedUpTo(n) && nodes[n].role != Primary
      modifies this`children, this`handshakes, this`heartbeats, this`restarts, this`slots, this`launches,
               this`launchLog, this`live, this`stopCalls, this`refusals
      ensures ok ==> LaunchedUpTo(n + 1) && stopCalls == old(stopCalls)
      ensures !ok ==> Valid() && RolledBack(old(children), old(stopCalls))
      ensures exists child ::
                && launchLog == old(launchLog) + [Launch(nodes[n], child)] && (ok <==> child.Some?)
                && (ok ==> children == old(children) + [child.value])
    {
      NonPrimaryPrefix(nodes, n + 1);
      assert nodes[..n + 1][..n] == nodes[..n];
      var child := LaunchChild(nodes[n]);
      if child.None? {
        Rollback(n);
        return false;
      }
      AddChild(child.value, n);
      ok := true;
    }

    /** After a launch that failed midway: one StopChild for each started child, last one first; left in the table
        are those whose stop failed, in launch order, with fresh entries for exactly them. */
    ghost predicate RolledBack(launched: seq<Identity>, stopsBefore: seq<nat>)
      reads this
    {
      && stopCalls == stopsBefore + Reverse(PidList(launched))
      && children == Keep(launched, live)
      && live == Pids(children) == handshakes.Keys == heartbeats.Keys
      && (forall pid :: pid in handshakes ==> handshakes[pid] == Spawned)
      && (forall pid :: pid in heartbeats ==> heartbeats[pid] == 0)
    }

    /** src/multiprocess_runtime.cpp:234-267 */
    method Rollback(ghost n: nat)
      requires n < |nodes| && UniqueNames(nodes) && DistinctPids(children) && live == Pids(children)
      requires FollowsTopology(nodes[..n], Labels(children), slots)
      requires launches <= NonPrimaryCount(nodes) && restartingTicks == 0
      modifies this`children, this`handshakes, this`heartbeats, this`restarts, this`slots, this`live, this`stopCalls,
               this`refusals
      ensures Valid() && RolledBack(old(children), old(stopCalls))
    {
      KeepRefusing(n);
      ResetEntries();
      SumOfZeros(nodes, restarts);
    }

    /** src/multiprocess_runtime.cpp:235-253 */
    method KeepRefusing(ghost n: nat)
      requires n < |nodes| && DistinctPids(children) && live == Pids(children)
      requires FollowsTopology(nodes[..n], Labels(children), slots)
      modifies this`children, this`slots, this`live, this`stopCalls, this`refusals
      ensures stopCalls == old(stopCalls) + Reverse(PidList(old(children)))
      ensures children == Keep(old(children), live) && live == Pids(children)
      ensures DistinctPids(children) && FollowsTopology(nodes, Labels(children), slots)
    {
      var failed := StopAllBackwards();
      ghost var kept := KeepTable(nodes, n, children, slots, live);
      children, slots := failed, kept;
    }

    /** src/multiprocess_runtime.cpp:235-241 and 252 */
    method StopAllBackwards() returns (failed: seq<Identity>)
      requires DistinctPids(children) && live == Pids(children)
      modifies this`live, this`stopCalls, this`refusals
      ensures stopCalls == old(stopCalls) + Reverse(PidList(children))
      ensures live <= Pids(children) && failed == Keep(children, live)
    {
      var refused: seq<Identity> := [];
      for i := |children| downto 0
        invariant stopCalls == old(stopCalls) + Reverse(PidList(children[i..]))
        invariant live <= Pids(children) && (forall j :: 0 <= j < i ==> children[j].pid in live)
        invariant Reverse(refused) == Keep(children[i..], live)
      {
        var child := children[i];
        ghost var before := live;
        var stopped := StopChild(child);
        PidListCons(children, i);
        KeepFrame(children, i, before, live);
        if !stopped {
          ReverseAppend(refused, child);
          refused := refused + [child];
        }
      }
      assert children[0..] == children;
      failed := Reverse(refused);
    }

    /** src/multiprocess_runtime.cpp:243-264 */
    method ResetEntries()
      modifies this`handshakes, this`heartbeats, this`restarts
      ensures handshakes.Keys == heartbeats.Keys == Pids(children)
      ensures forall pid :: pid in handshakes ==> handshakes[pid] == Spawned
      ensures forall pid :: pid in heartbeats ==> heartbeats[pid] == 0
      ensures forall name :: name in restarts ==> restarts[name] == 0
    {
      handshakes, heartbeats, restarts := map[], map[], map[];
      for i := 0 to |children|
        invariant EntriesFor(children[..i])
      {
        PidsAppend(children[..i], children[i]);
        assert children[..i + 1] == children[..i] + [children[i]];
        ResetEntry(children[i]);
      }
      assert children[..|children|] == children;
    }

    ghost predicate EntriesFor(cs: seq<Identity>)
      reads this
    {
      && handshakes.Keys == heartbeats.Keys == Pids(cs)
      && (forall pid :: pid in handshakes ==> handshakes[pid] == Spawned)
      && (forall pid :: pid in heartbeats ==> heartbeats[pid] == 0)
      && (forall name :: name in restarts ==> restarts[name] == 0)
    }

    /** src/multiprocess_runtime.cpp:255-263 */
    method ResetEntry(child: Identity)
      modifies this`handshakes, this`heartbeats, this`restarts
      ensures handshakes == old(handshakes)[child.pid := Spawned]
      ensures heartbeats == old(heartbeats)[child.pid := 0]
      ensures restarts == old(restarts) || restarts == old(restarts)[child.name := 0]
    {
      handshakes := handshakes[child.pid := Spawned];
      heartbeats := heartbeats[child.pid := 0];
      var k := FindProcessSpec(child.name, child.role);
      if k.Some? {
        restarts := restarts[nodes[k.value].name := 0];
      }
    }

    /** src/multiprocess_runtime.cpp:379-388 */
    method FindProcessSpec(name: string, role: Role) returns (k: Option<nat>)
      ensures k.Some? ==> k.value < |nodes| && nodes[k.value].name == name && nodes[k.value].role == role
      ensures k.None? ==> forall i :: 0 <= i < |nodes| ==> nodes[i].name != name || nodes[i].role != role
    {
      for i := 0 to |nodes|
        invariant forall j :: 0 <= j < i ==> nodes[j].name != name || nodes[j].role != role
      {
        if nodes[i].name == name && nodes[i].role == role {
          return Some(i);
        }
      }
      k := None;
    }

    /** src/multiprocess_runtime.cpp:81-117. A failed start leaves the runtime stopped. */
    method Start() returns (ok: bool, ghost launched: seq<Identity>)
      requires Valid()
      modifies this
      ensures Valid()
      ensures old(running) ==> !ok && children == old(children) && stopCalls == old(stopCalls)
      ensures running == (old(running) || ok)
      ensures ok && isMultiProcess && hasLauncher ==>
                && children == launched && Labels(launched) == NonPrimaryLabels(nodes) && live == Pids(children)
      ensures !ok && !old(running) && hasLauncher ==> RolledBack(launched, old(stopCalls))
      ensures !old(running) && isMultiProcess && hasLauncher ==>
                && old(launchLog) <= launchLog
                && LaunchedInOrder(nodes, launchLog[|old(launchLog)|..], launched, ok)
                && (ok <==> forall k :: |old(launchLog)| <= k < |launchLog| ==> launchLog[k].child.Some?)
      ensures !old(running) && isMultiProcess && !hasLauncher ==> (ok <==> nodes == []) && launchLog == old(launchLog)
      ensures !old(running) && !isMultiProcess ==> ok && launchLog == old(launchLog)
      ensures !old(running) && isMultiProcess ==> abandoned == old(abandoned) + old(live)
    {
      launched := [];
      if running {
        return false, [];
      }
      if isMultiProcess {
        ok, launched := LaunchChildren();
        if !ok {
          return;
        }
      }
      running, ok := true, true;
    }

    // ---------- stop ----------

    method FindChild(pid: nat) returns (i: Option<nat>)
      ensures i.Some? ==> i.value < |children| && children[i.value].pid == pid
      ensures i.None? <==> pid !in Pids(children)
    {
      for k := 0 to |children|
        invariant forall j :: 0 <= j < k ==> children[j].pid != pid
      {
        if children[k].pid == pid {
          return Some(k);
        }
      }
      i := None;
    }

    /** src/multiprocess_runtime.cpp:412-450. Only a successful stop shortens the table. */
    method GracefulStopChild(pid: nat) returns (ok: bool)
      requires Valid()
      modifies this`children, this`handshakes, this`heartbeats, this`slots, this`live, this`stopCalls, this`refusals
      ensures Valid()
      ensures ok ==> exists i :: 0 <= i < |old(children)| && old(children)[i].pid == pid
                                 && children == WithoutIndex(old(children), i)
                                 && slots == WithoutIndex(old(slots), i)
      ensures ok ==> pid !in live && pid !in Pids(children) && pid !in handshakes && pid !in heartbeats
      ensures !ok ==> children == old(children) && slots == old(slots)
      ensures live == if ok then old(live) - {pid} else old(live)
      ensures ok ==> hasLauncher
      ensures stopCalls == old(stopCalls) + if hasLauncher && pid in Pids(old(children)) then [pid] else []
      ensures refusals == old(refusals) + if hasLauncher && pid in Pids(old(children)) && !ok then [pid] else []
    {
      if !hasLauncher {
        return false;
      }
      var found := FindChild(pid);
      if found.None? {
        return false;
      }
      var i := found.value;
      var identity := children[i];
      var stopped := StopChild(identity);
      if !stopped {
        return false;
      }
      RemoveTracked(children, i);
      FollowsRemove(nodes, children, slots, i);
      children, slots := WithoutIndex(children, i), WithoutIndex(slots, i);
      handshakes := handshakes - {identity.pid};
      heartbeats := heartbeats - {identity.pid};
      ok := true;
    }

    /** src/multiprocess_runtime.cpp:154-177. The table is emptied even if children refuse to stop; abandoned are
        exactly the running ones among the `refused`, and without a launcher all that run. */
    method StopAll() returns (ghost refused: seq<nat>)
      requires Valid()
      modifies this
      ensures Valid() && !running && children == [] && live == {}
      ensures handshakes == map[] && heartbeats == map[] && restarts == map[]
      ensures hasLauncher ==> stopCalls == old(stopCalls) + PidList(old(children))
      ensures !hasLauncher ==> stopCalls == old(stopCalls) && refused == PidList(old(children))
      ensures refusals == old(refusals) + if hasLauncher then refused else []
      ensures abandoned == old(abandoned) + set pid | pid in old(live) && pid in refused
    {
      ghost var before, live0 := children, live;
      refused := StopEach(PidList(children));
      LiveAfterAll(live0, before, refused);
      ForgetChildren();
      running := false;
    }

    /** src/multiprocess_runtime.cpp:161-163 */
    method StopEach(pids: seq<nat>) returns (ghost refused: seq<nat>)
      requires Valid() && pids == PidList(children)
      modifies this`children, this`handshakes, this`heartbeats, this`slots, this`live, this`stopCalls, this`refusals
      ensures Valid()
      ensures StopsSoFar(pids, |pids|, refused, old(live), old(stopCalls), old(refusals))
    {
      ghost var before := children;
      refused := [];
      PidListMembers(children);
      for i := 0 to |pids|
        invariant Valid()
        invariant forall j :: i <= j < |pids| ==> pids[j] in Pids(children)
        invariant StopsSoFar(pids, i, refused, old(live), old(stopCalls), old(refusals))
      {
        refused := StopNext(pids, i, refused, before, old(live), old(stopCalls), old(refusals));
      }
    }

    /** The first `i` of `pids` were told to stop, and `refused` are those that did not. */
    ghost predicate StopsSoFar(pids: seq<nat>, i: nat, refused: seq<nat>, live0: set<nat>, stops0: seq<nat>,
                               refusals0: seq<nat>)
      requires i <= |pids|
      reads this
    {
      && live == LiveAfter(live0, pids, i, refused)
      && stopCalls == stops0 + (if hasLauncher then pids[..i] else [])
      && refusals == refusals0 + (if hasLauncher then refused else [])
      && (!hasLauncher ==> refused == pids[..i])
      && forall pid :: pid in refused ==> pid in pids[..i]
    }

    method StopNext(pids: seq<nat>, i: nat, ghost refused0: seq<nat>, ghost before: seq<Identity>,
                    ghost live0: set<nat>, ghost stops0: seq<nat>, ghost refusals0: seq<nat>)
      returns (ghost refused: seq<nat>)
      requires Valid() && DistinctPids(before) && pids == PidList(before) && i < |pids|
      requires forall j :: i <= j < |pids| ==> pids[j] in Pids(children)
      requires StopsSoFar(pids, i, refused0, live0, stops0, refusals0)
      modifies this`children, this`handshakes, this`heartbeats, this`slots, this`live, this`stopCalls, this`refusals
      ensures Valid()
      ensures forall j :: i < j < |pids| ==> pids[j] in Pids(children)
      ensures StopsSoFar(pids, i + 1, refused, live0, stops0, refusals0)
    {
      ghost var was := children;
      var stopped := GracefulStopChild(pids[i]);
      refused := if stopped then refused0 else refused0 + [pids[i]];
      StillTracked(before, was, children, pids[i], i);
      DistinctPidList(before, i);
      LiveAfterStep(live0, pids, i, refused0, stopped);
      TakeNext(pids, i);
    }

    // ---------- restart ----------

    /** src/multiprocess_runtime.cpp:390-410. A restart that is let through leaves room for one more launch. */
    method ConsumeRestartBudget(i: nat) returns (ok: bool)
      requires Valid() && i < |children|
      modifies this`restarts
      ensures Valid()
      ensures ok ==> launches < NonPrimaryCount(nodes) + SumRestarts(nodes, restarts)
      ensures ok ==> var name := children[i].name;
                     restarts == old(restarts)[name := CountOf(old(restarts), name) + 1]
      ensures ok <==> HasBudget(nodes, old(restarts), children[i].name)
      ensures ok <==> exists k :: 0 <= k < |nodes| && nodes[k].name == children[i].name && nodes[k].autoRestart
                                  && (if nodes[k].name in old(restarts) then old(restarts)[nodes[k].name] else 0)
                                     < nodes[k].maxRestartAttempts
      ensures !ok ==> forall name :: CountOf(restarts, name) == CountOf(old(restarts), name)
      ensures SumRestarts(nodes, restarts) == SumRestarts(nodes, old(restarts)) + if ok then 1 else 0
    {
      var child := children[i];
      SlotOf(nodes, children, slots, i);
      BudgetOfNode(nodes, slots[i]);
      var found := FindProcessSpec(child.name, child.role);
      if found.None? {
        return false;
      }
      var k := found.value;
      if !nodes[k].autoRestart {
        return false;
      }
      var count := if child.name in restarts then restarts[child.name] else 0;
      if count >= nodes[k].maxRestartAttempts {
        CountsAlike(nodes, restarts, child.name, count);
        restarts := restarts[nodes[k].name := count];
        return false;
      }
      SumAfterRestart(nodes, restarts, k);
      restarts := restarts[nodes[k].name := count + 1];
      ok := true;
    }

    /** src/multiprocess_runtime.cpp:471-539. `old_identity` refers to the slot itself, so once the slot is overwritten
        the ids erased are those of the new process, and the entries of the old one stay behind. */
    method RelaunchChild(i: nat) returns (ok: bool)
      requires Valid() && i < |children|
      requires launches < NonPrimaryCount(nodes) + SumRestarts(nodes, restarts)
      modifies this`children, this`handshakes, this`heartbeats, this`launches, this`launchLog, this`live,
               this`stopCalls, this`refusals
      ensures Valid()
      ensures Labels(children) == Labels(old(children)) && old(launches) <= launches <= old(launches) + 1
      ensures stopCalls == old(stopCalls) + if hasLauncher then [old(children)[i].pid] else []
      ensures !ok ==> children == old(children) && handshakes == old(handshakes) && heartbeats == old(heartbeats)
      ensures !ok ==> live == old(live) || live == old(live) - {old(children)[i].pid}
      ensures ok ==>
                && children == old(children)[i := children[i]] && children[i].pid !in Pids(old(children))
                && live == old(live) - {old(children)[i].pid} + {children[i].pid}
                && handshakes == old(handshakes)[children[i].pid := Spawned]
                && heartbeats == old(heartbeats)[children[i].pid := 0]
      ensures MapsMatch(old(View())) ==> (MapsMatch(View()) <==> !ok)
      // a launcher that agrees to stop the child launches exactly one process for its node; the relaunch succeeds
      // exactly if that brings a process
      ensures refusals == old(refusals) || (hasLauncher && refusals == old(refusals) + [old(children)[i].pid])
      ensures hasLauncher && refusals == old(refusals) ==>
                && launches == old(launches) + 1 && |launchLog| == |old(launchLog)| + 1 && old(launchLog) <= launchLog
                && var last := launchLog[|old(launchLog)|];
                   && last.node in nodes
                   && last.node.name == old(children)[i].name && last.node.role == old(children)[i].role
                   && (ok <==> last.child.Some?) && (ok ==> last.child == Some(children[i]))
                   && (!ok ==> live == old(live) - {old(children)[i].pid})
      ensures !(hasLauncher && refusals == old(refusals)) ==>
                !ok && launches == old(launches) && launchLog == old(launchLog) && live == old(live)
    {
      if !hasLauncher {
        return false;
      }
      var stopped := StopChild(children[i]);
      if !stopped {
        return false;
      }
      ok := LaunchReplacement(i);
    }

    /** src/multiprocess_runtime.cpp:489-531, once the old process has stopped */
    method LaunchReplacement(i: nat) returns (ok: bool)
      requires i < |children| && UniqueNames(nodes) && FollowsTopology(nodes, Labels(children), slots)
      requires Tracks(children, handshakes, heartbeats, live) && children[i].pid !in live
      modifies this`children, this`handshakes, this`heartbeats, this`launches, this`launchLog, this`live
      ensures Tracks(children, handshakes, heartbeats, live) && Labels(children) == Labels(old(children))
      ensures !ok ==> children == old(children) && handshakes == old(handshakes) && heartbeats == old(heartbeats)
      ensures !ok ==> live == old(live)
      ensures ok ==>
                && children == old(children)[i := children[i]] && children[i].pid !in Pids(old(children))
                && live == old(live) + {children[i].pid}
                && handshakes == old(handshakes)[children[i].pid := Spawned]
                && heartbeats == old(heartbeats)[children[i].pid := 0]
      ensures MapsMatch(old(View())) && ok ==> !MapsMatch(View())
      ensures launches == old(launches) + 1
      ensures exists node, child ::
                && launchLog == old(launchLog) + [Launch(node, child)] && node in nodes
                && node.name == old(children)[i].name && node.role == old(children)[i].role
                && (ok <==> child.Some?) && (ok ==> child == Some(children[i]))
    {
      SlotOf(nodes, children, slots, i);
      var found := FindProcessSpec(children[i].name, children[i].role);
      var relaunched := LaunchChild(nodes[found.value]);
      if relaunched.None? {
        return false;
      }
      StaleEntryRemains(View(), i, relaunched.value);
      OverwriteSlot(i, relaunched.value);
      ok := true;
    }

    /** src/multiprocess_runtime.cpp:513-523 */
    method OverwriteSlot(i: nat, child: Identity)
      requires i < |children| && DistinctPids(children) && child.pid !in Pids(children)
      requires child.name == children[i].name && child.role == children[i].role
      requires Pids(children) <= handshakes.Keys && Pids(children) <= heartbeats.Keys
      requires live <= Pids(children) - {children[i].pid} + {child.pid}
      modifies this`children, this`handshakes, this`heartbeats
      ensures Tracks(children, handshakes, heartbeats, live)
      ensures children == old(children)[i := child] && Labels(children) == Labels(old(children))
      ensures handshakes == old(handshakes)[child.pid := Spawned]
      ensures heartbeats == old(heartbeats)[child.pid := 0]
    {
      ReplaceTracked(children, i, child);
      children := children[i := child];
      handshakes := handshakes - {children[i].pid};
      handshakes := handshakes[children[i].pid := Spawned];
      heartbeats := heartbeats - {children[i].pid};
      heartbeats := heartbeats[children[i].pid := 0];
    }

    /** src/multiprocess_runtime.cpp:460-464, for the child at position `i`; `r` is what came of the attempt. */
    method RestartAt(i: nat) returns (ok: bool, ghost r: Restart)
      requires Valid() && i < |children|
      modifies this`children, this`handshakes, this`heartbeats, this`restarts, this`launches, this`launchLog,
               this`live, this`stopCalls, this`refusals
      ensures Valid()
      ensures OnlyTouches(old(View()), View(), i)
      ensures var budget := HasBudget(nodes, old(restarts), old(children)[i].name);
              && (!budget ==> !ok && LeftAlone(old(View()), View(), i) && live == old(live) && Books() == old(Books()))
              && (budget ==> && IsAttempt(hasLauncher, old(children)[i], old(Books()), Books(), r)
                             && SlotAfter(old(children)[i], old(View()), View(), i, r)
                             && (ok <==> r.child.Some?))
              && Spent(old(stopCalls), old(launches), old(restarts), if budget then [old(children)[i].pid] else [])
              && CountOf(restarts, old(children)[i].name)
                 == CountOf(old(restarts), old(children)[i].name) + if budget then 1 else 0
      ensures ok ==>
                && children == old(children)[i := children[i]] && children[i].pid !in Pids(old(children))
                && live == old(live) - {old(children)[i].pid} + {children[i].pid}
                && handshakes == old(handshakes)[children[i].pid := Spawned]
                && heartbeats == old(heartbeats)[children[i].pid := 0]
      ensures !ok ==> children == old(children) && handshakes == old(handshakes) && heartbeats == old(heartbeats)
      ensures !ok ==> live == old(live) || live == old(live) - {old(children)[i].pid}
    {
      ghost var before := View();
      NamesDiffer(nodes, children, slots);
      ok := ConsumeRestartBudget(i);
      r := Restart(children[i].pid, false, None);
      if !ok {
        AllLeftAlone(before, View());
        return;
      }
      ok, r := RelaunchRecorded(i);
      RestartTouches(before, View(), i);
    }

    /** src/multiprocess_runtime.cpp:464 */
    method RelaunchRecorded(i: nat) returns (ok: bool, ghost r: Restart)
      requires Valid() && i < |children|
      requires launches < NonPrimaryCount(nodes) + SumRestarts(nodes, restarts)
      modifies this`children, this`handshakes, this`heartbeats, this`launches, this`launchLog, this`live,
               this`stopCalls, this`refusals
      ensures Valid() && Labels(children) == Labels(old(children)) && |children| == |old(children)|
      ensures IsAttempt(hasLauncher, old(children)[i], old(Books()), Books(), r) && (ok <==> r.child.Some?)
      ensures SlotAfter(old(children)[i], old(View()), View(), i, r)
      ensures !ok ==> children == old(children) && handshakes == old(handshakes) && heartbeats == old(heartbeats)
      ensures !ok ==> live == old(live) || live == old(live) - {old(children)[i].pid}
      ensures ok ==>
                && children == old(children)[i := children[i]] && children[i].pid !in Pids(old(children))
                && live == old(live) - {old(children)[i].pid} + {children[i].pid}
                && handshakes == old(handshakes)[children[i].pid := Spawned]
                && heartbeats == old(heartbeats)[children[i].pid := 0]
    {
      ok := RelaunchChild(i);
      ghost var agreed := hasLauncher && refusals == old(refusals);
      r := Restart(old(children)[i].pid, agreed, if agreed then launchLog[|old(launchLog)|].child else None);
    }

    /** src/multiprocess_runtime.cpp:452-469; `i` is the position of the child. With budget and a launcher that agrees
        to stop the child, exactly one process is launched, and the restart succeeds exactly if there is one. */
    method RestartChild(pid: nat) returns (ok: bool, ghost i: nat, ghost r: Restart)
      requires Valid()
      modifies this`children, this`handshakes, this`heartbeats, this`restarts, this`launches, this`launchLog,
               this`live, this`stopCalls, this`refusals
      ensures Valid()
      ensures pid !in Pids(old(children)) ==> !ok && View() == old(View()) && Books() == old(Books())
      ensures pid in Pids(old(children)) ==> i < |old(children)| && old(children)[i].pid == pid
      ensures pid in Pids(old(children)) ==>
                var budget := HasBudget(nodes, old(restarts), old(children)[i].name);
                && OnlyTouches(old(View()), View(), i)
                && (!budget ==> && !ok && LeftAlone(old(View()), View(), i)
                                && live == old(live) && Books() == old(Books()))
                && (budget ==> && IsAttempt(hasLauncher, old(children)[i], old(Books()), Books(), r)
                               && SlotAfter(old(children)[i], old(View()), View(), i, r)
                               && (ok <==> r.child.Some?))
                && Spent(old(stopCalls), old(launches), old(restarts), if budget then [pid] else [])
                && CountOf(restarts, old(children)[i].name)
                   == CountOf(old(restarts), old(children)[i].name) + (if budget then 1 else 0)
                && (budget && hasLauncher && refusals == old(refusals) ==>
                      && launches == old(launches) + 1 && |launchLog| == |old(launchLog)| + 1
                      && (ok <==> launchLog[|old(launchLog)|].child.Some?)
                      && (ok ==> launchLog[|old(launchLog)|].child == Some(children[i])))
                && (ok ==> budget && hasLauncher && refusals == old(refusals))
      ensures ok ==>
                && pid in Pids(old(children)) && pid !in Pids(children) && pid !in live
                && live == old(live) - {pid} + {children[i].pid}
      ensures ok && pid in old(handshakes) ==> pid in handshakes
      ensures !ok ==> children == old(children) && (live == old(live) || live == old(live) - {pid})
    {
      r := Restart(pid, false, None);
      var found := FindChild(pid);
      if found.None? {
        return false, |children|, r;
      }
      i := found.value;
      assert children[i] in children;
      ok, r := RestartAt(found.value);
      if ok {
        ReplacedIsGone(old(children), i, children[i]);
      }
    }

    /** src/multiprocess_runtime.cpp:119-152: exactly the children that the liveness policy calls dead and the
        supervisor policy wants restarted are restarted, one after the other, as far as their budgets go; each of
        them uses up one attempt, whether or not the restart succeeds; and all others are left alone. `done` is what
        came of each attempt. */
    method Tick(alive: nat -> bool, shouldRestart: nat -> bool) returns (ghost done: seq<Restart>)
      requires Valid()
      modifies this`children, this`handshakes, this`heartbeats, this`restarts, this`launches, this`launchLog,
               this`live, this`stopCalls, this`refusals, this`restartingTicks
      ensures Valid()
      ensures Labels(children) == Labels(old(children))
      ensures !running ==> View() == old(View()) && Books() == old(Books()) && done == []
      ensures !running ==> restartingTicks == old(restartingTicks)
      ensures running ==>
                var wanted := Wanted(nodes, old(children), old(restarts), alive, shouldRestart);
                && Spent(old(stopCalls), old(launches), old(restarts), wanted)
                && Spares(old(View()), View(), |old(children)|, wanted)
                && Outcomes(hasLauncher, old(View()), old(Books()), View(), Books(), wanted, done)
                && (hasLauncher ==>
                      |launchLog| + |refusals| == |old(launchLog)| + |old(refusals)| + |wanted|)
                && restartingTicks == old(restartingTicks) + if wanted == [] then 0 else 1
    {
      done := [];
      if !running {
        return;
      }
      ghost var wanted;
      wanted, done := TickAll(PidList(children), alive, shouldRestart);
      if wanted != [] {
        restartingTicks := restartingTicks + 1;
      }
    }

    /** src/multiprocess_runtime.cpp:130-151 */
    method TickAll(pids: seq<nat>, alive: nat -> bool, shouldRestart: nat -> bool)
      returns (ghost wanted: seq<nat>, ghost done: seq<Restart>)
      requires Valid() && pids == PidList(children)
      modifies this`children, this`handshakes, this`heartbeats, this`restarts, this`launches, this`launchLog,
               this`live, this`stopCalls, this`refusals
      ensures Valid()
      ensures wanted == Wanted(nodes, old(children), old(restarts), alive, shouldRestart)
      ensures Spent(old(stopCalls), old(launches), old(restarts), wanted)
      ensures Spares(old(View()), View(), |pids|, wanted)
      ensures Outcomes(hasLauncher, old(View()), old(Books()), View(), Books(), wanted, done)
    {
      ghost var before, books := View(), Books();
      wanted, done := [], [];
      NothingTicked(alive, shouldRestart);
      for n := 0 to |pids|
        invariant Valid()
        invariant Ticked(before, books, n, wanted, done, alive, shouldRestart)
      {
        wanted, done := TickTo(pids[n], n, before, books, wanted, done, alive, shouldRestart);
      }
      assert before.children[..|pids|] == before.children;
    }

    /** What a tick has done after the first `n` children of the table that it found. */
    ghost predicate Ticked(before: Snapshot, books: Ledger, n: nat, wanted: seq<nat>, done: seq<Restart>,
                           alive: nat -> bool, shouldRestart: nat -> bool)
      requires n <= |before.children|
      reads this
    {
      && wanted == Wanted(nodes, before.children[..n], before.restarts, alive, shouldRestart)
      && Spares(before, View(), n, wanted)
      && Spent(books.stopCalls, books.launches, before.restarts, wanted)
      && Outcomes(hasLauncher, before, books, View(), Books(), wanted, done)
    }

    lemma NothingTicked(alive: nat -> bool, shouldRestart: nat -> bool)
      ensures Ticked(View(), Books(), 0, [], [], alive, shouldRestart)
    {
    }

    method TickTo(pid: nat, ghost n: nat, ghost before: Snapshot, ghost books: Ledger,
                  ghost wanted0: seq<nat>, ghost done0: seq<Restart>, alive: nat -> bool, shouldRestart: nat -> bool)
      returns (ghost wanted: seq<nat>, ghost done: seq<Restart>)
      requires Valid() && n < |before.children| && pid == before.children[n].pid && DistinctPids(before.children)
      requires Ticked(before, books, n, wanted0, done0, alive, shouldRestart)
      modifies this`children, this`handshakes, this`heartbeats, this`restarts, this`launches, this`launchLog,
               this`live, this`stopCalls, this`refusals
      ensures Valid() && Ticked(before, books, n + 1, wanted, done, alive, shouldRestart)
    {
      WantedNext(nodes, before.children, before.restarts, alive, shouldRestart, n);
      WantedIsBefore(nodes, before.children, before.restarts, alive, shouldRestart, n);
      ghost var now, booksNow := View(), Books();
      ghost var asked, r;
      asked, r := TickNext(pid, n, before, wanted0, alive, shouldRestart);
      OutcomesStep(hasLauncher, before, books, now, booksNow, View(), Books(), n, wanted0, done0, asked, r);
      wanted, done := wanted0 + asked, done0 + if asked == [] then [] else [r];
    }

    /** What restarting `wanted` has cost. */
    ghost predicate Spent(stopsBefore: seq<nat>, launchesBefore: nat, restartsBefore: map<string, nat>,
                          wanted: seq<nat>)
      reads this
    {
      && stopCalls == stopsBefore + (if hasLauncher then wanted else [])
      && SumRestarts(nodes, restarts) == SumRestarts(nodes, restartsBefore) + |wanted|
      && launchesBefore <= launches <= launchesBefore + |wanted|
    }

    /** src/multiprocess_runtime.cpp:131-151, for the child at position `n` of the table that the tick found */
    method TickNext(pid: nat, ghost n: nat, ghost before: Snapshot, ghost wanted: seq<nat>,
                    alive: nat -> bool, shouldRestart: nat -> bool) returns (ghost asked: seq<nat>, ghost r: Restart)
      requires Valid() && n < |before.children| && pid == before.children[n].pid
      requires DistinctPids(before.children) && Spares(before, View(), n, wanted)
      modifies this`children, this`handshakes, this`heartbeats, this`restarts, this`launches, this`launchLog,
               this`live, this`stopCalls, this`refusals
      ensures Valid()
      ensures asked == if && !alive(pid) && shouldRestart(pid)
                          && HasBudget(nodes, before.restarts, before.children[n].name)
                       then [pid] else []
      ensures Spares(before, View(), n + 1, wanted + asked) && OnlyTouches(old(View()), View(), n)
      ensures Spent(old(stopCalls), old(launches), old(restarts), asked)
      ensures if asked == [] then Books() == old(Books())
              else && IsAttempt(hasLauncher, before.children[n], old(Books()), Books(), r)
                   && SlotAfter(before.children[n], old(View()), View(), n, r)
    {
      ghost var now := View();
      SparedNext(before, now, n, wanted);
      ghost var i;
      i, asked, r := TickChild(pid, alive, shouldRestart);
      SameIndex(now.children, i, n);
      SparesStep(before, now, View(), n, wanted, asked);
    }

    /** src/multiprocess_runtime.cpp:131-150. A child that is not asked to restart is left alone. */
    method TickChild(pid: nat, alive: nat -> bool, shouldRestart: nat -> bool)
      returns (ghost i: nat, ghost asked: seq<nat>, ghost r: Restart)
      requires Valid() && pid in Pids(children)
      modifies this`children, this`handshakes, this`heartbeats, this`restarts, this`launches, this`launchLog,
               this`live, this`stopCalls, this`refusals
      ensures Valid()
      ensures i < |old(children)| && old(children)[i].pid == pid
      ensures asked == if !alive(pid) && shouldRestart(pid) && HasBudget(nodes, old(restarts), old(children)[i].name)
                       then [pid] else []
      ensures OnlyTouches(old(View()), View(), i)
      ensures asked == [] ==> LeftAlone(old(View()), View(), i)
      ensures Spent(old(stopCalls), old(launches), old(restarts), asked)
      ensures if asked == [] then Books() == old(Books())
              else && IsAttempt(hasLauncher, old(children)[i], old(Books()), Books(), r)
                   && SlotAfter(old(children)[i], old(View()), View(), i, r)
    {
      r := Restart(pid, false, None);
      var found := FindChild(pid);
      i, asked := found.value, [];
      if !alive(pid) {
        if shouldRestart(pid) {
          asked := if HasBudget(nodes, restarts, children[i].name) then [pid] else [];
          ghost var before := children;
          var restarted;
          restarted, i, r := RestartChild(pid);
          SameIndex(before, i, found.value);
        }
      }
    }
  }

  /** The restart budget that the topology gives a name. */
  function BudgetOf(nodes: seq<ProcessSpec>, name: string): nat {
    if nodes == [] then 0
    else if nodes[|nodes| - 1].name == name then Budget(nodes[|nodes| - 1])
    else BudgetOf(nodes[..|nodes| - 1], name)
  }

  predicate HasBudget(nodes: seq<ProcessSpec>, restarts: map<string, nat>, name: string) {
    CountOf(restarts, name) < BudgetOf(nodes, name)
  }

  /** Of `children` those that the policies want restarted and that have budget left. */
  function Wanted(nodes: seq<ProcessSpec>, children: seq<Identity>, restarts: map<string, nat>,
                  alive: nat -> bool, shouldRestart: nat -> bool): seq<nat> {
    if children == [] then []
    else
      var last := children[|children| - 1];
      Wanted(nodes, children[..|children| - 1], restarts, alive, shouldRestart)
      + if !alive(last.pid) && shouldRestart(last.pid) && HasBudget(nodes, restarts, last.name) then [last.pid] else []
  }

  lemma WantedNext(nodes: seq<ProcessSpec>, children: seq<Identity>, restarts: map<string, nat>,
                   alive: nat -> bool, shouldRestart: nat -> bool, n: nat)
    requires n < |children|
    ensures var child := children[n];
            Wanted(nodes, children[..n + 1], restarts, alive, shouldRestart)
            == Wanted(nodes, children[..n], restarts, alive, shouldRestart)
               + if !alive(child.pid) && shouldRestart(child.pid) && HasBudget(nodes, restarts, child.name)
                 then [child.pid] else []
  {
    assert children[..n + 1][..n] == children[..n];
  }

  lemma {:induction false} ToLaunchPrefix(nodes: seq<ProcessSpec>, n: nat)
    requires n <= |nodes|
    ensures ToLaunch(nodes[..n]) <= ToLaunch(nodes)
  {
    if n == |nodes| {
      assert nodes[..n] == nodes;
    } else {
      assert nodes[..|nodes| - 1][..n] == nodes[..n];
      ToLaunchPrefix(nodes[..|nodes| - 1], n);
    }
  }

  /** What one node adds to the launches. */
  lemma LaunchNext(nodes: seq<ProcessSpec>, n: nat, start: seq<Launch>, log: seq<Launch>, log': seq<Launch>,
                   launched: seq<Identity>, children: seq<Identity>, ok: bool)
    requires n < |nodes| && start <= log && LaunchesFit(nodes[..n], log[|start|..], launched)
    requires nodes[n].role == Primary ==> ok && log' == log && children == launched
    requires nodes[n].role != Primary ==>
               exists child :: log' == log + [Launch(nodes[n], child)] && (ok <==> child.Some?)
                               && (ok ==> children == launched + [child.value])
    ensures start <= log'
    ensures ok ==> LaunchesFit(nodes[..n + 1], log'[|start|..], children)
    ensures !ok ==> LaunchedInOrder(nodes, log'[|start|..], launched, false)
  {
    assert nodes[..n + 1][..n] == nodes[..n];
    if nodes[n].role != Primary {
      var child :| log' == log + [Launch(nodes[n], child)] && (ok <==> child.Some?)
                   && (ok ==> children == launched + [child.value]);
      assert log'[|start|..] == log[|start|..] + [Launch(nodes[n], child)];
      ToLaunchPrefix(nodes, n + 1);
    }
  }

  lemma AllBrought(nodes: seq<ProcessSpec>, log: seq<Launch>, from: nat, launched: seq<Identity>, ok: bool)
    requires from <= |log| && LaunchedInOrder(nodes, log[from..], launched, ok)
    ensures ok <==> forall k :: from <= k < |log| ==> log[k].child.Some?
  {
    var since := log[from..];
    assert forall k :: from <= k < |log| ==> log[k] == since[k - from];
    if !ok {
      assert log[|log| - 1] == since[|since| - 1];
    }
  }

  lemma {:induction false} BudgetOfNode(nodes: seq<ProcessSpec>, k: nat)
    requires UniqueNames(nodes) && k < |nodes|
    ensures BudgetOf(nodes, nodes[k].name) == Budget(nodes[k])
  {
    if k < |nodes| - 1 {
      BudgetOfNode(nodes[..|nodes| - 1], k);
    }
  }

  /** The labels of the nodes that are launched, in topology order. */
  function NonPrimaryLabels(nodes: seq<ProcessSpec>): seq<(string, Role)> {
    if nodes == [] then []
    else
      var node := nodes[|nodes| - 1];
      NonPrimaryLabels(nodes[..|nodes| - 1]) + if node.role == Primary then [] else [(node.name, node.role)]
  }

  lemma PidsAppend(children: seq<Identity>, child: Identity)
    ensures Pids(children + [child]) == Pids(children) + {child.pid}
  {
    forall p | p in Pids(children) + {child.pid} ensures p in Pids(children + [child]) {
      if p == child.pid {
        assert child in children + [child];
      } else {
        var c :| c in children && c.pid == p;
        assert c in children + [child];
      }
    }
  }

  lemma DistinctAppend(children: seq<Identity>, child: Identity)
    requires DistinctPids(children) && child.pid !in Pids(children)
    ensures DistinctPids(children + [child])
  {
    forall i | 0 <= i < |children| ensures children[i].pid != child.pid {
      assert children[i] in children;
    }
  }

  /** Appending the node at position `n` to a table that stems from the nodes before it. */
  lemma TableAppend(nodes: seq<ProcessSpec>, children: seq<Identity>, slots: seq<nat>, child: Identity, n: nat)
    requires n < |nodes| && nodes[n].role != Primary && child.name == nodes[n].name && child.role == nodes[n].role
    requires FollowsTopology(nodes[..n], Labels(children), slots)
    requires Labels(children) == NonPrimaryLabels(nodes[..n])
    requires DistinctPids(children) && child.pid !in Pids(children)
    ensures DistinctPids(children + [child]) && Pids(children + [child]) == Pids(children) + {child.pid}
    ensures Labels(children + [child]) == Labels(children) + [(child.name, child.role)]
    ensures Labels(children + [child]) == NonPrimaryLabels(nodes[..n + 1])
    ensures FollowsTopology(nodes[..n + 1], Labels(children + [child]), slots + [n])
    ensures FollowsTopology(nodes, Labels(children + [child]), slots + [n])
    ensures NonPrimaryCount(nodes[..n + 1]) == NonPrimaryCount(nodes[..n]) + 1
  {
    DistinctAppend(children, child);
    PidsAppend(children, child);
    assert nodes[..n + 1][..n] == nodes[..n];
    FollowsAppend(nodes, Labels(children), slots, n);
    assert Labels(children + [child]) == Labels(children) + [(child.name, child.role)];
  }

  lemma FollowsAppend(nodes: seq<ProcessSpec>, labels: seq<(string, Role)>, slots: seq<nat>, n: nat)
    requires n < |nodes| && nodes[n].role != Primary && FollowsTopology(nodes[..n], labels, slots)
    ensures FollowsTopology(nodes[..n + 1], labels + [(nodes[n].name, nodes[n].role)], slots + [n])
    ensures FollowsTopology(nodes, labels + [(nodes[n].name, nodes[n].role)], slots + [n])
  {
    var more := labels + [(nodes[n].name, nodes[n].role)];
    forall i | 0 <= i < |more|
      ensures IsNode(nodes[..n + 1], (slots + [n])[i], more[i]) && IsNode(nodes, (slots + [n])[i], more[i])
    {
      if i < |labels| {
        assert IsNode(nodes[..n], slots[i], labels[i]);
      }
    }
    assert forall i :: 0 <= i < |slots| ==> IsNode(nodes[..n], slots[i], labels[i]);
  }

  /** The nodes after position `n` only add to the count. */
  lemma {:induction false} NonPrimaryPrefix(nodes: seq<ProcessSpec>, n: nat)
    requires n <= |nodes|
    ensures NonPrimaryCount(nodes[..n]) <= NonPrimaryCount(nodes)
  {
    if n == |nodes| {
      assert nodes[..n] == nodes;
    } else {
      assert nodes[..|nodes| - 1][..n] == nodes[..n];
      NonPrimaryPrefix(nodes[..|nodes| - 1], n);
    }
  }

  lemma SkipPrimary(nodes: seq<ProcessSpec>, labels: seq<(string, Role)>, slots: seq<nat>, n: nat)
    requires n < |nodes| && nodes[n].role == Primary && FollowsTopology(nodes[..n], labels, slots)
    ensures FollowsTopology(nodes[..n + 1], labels, slots)
    ensures NonPrimaryLabels(nodes[..n + 1]) == NonPrimaryLabels(nodes[..n])
    ensures NonPrimaryCount(nodes[..n + 1]) == NonPrimaryCount(nodes[..n])
  {
    assert nodes[..n + 1][..n] == nodes[..n];
    forall i | 0 <= i < |labels| ensures IsNode(nodes[..n + 1], slots[i], labels[i]) {
      assert IsNode(nodes[..n], slots[i], labels[i]);
    }
  }

  lemma FollowsPrefix(nodes: seq<ProcessSpec>, n: nat, labels: seq<(string, Role)>, slots: seq<nat>)
    requires n <= |nodes| && FollowsTopology(nodes[..n], labels, slots)
    ensures FollowsTopology(nodes, labels, slots)
  {
    forall i | 0 <= i < |labels| ensures IsNode(nodes, slots[i], labels[i]) {
      assert IsNode(nodes[..n], slots[i], labels[i]);
    }
  }

  // ---------- keeping some of the children ----------

  lemma PidListCons(children: seq<Identity>, i: nat)
    requires i < |children|
    ensures PidList(children[i..]) == [children[i].pid] + PidList(children[i + 1..])
    ensures children[i..] == [children[i]] + children[i + 1..]
  {
  }

  lemma {:induction false} KeepSame(children: seq<Identity>, a: set<nat>, b: set<nat>)
    requires forall c :: c in children ==> (c.pid in a <==> c.pid in b)
    ensures Keep(children, a) == Keep(children, b)
  {
    if children != [] {
      KeepSame(children[1..], a, b);
    }
  }

  /** What happens to the child at `i` does not matter for those after it. */
  lemma KeepFrame(children: seq<Identity>, i: nat, before: set<nat>, after: set<nat>)
    requires i < |children| && DistinctPids(children)
    requires after == before || after == before - {children[i].pid}
    ensures Keep(children[i..], after)
         == (if children[i].pid in after then [children[i]] else []) + Keep(children[i + 1..], before)
  {
    var rest := children[i + 1..];
    forall c | c in rest ensures c.pid in before <==> c.pid in after {
      var j :| 0 <= j < |rest| && rest[j] == c;
      assert children[i + 1 + j] == c;
    }
    KeepSame(rest, before, after);
    assert children[i..][1..] == rest;
  }

  lemma {:induction false} KeepMembers(children: seq<Identity>, pids: set<nat>)
    ensures forall c :: c in Keep(children, pids) <==> c in children && c.pid in pids
  {
    if children != [] {
      KeepMembers(children[1..], pids);
      assert children == [children[0]] + children[1..];
    }
  }

  lemma KeepPids(children: seq<Identity>, pids: set<nat>)
    requires pids <= Pids(children)
    ensures Pids(Keep(children, pids)) == pids
  {
    KeepMembers(children, pids);
    forall p | p in pids ensures p in Pids(Keep(children, pids)) {
      var c :| c in children && c.pid == p;
      assert c in Keep(children, pids);
    }
  }

  lemma {:induction false} KeepIsDistinct(children: seq<Identity>, pids: set<nat>)
    requires DistinctPids(children)
    ensures DistinctPids(Keep(children, pids))
  {
    if children != [] {
      var rest := children[1..];
      KeepIsDistinct(rest, pids);
      KeepMembers(rest, pids);
      forall c | c in Keep(rest, pids) ensures c.pid != children[0].pid {
        var j :| 0 <= j < |rest| && rest[j] == c;
        assert children[j + 1] == c;
      }
      var kept := Keep(rest, pids);
      assert forall j :: 0 <= j < |kept| ==> kept[j] in kept;
    }
  }

  /** The positions of the children that stay. */
  ghost function KeepSlots(children: seq<Identity>, slots: seq<nat>, pids: set<nat>): seq<nat>
    requires |slots| == |children|
  {
    if children == [] then []
    else (if children[0].pid in pids then [slots[0]] else []) + KeepSlots(children[1..], slots[1..], pids)
  }

  lemma {:induction false} KeepSlotsMeaning(nodes: seq<ProcessSpec>, children: seq<Identity>, slots: seq<nat>,
                                            pids: set<nat>)
    requires FollowsTopology(nodes, Labels(children), slots)
    ensures FollowsTopology(nodes, Labels(Keep(children, pids)), KeepSlots(children, slots, pids))
    ensures forall k :: k in KeepSlots(children, slots, pids) ==> k in slots
  {
    if children != [] {
      var rest, restSlots := children[1..], slots[1..];
      FollowsTail(nodes, children, slots);
      KeepSlotsMeaning(nodes, rest, restSlots, pids);
      var kept, keptSlots := Keep(rest, pids), KeepSlots(rest, restSlots, pids);
      if children[0].pid in pids {
        forall k | k in keptSlots ensures slots[0] < k {
          var j :| 0 <= j < |restSlots| && restSlots[j] == k;
          assert slots[j + 1] == k;
        }
        FollowsCons(nodes, children[0], slots[0], kept, keptSlots);
      }
    }
  }

  lemma FollowsTail(nodes: seq<ProcessSpec>, children: seq<Identity>, slots: seq<nat>)
    requires children != [] && FollowsTopology(nodes, Labels(children), slots)
    ensures FollowsTopology(nodes, Labels(children[1..]), slots[1..])
    ensures IsNode(nodes, slots[0], (children[0].name, children[0].role))
  {
    assert Labels(children)[0] == (children[0].name, children[0].role);
    forall i | 0 <= i < |children| - 1 ensures IsNode(nodes, slots[1..][i], Labels(children[1..])[i]) {
      assert IsNode(nodes, slots[i + 1], Labels(children)[i + 1]);
    }
  }

  lemma FollowsCons(nodes: seq<ProcessSpec>, child: Identity, slot: nat, rest: seq<Identity>, slots: seq<nat>)
    requires IsNode(nodes, slot, (child.name, child.role)) && FollowsTopology(nodes, Labels(rest), slots)
    requires forall k :: k in slots ==> slot < k
    ensures FollowsTopology(nodes, Labels([child] + rest), [slot] + slots)
  {
    var all, labels := [slot] + slots, Labels([child] + rest);
    assert forall j :: 0 <= j < |slots| ==> slots[j] in slots;
    forall i | 0 <= i < |all| ensures IsNode(nodes, all[i], labels[i]) {
      if i > 0 {
        assert IsNode(nodes, slots[i - 1], Labels(rest)[i - 1]);
      }
    }
  }

  /** What a rollback leaves is a table again. */
  lemma KeepTable(nodes: seq<ProcessSpec>, n: nat, children: seq<Identity>, slots: seq<nat>, pids: set<nat>)
    returns (kept: seq<nat>)
    requires n <= |nodes| && FollowsTopology(nodes[..n], Labels(children), slots)
    requires DistinctPids(children) && pids <= Pids(children)
    ensures FollowsTopology(nodes, Labels(Keep(children, pids)), kept)
    ensures DistinctPids(Keep(children, pids)) && Pids(Keep(children, pids)) == pids
  {
    FollowsPrefix(nodes, n, Labels(children), slots);
    kept := KeepSlots(children, slots, pids);
    KeepSlotsMeaning(nodes, children, slots, pids);
    KeepIsDistinct(children, pids);
    KeepPids(children, pids);
  }

  // ---------- one child leaves or is replaced ----------

  lemma AllLeftAlone(before: Snapshot, after: Snapshot)
    requires after == before.(restarts := after.restarts)
    requires forall name :: CountOf(after.restarts, name) == CountOf(before.restarts, name)
    ensures forall j :: 0 <= j < |before.children| ==> LeftAlone(before, after, j)
  {
  }

  /** A restart of the child at `i` cannot be noticed by the others. */
  lemma RestartTouches(before: Snapshot, after: Snapshot, i: nat)
    requires i < |before.children| == |after.children| && DistinctPids(before.children)
    requires forall j :: 0 <= j < |before.children| && j != i ==> before.children[j].name != before.children[i].name
    requires Labels(after.children) == Labels(before.children)
    requires after.children == before.children[i := after.children[i]]
    requires forall name :: name != before.children[i].name ==>
               CountOf(after.restarts, name) == CountOf(before.restarts, name)
    requires forall pid :: pid in Pids(before.children) && pid != before.children[i].pid ==>
               && (pid in after.live <==> pid in before.live)
               && EntryOf(after.handshakes, pid) == EntryOf(before.handshakes, pid)
               && EntryOf(after.heartbeats, pid) == EntryOf(before.heartbeats, pid)
    ensures OnlyTouches(before, after, i)
  {
    forall j | 0 <= j < |before.children| && j != i ensures LeftAlone(before, after, j) {
      assert before.children[j] in before.children;
      OtherPid(before.children, i, j);
    }
  }

  lemma OtherPid(children: seq<Identity>, i: nat, j: nat)
    requires DistinctPids(children) && i < |children| && j < |children| && i != j
    ensures children[i].pid != children[j].pid
  {
  }

  lemma SparedNext(before: Snapshot, now: Snapshot, n: nat, wanted: seq<nat>)
    requires Spares(before, now, n, wanted) && n < |before.children|
    ensures LeftAlone(before, now, n) && before.children[n].pid in Pids(now.children)
  {
    assert now.children[n] in now.children;
  }

  lemma LeftAloneTwice(before: Snapshot, now: Snapshot, after: Snapshot, j: nat)
    requires j < |before.children| && LeftAlone(before, now, j) && LeftAlone(now, after, j)
    ensures LeftAlone(before, after, j)
  {
  }

  lemma SparesStep(before: Snapshot, now: Snapshot, after: Snapshot, n: nat, wanted: seq<nat>, asked: seq<nat>)
    requires n < |before.children| && Spares(before, now, n, wanted) && OnlyTouches(now, after, n)
    requires asked == [] || asked == [before.children[n].pid]
    requires asked == [] ==> LeftAlone(now, after, n)
    ensures Spares(before, after, n + 1, wanted + asked)
  {
    forall j | 0 <= j < |before.children| && (j >= n + 1 || before.children[j].pid !in wanted + asked)
      ensures LeftAlone(before, after, j)
    {
      LeftAloneTwice(before, now, after, j);
    }
  }

  lemma {:induction false} WantedIsBefore(nodes: seq<ProcessSpec>, children: seq<Identity>, restarts: map<string, nat>,
                                          alive: nat -> bool, shouldRestart: nat -> bool, n: nat)
    requires n <= |children|
    ensures forall pid :: pid in Wanted(nodes, children[..n], restarts, alive, shouldRestart) ==>
              exists j :: 0 <= j < n && children[j].pid == pid
  {
    if n > 0 {
      WantedNext(nodes, children, restarts, alive, shouldRestart, n - 1);
      WantedIsBefore(nodes, children, restarts, alive, shouldRestart, n - 1);
    }
  }

  /** What came of earlier attempts stays so when the child at `n` has its turn. */
  lemma OutcomesStep(hasLauncher: bool, before: Snapshot, books: Ledger, now: Snapshot, booksNow: Ledger,
                     after: Snapshot, books': Ledger, n: nat, wanted: seq<nat>, done: seq<Restart>,
                     asked: seq<nat>, r: Restart)
    requires n < |before.children| && DistinctPids(before.children) && SameLabels(before, now)
    requires Outcomes(hasLauncher, before, books, now, booksNow, wanted, done)
    requires forall pid :: pid in wanted ==> exists j :: 0 <= j < n && before.children[j].pid == pid
    requires OnlyTouches(now, after, n) && Spares(before, now, n, wanted)
    requires if asked == [] then books' == booksNow
             else && asked == [before.children[n].pid]
                  && IsAttempt(hasLauncher, before.children[n], booksNow, books', r)
                  && SlotAfter(before.children[n], now, after, n, r)
    ensures Outcomes(hasLauncher, before, books, after, books', wanted + asked,
                     done + if asked == [] then [] else [r])
  {
    var more, records := wanted + asked, done + if asked == [] then [] else [r];
    var pid := before.children[n].pid;
    NotWantedYet(before.children, n, wanted);
    forall k | 0 <= k < |records| ensures IsAnswered(hasLauncher, more[k], books, books', records[k]) {
      if k < |done| {
        assert wanted[k] in wanted;
        EarlierAnswer(hasLauncher, wanted[k], books, booksNow, books', done[k], if asked == [] then [] else [pid]);
      } else {
        NewAnswer(hasLauncher, before.children[n], books, booksNow, books', r, wanted, done);
      }
    }
    forall j, k | 0 <= j < |before.children| && 0 <= k < |records| && before.children[j].pid == more[k]
      ensures SlotAfter(before.children[j], before, after, j, records[k])
    {
      if k < |done| {
        assert wanted[k] in wanted;
        assert j != n;
        SlotStays(before.children[j], before, now, after, j, n, done[k]);
      } else {
        SameIndex(before.children, j, n);
        assert LeftAlone(before, now, n);
      }
    }
  }

  lemma NotWantedYet(children: seq<Identity>, n: nat, wanted: seq<nat>)
    requires n < |children| && DistinctPids(children)
    requires forall pid :: pid in wanted ==> exists j :: 0 <= j < n && children[j].pid == pid
    ensures children[n].pid !in wanted
  {
  }

  lemma SlotStays(was: Identity, before: Snapshot, now: Snapshot, after: Snapshot, j: nat, n: nat, r: Restart)
    requires j < |now.children| && j != n && OnlyTouches(now, after, n) && SlotAfter(was, before, now, j, r)
    ensures SlotAfter(was, before, after, j, r)
  {
    assert LeftAlone(now, after, j);
  }

  lemma EarlierAnswer(hasLauncher: bool, pid: nat, books: Ledger, now: Ledger, after: Ledger, r: Restart,
                      asked: seq<nat>)
    requires IsAnswered(hasLauncher, pid, books, now, r) && pid !in asked
    requires now.launchLog <= after.launchLog
    requires after.refusals == now.refusals || after.refusals == now.refusals + asked
    ensures IsAnswered(hasLauncher, pid, books, after, r)
  {
    var since := now.refusals[|books.refusals|..];
    assert after.refusals[|books.refusals|..] == since || after.refusals[|books.refusals|..] == since + asked;
    if r.agreed {
      var l :| |books.launchLog| <= l < |now.launchLog| && now.launchLog[l].child == r.child;
      assert after.launchLog[l] == now.launchLog[l];
    }
  }

  lemma NewAnswer(hasLauncher: bool, was: Identity, books: Ledger, now: Ledger, after: Ledger, r: Restart,
                  wanted: seq<nat>, done: seq<Restart>)
    requires IsAttempt(hasLauncher, was, now, after, r) && was.pid !in wanted
    requires books.refusals <= now.refusals && books.launchLog <= now.launchLog
    requires forall pid :: pid in now.refusals[|books.refusals|..] ==> pid in wanted
    ensures IsAnswered(hasLauncher, was.pid, books, after, r)
  {
    var since := now.refusals[|books.refusals|..];
    if hasLauncher {
      assert after.refusals[|books.refusals|..] == since + if r.agreed then [] else [was.pid];
      if r.agreed {
        assert after.launchLog[|now.launchLog|].child == r.child;
      }
    }
  }

  /** The exact condition for the maps to match the table after a relaunch: that it failed. A relaunch that succeeds
      leaves the entries of the replaced process behind. */
  lemma StaleEntryRemains(before: Snapshot, i: nat, child: Identity)
    requires i < |before.children| && DistinctPids(before.children) && child.pid !in Pids(before.children)
    ensures MapsMatch(before) ==>
              var pid := before.children[i].pid;
              var after := before.(children := before.children[i := child],
                                   handshakes := before.handshakes[child.pid := Spawned],
                                   heartbeats := before.heartbeats[child.pid := 0]);
              pid in after.handshakes && pid in after.heartbeats && pid !in Pids(after.children) && !MapsMatch(after)
  {
    ReplacedIsGone(before.children, i, child);
  }

  lemma SameIndex(children: seq<Identity>, i: nat, n: nat)
    requires DistinctPids(children) && i < |children| && n < |children| && children[i].pid == children[n].pid
    ensures i == n
  {
  }

  lemma NamesDiffer(nodes: seq<ProcessSpec>, children: seq<Identity>, slots: seq<nat>)
    requires UniqueNames(nodes) && FollowsTopology(nodes, Labels(children), slots)
    ensures forall i, j :: 0 <= i < j < |children| ==> children[i].name != children[j].name
  {
    forall i, j | 0 <= i < j < |children| ensures children[i].name != children[j].name {
      SlotOf(nodes, children, slots, i);
      SlotOf(nodes, children, slots, j);
    }
  }

  lemma RemoveTracked(children: seq<Identity>, i: nat)
    requires DistinctPids(children) && i < |children|
    ensures DistinctPids(WithoutIndex(children, i))
    ensures Pids(WithoutIndex(children, i)) == Pids(children) - {children[i].pid}
  {
    var rest := WithoutIndex(children, i);
    assert forall j :: 0 <= j < |rest| ==> rest[j] == if j < i then children[j] else children[j + 1];
    forall p ensures p in Pids(rest) <==> p in Pids(children) && p != children[i].pid {
      if p in Pids(children) && p != children[i].pid {
        var j :| 0 <= j < |children| && children[j].pid == p;
        assert rest[if j < i then j else j - 1] == children[j];
        assert children[j] in rest;
      }
      if p in Pids(rest) {
        var j :| 0 <= j < |rest| && rest[j].pid == p;
        assert rest[j] in children;
      }
    }
  }

  lemma FollowsRemove(nodes: seq<ProcessSpec>, children: seq<Identity>, slots: seq<nat>, i: nat)
    requires FollowsTopology(nodes, Labels(children), slots) && i < |children|
    ensures FollowsTopology(nodes, Labels(WithoutIndex(children, i)), WithoutIndex(slots, i))
  {
    var labels, s := Labels(WithoutIndex(children, i)), WithoutIndex(slots, i);
    forall j | 0 <= j < |labels| ensures IsNode(nodes, s[j], labels[j]) {
      assert IsNode(nodes, slots[if j < i then j else j + 1], Labels(children)[if j < i then j else j + 1]);
    }
  }

  lemma SlotOf(nodes: seq<ProcessSpec>, children: seq<Identity>, slots: seq<nat>, i: nat)
    requires UniqueNames(nodes) && FollowsTopology(nodes, Labels(children), slots) && i < |children|
    ensures slots[i] < |nodes| && nodes[slots[i]].name == children[i].name && nodes[slots[i]].role == children[i].role
    ensures forall k :: 0 <= k < |nodes| && nodes[k].name == children[i].name ==> k == slots[i]
  {
    assert IsNode(nodes, slots[i], Labels(children)[i]);
  }

  lemma {:induction false} CountsAlike(nodes: seq<ProcessSpec>, restarts: map<string, nat>, name: string, count: nat)
    requires count == CountOf(restarts, name)
    ensures SumRestarts(nodes, restarts[name := count]) == SumRestarts(nodes, restarts)
  {
    if nodes != [] {
      CountsAlike(nodes[..|nodes| - 1], restarts, name, count);
    }
  }

  lemma ReplaceTracked(children: seq<Identity>, i: nat, child: Identity)
    requires DistinctPids(children) && i < |children| && child.pid !in Pids(children)
    ensures DistinctPids(children[i := child])
    ensures Pids(children[i := child]) == Pids(children) - {children[i].pid} + {child.pid}
    ensures child.name == children[i].name && child.role == children[i].role ==>
              Labels(children[i := child]) == Labels(children)
  {
    var after := children[i := child];
    assert forall j :: 0 <= j < |children| ==> children[j] in children;
    forall p ensures p in Pids(after) <==> p in Pids(children) - {children[i].pid} + {child.pid} {
      if p in Pids(after) {
        var j :| 0 <= j < |after| && after[j].pid == p;
      }
      if p == child.pid {
        assert after[i] in after;
      } else if p in Pids(children) && p != children[i].pid {
        var j :| 0 <= j < |children| && children[j].pid == p;
        assert after[j] == children[j] && after[j] in after;
      }
    }
  }

  lemma ReplacedIsGone(children: seq<Identity>, i: nat, child: Identity)
    requires DistinctPids(children) && i < |children| && child.pid !in Pids(children)
    ensures children[i].pid in Pids(children) && children[i].pid !in Pids(children[i := child])
  {
    assert children[i] in children;
    ReplaceTracked(children, i, child);
  }

  lemma PidListMembers(children: seq<Identity>)
    ensures forall pid :: pid in PidList(children) <==> pid in Pids(children)
  {
    var pids := PidList(children);
    forall pid ensures pid in pids <==> pid in Pids(children) {
      if pid in pids {
        var i :| 0 <= i < |pids| && pids[i] == pid;
        assert children[i] in children;
      }
      if pid in Pids(children) {
        var i :| 0 <= i < |children| && children[i].pid == pid;
        assert pids[i] == pid;
      }
    }
  }

  /** Which of `live` still run when the first `i` of `pids` were told to stop, and `refused` did not. */
  function LiveAfter(live: set<nat>, pids: seq<nat>, i: nat, refused: seq<nat>): set<nat>
    requires i <= |pids|
  {
    set pid | pid in live && (pid !in pids[..i] || pid in refused)
  }

  lemma LiveAfterStep(live: set<nat>, pids: seq<nat>, i: nat, refused: seq<nat>, stopped: bool)
    requires i < |pids| && pids[i] !in pids[..i] && pids[i] !in refused
    ensures LiveAfter(live, pids, i + 1, if stopped then refused else refused + [pids[i]])
         == if stopped then LiveAfter(live, pids, i, refused) - {pids[i]} else LiveAfter(live, pids, i, refused)
  {
    assert pids[..i + 1] == pids[..i] + [pids[i]];
  }

  lemma LiveAfterAll(live: set<nat>, children: seq<Identity>, refused: seq<nat>)
    requires live <= Pids(children)
    ensures LiveAfter(live, PidList(children), |PidList(children)|, refused) == set pid | pid in live && pid in refused
  {
    PidListMembers(children);
    assert PidList(children)[..|PidList(children)|] == PidList(children);
  }

  lemma TakeNext<T>(s: seq<T>, i: nat)
    requires i < |s|
    ensures s[..i + 1] == s[..i] + [s[i]]
  {
  }

  lemma DistinctPidList(children: seq<Identity>, i: nat)
    requires DistinctPids(children) && i < |children|
    ensures PidList(children)[i] !in PidList(children)[..i]
  {
  }

  /** Stopping one child leaves the ones not yet visited in the table. */
  lemma StillTracked(before: seq<Identity>, was: seq<Identity>, now: seq<Identity>, pid: nat, i: nat)
    requires DistinctPids(before) && DistinctPids(was) && i < |before| && before[i].pid == pid
    requires now == was || exists k :: 0 <= k < |was| && was[k].pid == pid && now == WithoutIndex(was, k)
    ensures forall j :: i < j < |before| && before[j].pid in Pids(was) ==> before[j].pid in Pids(now)
  {
    if now != was {
      var k :| 0 <= k < |was| && was[k].pid == pid && now == WithoutIndex(was, k);
      RemoveTracked(was, k);
    }
  }

  // ---------- whole sessions ----------

  /** From Start to Stop, whatever launcher and policies answer: the launches are at most one per non-primary
      node plus the sum of the restart budgets. */
  lemma LaunchesAreBounded(rt: MultiprocessRuntime)
    requires rt.Valid()
    ensures rt.launches <= NonPrimaryCount(rt.nodes) + SumBudgets(rt.nodes)
  {
    SumWithinBudgets(rt.nodes, rt.restarts);
  }

  /** From Start to Stop, whatever launcher and policies answer: at most as many ticks try to restart a child as the
      budgets sum up to, so only finitely many do; refused stops and failed launches count as well. */
  lemma RestartingTicksAreBounded(rt: MultiprocessRuntime)
    requires rt.Valid()
    ensures rt.restartingTicks <= SumRestarts(rt.nodes, rt.restarts) <= SumBudgets(rt.nodes)
  {
    SumWithinBudgets(rt.nodes, rt.restarts);
  }

  /** At any time each process has been restarted at most as often as its specification allows, and not at all without
      automatic restart. */
  lemma RestartsAreWithinLimits(rt: MultiprocessRuntime, k: nat)
    requires rt.Valid() && k < |rt.nodes| && rt.nodes[k].name in rt.restarts
    ensures rt.restarts[rt.nodes[k].name] <= rt.nodes[k].maxRestartAttempts
    ensures !rt.nodes[k].autoRestart ==> rt.restarts[rt.nodes[k].name] == 0
  {
    assert CountOf(rt.restarts, rt.nodes[k].name) <= Budget(rt.nodes[k]);
  }

  /** The bounds, one node at a time. */
  lemma BudgetsAddUp(nodes: seq<ProcessSpec>, node: ProcessSpec)
    ensures SumBudgets([]) == 0 && NonPrimaryCount([]) == 0
    ensures SumBudgets(nodes + [node])
         == SumBudgets(nodes) + if node.autoRestart then node.maxRestartAttempts else 0
    ensures NonPrimaryCount(nodes + [node]) == NonPrimaryCount(nodes) + if node.role == Primary then 0 else 1
  {
    assert (nodes + [node])[..|nodes|] == nodes;
  }

  /** The launched nodes are, at rising positions, exactly those that are not primary; and the table's labels are
      theirs. */
  lemma {:induction false} ToLaunchMeaning(nodes: seq<ProcessSpec>) returns (at: seq<nat>)
    ensures Rising(at) && |at| == |ToLaunch(nodes)| == |NonPrimaryLabels(nodes)|
    ensures forall n :: n in at <==> 0 <= n < |nodes| && nodes[n].role != Primary
    ensures forall k :: 0 <= k < |at| ==>
              && at[k] < |nodes| && ToLaunch(nodes)[k] == nodes[at[k]]
              && NonPrimaryLabels(nodes)[k] == (nodes[at[k]].name, nodes[at[k]].role)
  {
    if nodes == [] {
      at := [];
    } else {
      var before, n := nodes[..|nodes| - 1], |nodes| - 1;
      var earlier := ToLaunchMeaning(before);
      at := earlier + if nodes[n].role == Primary then [] else [n];
      PositionsNext(nodes, earlier);
      ListingNext(nodes, earlier);
    }
  }

  lemma PositionsNext(nodes: seq<ProcessSpec>, at: seq<nat>)
    requires nodes != [] && Rising(at)
    requires forall n :: n in at <==> 0 <= n < |nodes| - 1 && nodes[..|nodes| - 1][n].role != Primary
    ensures var last := |nodes| - 1;
            var more := at + if nodes[last].role == Primary then [] else [last];
            Rising(more) && forall n :: n in more <==> 0 <= n < |nodes| && nodes[n].role != Primary
  {
    var before := nodes[..|nodes| - 1];
    assert forall n :: 0 <= n < |before| ==> before[n] == nodes[n];
    assert forall k :: 0 <= k < |at| ==> at[k] in at;
  }

  lemma ListingNext(nodes: seq<ProcessSpec>, at: seq<nat>)
    requires nodes != []
    requires var before := nodes[..|nodes| - 1];
             && |at| == |ToLaunch(before)| == |NonPrimaryLabels(before)|
             && forall k :: 0 <= k < |at| ==>
                  && at[k] < |before| && ToLaunch(before)[k] == before[at[k]]
                  && NonPrimaryLabels(before)[k] == (before[at[k]].name, before[at[k]].role)
    ensures var last := |nodes| - 1;
            var more := at + if nodes[last].role == Primary then [] else [last];
            && |more| == |ToLaunch(nodes)| == |NonPrimaryLabels(nodes)|
            && forall k :: 0 <= k < |more| ==>
                 && more[k] < |nodes| && ToLaunch(nodes)[k] == nodes[more[k]]
                 && NonPrimaryLabels(nodes)[k] == (nodes[more[k]].name, nodes[more[k]].role)
  {
  }

  /** At any time every process that was launched since the table was last emptied and not successfully stopped is in
      the table; ids are distinct; each child has a handshake and a heartbeat entry; and the table follows the
      non-primary topology. */
  lemma EveryProcessIsTracked(rt: MultiprocessRuntime)
    requires rt.Valid()
    ensures forall pid :: pid in rt.live ==> exists i :: 0 <= i < |rt.children| && rt.children[i].pid == pid
    ensures forall i, j :: 0 <= i < j < |rt.children| ==> rt.children[i].pid != rt.children[j].pid
    ensures forall i :: 0 <= i < |rt.children| ==>
              rt.children[i].pid in rt.handshakes && rt.children[i].pid in rt.heartbeats
    ensures |rt.slots| == |rt.children| && forall i, j :: 0 <= i < j < |rt.slots| ==> rt.slots[i] < rt.slots[j]
    ensures forall i :: 0 <= i < |rt.children| ==>
              && rt.slots[i] < |rt.nodes| && rt.nodes[rt.slots[i]].role != Primary
              && rt.nodes[rt.slots[i]].name == rt.children[i].name && rt.nodes[rt.slots[i]].role == rt.children[i].role
  {
    forall i | 0 <= i < |rt.children| ensures rt.children[i].pid in Pids(rt.children) {
      assert rt.children[i] in rt.children;
    }
    forall i | 0 <= i < |rt.children|
      ensures IsNode(rt.nodes, rt.slots[i], (rt.children[i].name, rt.children[i].role))
    {
      assert IsNode(rt.nodes, rt.slots[i], Labels(rt.children)[i]);
    }
    forall pid | pid in rt.live ensures exists i :: 0 <= i < |rt.children| && rt.children[i].pid == pid {
      var c :| c in rt.children && c.pid == pid;
    }
  }

  /** What a rollback keeps: at rising positions, exactly the children whose ids are in `pids`. */
  lemma {:induction false} KeepMeaning(children: seq<Identity>, pids: set<nat>) returns (at: seq<nat>)
    ensures Rising(at) && |at| == |Keep(children, pids)|
    ensures forall k :: 0 <= k < |at| ==> at[k] < |children| && Keep(children, pids)[k] == children[at[k]]
    ensures forall i :: i in at <==> 0 <= i < |children| && children[i].pid in pids
  {
    if children == [] {
      at := [];
    } else {
      var later := KeepMeaning(children[1..], pids);
      at := (if children[0].pid in pids then [0] else []) + Shifted(later);
      ShiftedMembers(later, Shifted(later), children, pids);
      ShiftedRises(later, children[0].pid in pids);
      ShiftedLists(later, children, pids);
    }
  }

  ghost function Shifted(at: seq<nat>): (r: seq<nat>)
    ensures |r| == |at| && forall k :: 0 <= k < |at| ==> r[k] == at[k] + 1
  {
    seq(|at|, k requires 0 <= k < |at| => at[k] + 1)
  }

  lemma ShiftedRises(later: seq<nat>, first: bool)
    requires Rising(later)
    ensures Rising((if first then [0] else []) + Shifted(later))
  {
  }

  lemma ShiftedLists(later: seq<nat>, children: seq<Identity>, pids: set<nat>)
    requires children != [] && |later| == |Keep(children[1..], pids)|
    requires forall k :: 0 <= k < |later| ==>
               later[k] < |children| - 1 && Keep(children[1..], pids)[k] == children[1..][later[k]]
    ensures var at := (if children[0].pid in pids then [0] else []) + Shifted(later);
            && |at| == |Keep(children, pids)|
            && forall k :: 0 <= k < |at| ==> at[k] < |children| && Keep(children, pids)[k] == children[at[k]]
  {
  }

  lemma ShiftedMembers(later: seq<nat>, shifted: seq<nat>, children: seq<Identity>, pids: set<nat>)
    requires children != [] && |shifted| == |later| && forall k :: 0 <= k < |later| ==> shifted[k] == later[k] + 1
    requires forall i :: i in later <==> 0 <= i < |children| - 1 && children[1..][i].pid in pids
    ensures forall i :: i in shifted <==> 1 <= i < |children| && children[i].pid in pids
  {
    forall i ensures i in shifted <==> 1 <= i < |children| && children[i].pid in pids {
      if 1 <= i < |children| && children[i].pid in pids {
        assert children[1..][i - 1] == children[i];
        assert i - 1 in later;
        var k :| 0 <= k < |later| && later[k] == i - 1;
        assert shifted[k] == i;
      }
      if i in shifted {
        var k :| 0 <= k < |shifted| && shifted[k] == i;
        assert later[k] in later && children[1..][i - 1] == children[i];
      }
    }
  }

  lemma FreshPid(pids: set<nat>) returns (pid: nat)
    ensures pid !in pids && forall p :: p in pids ==> p < pid
    decreases |pids|
  {
    if pids == {} {
      return 0;
    }
    var p :| p in pids;
    var n := FreshPid(pids - {p});
    pid := if p < n then n else p + 1;
    assert forall q :: q in pids ==> q == p || q in pids - {p};
  }
}
