/** Validation of a module list and the start-up order it yields (src/module_graph.cpp). */
module ModuleGraph {
  import opened Sequences
  import opened StringOrder
  import opened Digraph

  datatype ModuleSpec = ModuleSpec(id: string, required: seq<string>, optional: seq<string>)

  datatype ErrorCode =
    | InvalidModuleId
    | DuplicateModuleId
    | SelfDependency
    | DuplicateDependencyEntry
    | MissingRequiredDependency
    | CycleDetected

  datatype GraphError = GraphError(code: ErrorCode, moduleId: string, dependencyId: string)

  datatype ValidationResult =
    ValidationResult(valid: bool, baseOrder: seq<string>, startupOrder: seq<string>, errors: seq<GraphError>)

  // ---------- what a module list declares ----------

  function AllDeps(m: ModuleSpec): seq<string> {
    m.required + m.optional
  }

  ghost predicate IsId(modules: seq<ModuleSpec>, id: string) {
    exists i :: 0 <= i < |modules| && modules[i].id == id
  }

  ghost predicate Lists(modules: seq<ModuleSpec>, id: string, d: string) {
    exists i :: 0 <= i < |modules| && modules[i].id == id && d in AllDeps(modules[i])
  }

  ghost function Ids(modules: seq<ModuleSpec>): set<string> {
    set i | 0 <= i < |modules| :: modules[i].id
  }

  /** Optional dependencies nobody declared are no edges. */
  ghost function DeclaredGraph(modules: seq<ModuleSpec>): (g: Graph)
    ensures Closed(g)
  {
    map id | id in Ids(modules) :: set d | d in Ids(modules) && Lists(modules, id, d)
  }

  ghost predicate WellFormedIds(modules: seq<ModuleSpec>) {
    && (forall i :: 0 <= i < |modules| ==> modules[i].id != "")
    && (forall i, j :: 0 <= i < j < |modules| ==> modules[i].id != modules[j].id)
  }

  ghost predicate WellFormedDeps(ids: set<string>, m: ModuleSpec) {
    && m.id !in AllDeps(m)
    && NoDup(AllDeps(m))
    && forall d :: d in m.required ==> d in ids
  }

  ghost predicate WellDeclared(modules: seq<ModuleSpec>) {
    && WellFormedIds(modules)
    && forall m :: m in modules ==> WellFormedDeps(Ids(modules), m)
  }

  // ---------- the first thing wrong with it ----------

  ghost function IdError(modules: seq<ModuleSpec>, i: nat): Option<GraphError>
    requires i < |modules|
  {
    var id := modules[i].id;
    if id == "" then Some(GraphError(InvalidModuleId, id, ""))
    else if IsId(modules[..i], id) then Some(GraphError(DuplicateModuleId, id, ""))
    else None
  }

  ghost function EntryError(ids: set<string>, m: ModuleSpec, k: nat): Option<GraphError>
    requires k < |AllDeps(m)|
  {
    var d := AllDeps(m)[k];
    if d == m.id then Some(GraphError(SelfDependency, m.id, d))
    else if d in AllDeps(m)[..k] then Some(GraphError(DuplicateDependencyEntry, m.id, d))
    else if k < |m.required| && d !in ids then Some(GraphError(MissingRequiredDependency, m.id, d))
    else None
  }

  ghost predicate CleanIds(modules: seq<ModuleSpec>, n: nat)
    requires n <= |modules|
  {
    forall i :: 0 <= i < n ==> IdError(modules, i).None?
  }

  ghost predicate CleanEntries(ids: set<string>, m: ModuleSpec, n: nat)
    requires n <= |AllDeps(m)|
  {
    forall k :: 0 <= k < n ==> EntryError(ids, m, k).None?
  }

  ghost predicate CleanModules(modules: seq<ModuleSpec>, n: nat)
    requires n <= |modules|
  {
    forall i :: 0 <= i < n ==> CleanEntries(Ids(modules), modules[i], |AllDeps(modules[i])|)
  }

  ghost predicate FirstBadId(modules: seq<ModuleSpec>, i: nat, e: GraphError) {
    i < |modules| && CleanIds(modules, i) && IdError(modules, i) == Some(e)
  }

  ghost predicate FirstBadEntry(modules: seq<ModuleSpec>, i: nat, k: nat, e: GraphError) {
    && CleanIds(modules, |modules|)
    && i < |modules| && CleanModules(modules, i)
    && k < |AllDeps(modules[i])| && CleanEntries(Ids(modules), modules[i], k)
    && EntryError(Ids(modules), modules[i], k) == Some(e)
  }

  /** `e` is the first thing wrong: ids before dependency entries, entries in list order,
      a cycle only when everything else is in order. */
  ghost predicate FirstError(modules: seq<ModuleSpec>, e: GraphError) {
    || (exists i: nat :: FirstBadId(modules, i, e))
    || (exists i: nat, k: nat :: FirstBadEntry(modules, i, k, e))
    || (&& WellDeclared(modules) && !Acyclic(DeclaredGraph(modules))
        && e == GraphError(CycleDetected, "", ""))
  }

  lemma CleanIdsMeaning(modules: seq<ModuleSpec>)
    ensures CleanIds(modules, |modules|) <==> WellFormedIds(modules)
  {
    if CleanIds(modules, |modules|) {
      forall i, j | 0 <= i < j < |modules| ensures modules[i].id != modules[j].id {
        assert IdError(modules, j).None?;
        assert modules[..j][i] == modules[i];
      }
      forall i | 0 <= i < |modules| ensures modules[i].id != "" {
        assert IdError(modules, i).None?;
      }
    }
  }

  lemma CleanEntriesMeaning(ids: set<string>, m: ModuleSpec)
    ensures CleanEntries(ids, m, |AllDeps(m)|) <==> WellFormedDeps(ids, m)
  {
    var deps := AllDeps(m);
    if CleanEntries(ids, m, |deps|) {
      forall i, j | 0 <= i < j < |deps| ensures deps[i] != deps[j] {
        assert EntryError(ids, m, j).None?;
        assert deps[..j][i] == deps[i];
      }
      forall k | 0 <= k < |deps| ensures deps[k] != m.id {
        assert EntryError(ids, m, k).None?;
      }
      forall d | d in m.required ensures d in ids {
        var i :| 0 <= i < |m.required| && m.required[i] == d;
        assert deps[i] == d && EntryError(ids, m, i).None?;
      }
    }
    if WellFormedDeps(ids, m) {
      forall k | 0 <= k < |deps| ensures EntryError(ids, m, k).None? {
        assert k < |m.required| ==> deps[k] == m.required[k];
      }
    }
  }

  /** The list is well declared exactly when no entry is at fault. */
  lemma CleanIsWellDeclared(modules: seq<ModuleSpec>)
    ensures CleanIds(modules, |modules|) && CleanModules(modules, |modules|) <==> WellDeclared(modules)
  {
    CleanIdsMeaning(modules);
    forall i | 0 <= i < |modules|
      ensures CleanEntries(Ids(modules), modules[i], |AllDeps(modules[i])|)
           == WellFormedDeps(Ids(modules), modules[i])
    {
      CleanEntriesMeaning(Ids(modules), modules[i]);
    }
  }

  lemma BadEntryRefutes(modules: seq<ModuleSpec>)
    ensures forall i: nat, e :: FirstBadId(modules, i, e) ==> !CleanIds(modules, |modules|)
    ensures forall i: nat, k: nat, e :: FirstBadEntry(modules, i, k, e) ==> !CleanModules(modules, |modules|)
    ensures forall i: nat, e :: FirstBadId(modules, i, e) ==> !WellDeclared(modules)
    ensures forall i: nat, k: nat, e :: FirstBadEntry(modules, i, k, e) ==> !WellDeclared(modules)
  {
    CleanIsWellDeclared(modules);
    forall i: nat, e | FirstBadId(modules, i, e) ensures !CleanIds(modules, |modules|) {
      assert IdError(modules, i).Some?;
    }
    forall i: nat, k: nat, e | FirstBadEntry(modules, i, k, e) ensures !CleanModules(modules, |modules|) {
      assert EntryError(Ids(modules), modules[i], k).Some?;
    }
  }

  lemma FirstBadIdIsUnique(modules: seq<ModuleSpec>, i: nat, e: GraphError, j: nat, f: GraphError)
    requires FirstBadId(modules, i, e) && FirstBadId(modules, j, f)
    ensures e == f
  {
    assert IdError(modules, i).Some? && IdError(modules, j).Some?;
  }

  lemma FirstBadEntryIsUnique(modules: seq<ModuleSpec>, i: nat, k: nat, e: GraphError, j: nat, l: nat, f: GraphError)
    requires FirstBadEntry(modules, i, k, e) && FirstBadEntry(modules, j, l, f)
    ensures e == f
  {
    assert EntryError(Ids(modules), modules[i], k).Some? && EntryError(Ids(modules), modules[j], l).Some?;
  }

  /** Only one error can be the first. */
  lemma FirstErrorIsUnique(modules: seq<ModuleSpec>, e: GraphError, f: GraphError)
    requires FirstError(modules, e) && FirstError(modules, f)
    ensures e == f
  {
    BadEntryRefutes(modules);
    if i: nat, j: nat :| FirstBadId(modules, i, e) && FirstBadId(modules, j, f) {
      FirstBadIdIsUnique(modules, i, e, j, f);
    } else if i: nat, k: nat, j: nat, l: nat :| FirstBadEntry(modules, i, k, e) && FirstBadEntry(modules, j, l, f) {
      FirstBadEntryIsUnique(modules, i, k, e, j, l, f);
    }
  }

  // ---------- the algorithm ----------

  /** src/module_graph.cpp:25-44 */
  method CollectIds(modules: seq<ModuleSpec>) returns (known: set<string>, error: Option<GraphError>)
    ensures error.None? ==> CleanIds(modules, |modules|) && known == Ids(modules)
    ensures error.Some? ==> exists i: nat :: FirstBadId(modules, i, error.value)
  {
    known := {};
    for n := 0 to |modules|
      invariant CleanIds(modules, n)
      invariant forall id :: id in known <==> IsId(modules[..n], id)
    {
      var id := modules[n].id;
      if id == "" {
        assert FirstBadId(modules, n, GraphError(InvalidModuleId, id, ""));
        return known, Some(GraphError(InvalidModuleId, id, ""));
      }
      if id in known {
        assert FirstBadId(modules, n, GraphError(DuplicateModuleId, id, ""));
        return known, Some(GraphError(DuplicateModuleId, id, ""));
      }
      known := known + {id};
      assert modules[..n + 1] == modules[..n] + [modules[n]];
    }
    assert modules[..|modules|] == modules;
    error := None;
  }

  ghost function KnownDeps(known: set<string>, m: ModuleSpec): set<string> {
    set d | d in known && d in AllDeps(m)
  }

  /** With distinct ids, the edges of an id are those its own module lists. */
  lemma DeclaredGraphByModule(modules: seq<ModuleSpec>, g: Graph)
    requires WellFormedIds(modules)
    requires g.Keys == Ids(modules)
    requires forall i :: 0 <= i < |modules| ==>
               modules[i].id in g && g[modules[i].id] == KnownDeps(Ids(modules), modules[i])
    ensures g == DeclaredGraph(modules)
  {
    forall id | id in g ensures g[id] == DeclaredGraph(modules)[id] {
      var i :| 0 <= i < |modules| && modules[i].id == id;
      assert forall d :: Lists(modules, id, d) <==> d in AllDeps(modules[i]);
    }
  }

  /** src/module_graph.cpp:54-103, for one module */
  method CollectDependencies(m: ModuleSpec, known: set<string>)
    returns (adjacent: set<string>, error: Option<GraphError>)
    ensures error.None? ==> CleanEntries(known, m, |AllDeps(m)|)
    ensures error.None? ==> adjacent == KnownDeps(known, m)
    ensures error.Some? ==>
              exists k :: 0 <= k < |AllDeps(m)| && CleanEntries(known, m, k) && EntryError(known, m, k) == error
  {
    var deps := AllDeps(m);
    adjacent := {};
    var seen: set<string> := {};
    for k := 0 to |deps|
      invariant CleanEntries(known, m, k)
      invariant forall d :: d in seen <==> d in deps[..k]
      invariant adjacent == set d | d in known && d in deps[..k]
    {
      var d := deps[k];
      if d == m.id {
        return adjacent, Some(GraphError(SelfDependency, m.id, d));
      }
      if d in seen {
        return adjacent, Some(GraphError(DuplicateDependencyEntry, m.id, d));
      }
      seen := seen + {d};
      if k < |m.required| && d !in known {
        return adjacent, Some(GraphError(MissingRequiredDependency, m.id, d));
      }
      if d in known {
        adjacent := adjacent + {d};
      }
      assert deps[..k + 1] == deps[..k] + [d];
    }
    assert deps[..|deps|] == deps;
    error := None;
  }

  /** src/module_graph.cpp:46-104 */
  method BuildAdjacency(modules: seq<ModuleSpec>, known: set<string>)
    returns (adjacency: Graph, error: Option<GraphError>)
    requires CleanIds(modules, |modules|) && known == Ids(modules)
    ensures error.None? ==> WellDeclared(modules) && adjacency == DeclaredGraph(modules)
    ensures error.Some? ==> exists i: nat, k: nat :: FirstBadEntry(modules, i, k, error.value)
  {
    CleanIdsMeaning(modules);
    adjacency := map id | id in known :: {};
    for n := 0 to |modules|
      invariant CleanModules(modules, n)
      invariant adjacency.Keys == known
      invariant forall i :: 0 <= i < n ==>
        modules[i].id in adjacency && adjacency[modules[i].id] == KnownDeps(known, modules[i])
    {
      var deps;
      deps, error := CollectDependencies(modules[n], known);
      if error.Some? {
        ghost var k :| 0 <= k < |AllDeps(modules[n])| && CleanEntries(known, modules[n], k)
                       && EntryError(known, modules[n], k) == error;
        assert FirstBadEntry(modules, n, k, error.value);
        return;
      }
      assert modules[n].id in known;
      adjacency := adjacency[modules[n].id := deps];
    }
    CleanIsWellDeclared(modules);
    DeclaredGraphByModule(modules, adjacency);
    error := None;
  }

  // ---------- Kahn's algorithm ----------

  /** The consumers of `v` within `us`. */
  ghost function Consumers(g: Graph, us: set<string>, v: string): set<string> {
    set u | u in us && u in g && v in g[u]
  }

  lemma ConsumersStep(g: Graph, us: set<string>, u: string, v: string)
    requires u in us && u in g
    ensures |Consumers(g, us, v)| == |Consumers(g, us - {u}, v)| + if v in g[u] then 1 else 0
  {
    if v in g[u] {
      assert Consumers(g, us, v) == Consumers(g, us - {u}, v) + {u};
    } else {
      assert Consumers(g, us, v) == Consumers(g, us - {u}, v);
    }
  }

  /** The inner loop of src/module_graph.cpp:106-111. */
  method CountEach(deps: set<string>, before: map<string, nat>) returns (indegree: map<string, nat>)
    requires deps <= before.Keys
    ensures indegree.Keys == before.Keys
    ensures forall v :: v in before ==> indegree[v] == before[v] + if v in deps then 1 else 0
  {
    indegree := before;
    var todo := deps;
    while todo != {}
      invariant todo <= deps
      invariant indegree.Keys == before.Keys
      invariant forall v :: v in before ==> indegree[v] == before[v] + if v in deps - todo then 1 else 0
      decreases todo
    {
      var d :| d in todo;
      indegree := indegree[d := indegree[d] + 1];
      todo := todo - {d};
    }
  }

  /** The outer loop of src/module_graph.cpp:106-111. */
  method CountConsumers(g: Graph) returns (indegree: map<string, nat>)
    requires Closed(g)
    ensures indegree.Keys == g.Keys
    ensures forall v :: v in g ==> indegree[v] == |Consumers(g, g.Keys, v)|
  {
    indegree := map id | id in g :: 0;
    var todo := g.Keys;
    while todo != {}
      invariant todo <= g.Keys
      invariant indegree.Keys == g.Keys
      invariant forall v :: v in g ==> indegree[v] == |Consumers(g, g.Keys - todo, v)|
      decreases todo
    {
      var u :| u in todo;
      indegree := CountEach(g[u], indegree);
      var rest := todo - {u};
      forall v | v in g
        ensures |Consumers(g, g.Keys - rest, v)| == |Consumers(g, g.Keys - todo, v)| + if v in g[u] then 1 else 0
      {
        assert g.Keys - rest - {u} == g.Keys - todo;
        ConsumersStep(g, g.Keys - rest, u, v);
      }
      todo := rest;
    }
    assert g.Keys - todo == g.Keys;
  }

  /** What the ready-set loop keeps: the placed ids, those still waiting and their counts. */
  ghost predicate KahnInvariant(g: Graph, order: seq<string>, ready: set<string>, indegree: map<string, nat>) {
    && Greedy(g, order)
    && Counts(g, Elements(order), indegree)
    && (forall v :: v in ready <==> Available(g, Elements(order), v))
  }

  lemma CountIsZero(g: Graph, placed: set<string>, v: string)
    requires v in g && v !in placed
    ensures |Consumers(g, g.Keys - placed, v)| == 0 <==> Available(g, placed, v)
  {
    var c := Consumers(g, g.Keys - placed, v);
    if Available(g, placed, v) {
      assert c == {};
    } else {
      var u :| u in g && v in g[u] && u !in placed;
      assert u in c;
    }
  }

  /** When nothing is ready, either everything is placed or the rest is stuck in a cycle. */
  lemma NothingReady(g: Graph, order: seq<string>)
    requires Closed(g) && Greedy(g, order)
    requires forall v :: !Available(g, Elements(order), v)
    ensures |order| == |g.Keys| <==> Acyclic(g)
    ensures |order| == |g.Keys| ==> LeastTopological(g, order)
  {
    GreedyNoDup(g, order);
    NoDupCardinality(order);
    SubsetCardinality(Elements(order), g.Keys);
    var rest := g.Keys - Elements(order);
    if Elements(order) == g.Keys {
      GreedyIsLeast(g, order);
      TopologicalIsAcyclic(g, order);
    } else {
      forall v | v in rest ensures HasConsumerIn(g, rest, v) {
        assert !Available(g, Elements(order), v);
      }
      assert g.Keys == rest + Elements(order);
      StuckHasCycle(g, rest);
    }
  }

  /** src/module_graph.cpp:129-137: release the dependencies of the id just placed. */
  method Release(g: Graph, current: string, ready0: set<string>, indegree0: map<string, nat>)
    returns (ready: set<string>, indegree: map<string, nat>)
    requires current in g && g[current] <= indegree0.Keys
    ensures indegree.Keys == indegree0.Keys
    ensures forall v :: v in indegree ==>
              indegree[v] == if v in g[current] && indegree0[v] > 0 then indegree0[v] - 1 else indegree0[v]
    ensures ready == ready0 + set v | v in g[current] && indegree[v] == 0
  {
    ready, indegree := ready0, indegree0;
    var todo := g[current];
    while todo != {}
      invariant todo <= g[current]
      invariant indegree.Keys == indegree0.Keys
      invariant forall v :: v in indegree ==>
                  indegree[v] == if v in g[current] - todo && indegree0[v] > 0 then indegree0[v] - 1 else indegree0[v]
      invariant ready == ready0 + set v | v in g[current] - todo && indegree[v] == 0
      decreases todo
    {
      var d :| d in todo;
      if indegree[d] > 0 {
        indegree := indegree[d := indegree[d] - 1];
      }
      if indegree[d] == 0 {
        ready := ready + {d};
      }
      todo := todo - {d};
    }
  }

  /** `indegree` counts the consumers still waiting. */
  ghost predicate Counts(g: Graph, placed: set<string>, indegree: map<string, nat>) {
    && indegree.Keys == g.Keys
    && forall v :: v in g ==> indegree[v] == |Consumers(g, g.Keys - placed, v)|
  }

  lemma CountsStep(g: Graph, placed: set<string>, indegree: map<string, nat>, current: string,
                   indegree': map<string, nat>)
    requires Counts(g, placed, indegree)
    requires current in g && current !in placed
    requires indegree'.Keys == indegree.Keys
    requires forall v :: v in indegree' ==>
               indegree'[v] == if v in g[current] && indegree[v] > 0 then indegree[v] - 1 else indegree[v]
    ensures Counts(g, placed + {current}, indegree')
  {
    forall v | v in g ensures indegree'[v] == |Consumers(g, g.Keys - (placed + {current}), v)| {
      ConsumersStep(g, g.Keys - placed, current, v);
      assert g.Keys - placed - {current} == g.Keys - (placed + {current});
    }
  }

  lemma ReadyStep(g: Graph, placed: set<string>, ready: set<string>,
                  current: string, indegree': map<string, nat>, ready': set<string>)
    requires Closed(g)
    requires forall v :: v in ready <==> Available(g, placed, v)
    requires forall u, v :: u in g && v in placed && v in g[u] ==> u in placed
    requires Available(g, placed, current)
    requires Counts(g, placed + {current}, indegree')
    requires ready' == ready - {current} + set v | v in g[current] && v in indegree' && indegree'[v] == 0
    ensures forall v :: v in ready' <==> Available(g, placed + {current}, v)
  {
    var placed' := placed + {current};
    forall v ensures v in ready' <==> Available(g, placed', v) {
      if v in g && v !in placed' {
        CountIsZero(g, placed', v);
        assert v !in g[current] ==> (Available(g, placed', v) <==> Available(g, placed, v));
      } else if v in g[current] {
        // what `current` consumes cannot have been placed before it
        assert Available(g, placed, current);
      }
    }
  }

  lemma KahnStep(g: Graph, order: seq<string>, ready: set<string>, indegree: map<string, nat>,
                 current: string, ready': set<string>, indegree': map<string, nat>)
    requires Closed(g) && KahnInvariant(g, order, ready, indegree)
    requires IsLeast(ready, current)
    requires indegree'.Keys == indegree.Keys
    requires forall v :: v in indegree' ==>
               indegree'[v] == if v in g[current] && indegree[v] > 0 then indegree[v] - 1 else indegree[v]
    requires ready' == ready - {current} + set v | v in g[current] && indegree'[v] == 0
    ensures KahnInvariant(g, order + [current], ready', indegree')
  {
    ElementsAppend(order, current);
    GreedyAppend(g, order, current);
    GreedyPlacesConsumers(g, order);
    CountsStep(g, Elements(order), indegree, current, indegree');
    ReadyStep(g, Elements(order), ready, current, indegree', ready');
  }

  lemma GreedyPlacesConsumers(g: Graph, order: seq<string>)
    requires Greedy(g, order)
    ensures forall u, v :: u in g && v in Elements(order) && v in g[u] ==> u in Elements(order)
  {
    forall u, v | u in g && v in Elements(order) && v in g[u] ensures u in Elements(order) {
      var k :| 0 <= k < |order| && order[k] == v;
      assert GreedyAt(g, order, k);
      assert u in order[..k];
    }
  }

  lemma KahnStart(g: Graph, indegree: map<string, nat>)
    requires Counts(g, {}, indegree)
    ensures KahnInvariant(g, [], (set v | v in indegree && indegree[v] == 0), indegree)
  {
    assert Elements<string>([]) == {};
    forall v | v in g ensures indegree[v] == 0 <==> Available(g, {}, v) {
      CountIsZero(g, {}, v);
    }
  }

  lemma GreedyAppend(g: Graph, order: seq<string>, current: string)
    requires Greedy(g, order)
    requires Available(g, Elements(order), current)
    requires forall v :: Available(g, Elements(order), v) ==> !Less(v, current)
    ensures Greedy(g, order + [current])
  {
    var longer := order + [current];
    forall k | 0 <= k < |longer| ensures GreedyAt(g, longer, k) {
      if k < |order| {
        assert GreedyAt(g, order, k);
        assert longer[..k] == order[..k];
      } else {
        assert longer[..k] == order;
      }
    }
  }

  /** src/module_graph.cpp:124-137: place the least ready id. */
  method PlaceLeast(g: Graph, order0: seq<string>, ready0: set<string>, indegree0: map<string, nat>)
    returns (order: seq<string>, ready: set<string>, indegree: map<string, nat>)
    requires Closed(g) && KahnInvariant(g, order0, ready0, indegree0) && ready0 != {}
    ensures KahnInvariant(g, order, ready, indegree)
    ensures Elements(order0) < Elements(order) <= g.Keys
  {
    ghost var least := LeastExists(ready0);
    var current :| current in ready0 && IsLeast(ready0, current);
    assert Available(g, Elements(order0), current);
    ready, indegree := Release(g, current, ready0 - {current}, indegree0);
    KahnStep(g, order0, ready0, indegree0, current, ready, indegree);
    order := order0 + [current];
    ElementsAppend(order0, current);
    GreedyNoDup(g, order);
  }

  /** src/module_graph.cpp:106-138. The order falls short exactly when the graph has a cycle. */
  method OrderModules(g: Graph) returns (order: seq<string>)
    requires Closed(g)
    ensures |order| == |g.Keys| <==> Acyclic(g)
    ensures |order| == |g.Keys| ==> LeastTopological(g, order)
  {
    var indegree := CountConsumers(g);
    var ready := set v | v in indegree && indegree[v] == 0;
    order := [];
    assert g.Keys - {} == g.Keys;
    KahnStart(g, indegree);
    while ready != {}
      invariant KahnInvariant(g, order, ready, indegree)
      decreases g.Keys - Elements(order)
    {
      order, ready, indegree := PlaceLeast(g, order, ready, indegree);
    }
    NothingReady(g, order);
  }

  /** src/module_graph.cpp:24-158 */
  method ValidateModuleGraph(modules: seq<ModuleSpec>) returns (r: ValidationResult)
    ensures r.valid <==> WellDeclared(modules) && Acyclic(DeclaredGraph(modules))
    ensures r.valid ==> LeastTopological(DeclaredGraph(modules), r.baseOrder)
    ensures r.valid ==> r.startupOrder == Reverse(r.baseOrder) && r.errors == []
    ensures !r.valid ==> r.baseOrder == r.startupOrder == []
    ensures !r.valid ==> |r.errors| == 1 && FirstError(modules, r.errors[0])
  {
    BadEntryRefutes(modules);
    var known, idError := CollectIds(modules);
    if idError.Some? {
      return ValidationResult(false, [], [], [idError.value]);
    }
    var adjacency, depError := BuildAdjacency(modules, known);
    if depError.Some? {
      return ValidationResult(false, [], [], [depError.value]);
    }
    var baseOrder := OrderModules(adjacency);
    assert adjacency.Keys == known;
    if |baseOrder| != |known| {
      return ValidationResult(false, [], [], [GraphError(CycleDetected, "", "")]);
    }
    r := ValidationResult(true, baseOrder, Reverse(baseOrder), []);
  }

  // ---------- consequences ----------

  /** What the start-up sequence relies on: nothing precedes one of its dependencies. */
  ghost predicate DependenciesFirst(g: Graph, order: seq<string>) {
    && NoDup(order)
    && forall i, j :: 0 <= i < |order| && 0 <= j < |order| && order[i] in g && order[j] in g[order[i]] ==> j < i
  }

  lemma StartupIsDependenciesFirst(g: Graph, baseOrder: seq<string>)
    requires Topological(g, baseOrder)
    ensures DependenciesFirst(g, Reverse(baseOrder))
    ensures Elements(Reverse(baseOrder)) == g.Keys
  {
    var n, r := |baseOrder|, Reverse(baseOrder);
    forall i, j | 0 <= i < n && 0 <= j < n && r[i] in g && r[j] in g[r[i]] ensures j < i {
      assert baseOrder[n - 1 - j] in g[baseOrder[n - 1 - i]];
    }
    ReverseNoDup(baseOrder);
    ReverseElements(baseOrder);
  }

  lemma SameMembers<T>(a: seq<T>, b: seq<T>)
    requires multiset(a) == multiset(b)
    ensures |a| == |b| && forall x :: x in a <==> x in b
  {
    assert |multiset(a)| == |a| && |multiset(b)| == |b|;
    forall x ensures x in a <==> x in b {
      assert x in a <==> x in multiset(a);
      assert x in b <==> x in multiset(b);
    }
  }

  lemma DistinctByCount(modules: seq<ModuleSpec>)
    ensures WellFormedIds(modules) <==> "" !in Ids(modules) && |Ids(modules)| == |modules|
  {
    var ids := seq(|modules|, i requires 0 <= i < |modules| => modules[i].id);
    assert forall i :: 0 <= i < |ids| ==> ids[i] == modules[i].id;
    forall id ensures id in Elements(ids) <==> id in Ids(modules) {
      if id in Ids(modules) { var i :| 0 <= i < |modules| && modules[i].id == id; assert ids[i] == id; }
    }
    assert Elements(ids) == Ids(modules);
    NoDupCardinality(ids);
    if NoDup(ids) {
      forall i, j | 0 <= i < j < |modules| ensures modules[i].id != modules[j].id {
        assert ids[i] != ids[j];
      }
    }
    assert forall i :: 0 <= i < |modules| ==> modules[i].id in Ids(modules);
  }

  /** The verdict and the orders depend on what is declared, not on how the list is arranged. */
  lemma ListingOrderIsIrrelevant(a: seq<ModuleSpec>, b: seq<ModuleSpec>)
    requires multiset(a) == multiset(b)
    ensures WellDeclared(a) <==> WellDeclared(b)
    ensures DeclaredGraph(a) == DeclaredGraph(b)
    ensures forall x, y :: LeastTopological(DeclaredGraph(a), x) && LeastTopological(DeclaredGraph(b), y) ==> x == y
  {
    SameMembers(a, b);
    assert Ids(a) == Ids(b) by {
      forall id ensures id in Ids(a) <==> id in Ids(b) {
        if id in Ids(a) { var i :| 0 <= i < |a| && a[i].id == id; assert a[i] in b; }
        if id in Ids(b) { var i :| 0 <= i < |b| && b[i].id == id; assert b[i] in a; }
      }
    }
    DistinctByCount(a);
    DistinctByCount(b);
    forall id, d ensures Lists(a, id, d) <==> Lists(b, id, d) {
      if Lists(a, id, d) { var i :| 0 <= i < |a| && a[i].id == id && d in AllDeps(a[i]); assert a[i] in b; }
      if Lists(b, id, d) { var i :| 0 <= i < |b| && b[i].id == id && d in AllDeps(b[i]); assert b[i] in a; }
    }
    forall id | id in Ids(a) ensures DeclaredGraph(a)[id] == DeclaredGraph(b)[id] {
    }
    assert DeclaredGraph(a) == DeclaredGraph(b);
    forall x, y | LeastTopological(DeclaredGraph(a), x) && LeastTopological(DeclaredGraph(b), y) ensures x == y {
      LeastIsUnique(DeclaredGraph(a), x, y);
    }
  }

  // ---------- the order and the errors, spelled out ----------

  /** Wherever another consumer-first order first departs from the base order, the base order has the smaller id:
      the two ids agree up to some character, and there the smaller one ends or has the smaller character. */
  lemma BaseOrderHasSmallerIds(g: Graph, base: seq<string>, other: seq<string>) returns (k: nat, c: nat)
    requires LeastTopological(g, base) && Topological(g, other) && other != base
    ensures k < |base| && k < |other| && base[..k] == other[..k]
    ensures var a, b := base[k], other[k];
            c <= |a| && c < |b| && a[..c] == b[..c] && (c == |a| || a[c] < b[c])
  {
    assert LexBefore(base, other);
    k :| 0 <= k < |base| && k < |other| && base[..k] == other[..k] && Less(base[k], other[k]);
    LessMeaning(base[k], other[k]);
    c :| 0 <= c <= |base[k]| && c < |other[k]| && base[k][..c] == other[k][..c]
         && (c == |base[k]| || base[k][c] < other[k][c]);
  }

  /** The `k`-th entry of a module: its required dependencies, then its optional ones. */
  ghost predicate EntryAt(m: ModuleSpec, k: nat, d: string) {
    || (k < |m.required| && m.required[k] == d)
    || (|m.required| <= k < |m.required| + |m.optional| && m.optional[k - |m.required|] == d)
  }

  /** What each error code says about the module and the entry that it names. */
  lemma ErrorCodeMeaning(modules: seq<ModuleSpec>, e: GraphError)
    requires FirstError(modules, e)
    ensures e.code == InvalidModuleId ==>
              e.moduleId == e.dependencyId == "" && exists i :: 0 <= i < |modules| && modules[i].id == ""
    ensures e.code == DuplicateModuleId ==>
              && e.dependencyId == "" != e.moduleId
              && exists i, j :: 0 <= j < i < |modules| && modules[j].id == modules[i].id == e.moduleId
    ensures e.code == SelfDependency ==>
              e.dependencyId == e.moduleId && exists m, k :: m in modules && m.id == e.moduleId && EntryAt(m, k, m.id)
    ensures e.code == DuplicateDependencyEntry ==>
              && e.dependencyId != e.moduleId
              && exists m, k, l :: m in modules && m.id == e.moduleId && l < k
                                   && EntryAt(m, k, e.dependencyId) && EntryAt(m, l, e.dependencyId)
    ensures e.code == MissingRequiredDependency ==>
              && e.dependencyId != e.moduleId
              && (exists m :: m in modules && m.id == e.moduleId && e.dependencyId in m.required)
              && forall m :: m in modules ==> m.id != e.dependencyId
    ensures e.code == CycleDetected ==> e.moduleId == e.dependencyId == "" && !Acyclic(DeclaredGraph(modules))
  {
    if i: nat :| FirstBadId(modules, i, e) {
      IdErrorMeaning(modules, i, e);
    } else if i: nat, k: nat :| FirstBadEntry(modules, i, k, e) {
      EntryErrorMeaning(modules, modules[i], k, e);
    }
  }

  lemma IdErrorMeaning(modules: seq<ModuleSpec>, i: nat, e: GraphError)
    requires i < |modules| && IdError(modules, i) == Some(e)
    ensures e.moduleId == modules[i].id && e.dependencyId == ""
    ensures if e.moduleId == "" then e.code == InvalidModuleId
            else e.code == DuplicateModuleId && exists j :: 0 <= j < i && modules[j].id == e.moduleId
  {
    if e.moduleId != "" {
      var j :| 0 <= j < i && modules[..i][j].id == modules[i].id;
      assert modules[j].id == e.moduleId;
    }
  }

  lemma EntryErrorMeaning(modules: seq<ModuleSpec>, m: ModuleSpec, k: nat, e: GraphError)
    requires m in modules && k < |AllDeps(m)| && EntryError(Ids(modules), m, k) == Some(e)
    ensures e.moduleId == m.id && EntryAt(m, k, e.dependencyId)
    ensures e.code in {SelfDependency, DuplicateDependencyEntry, MissingRequiredDependency}
    ensures e.code == SelfDependency <==> e.dependencyId == m.id
    ensures e.code == DuplicateDependencyEntry <==>
              e.dependencyId != m.id && exists l :: 0 <= l < k && EntryAt(m, l, e.dependencyId)
    ensures e.code == MissingRequiredDependency ==>
              e.dependencyId in m.required && forall n :: n in modules ==> n.id != e.dependencyId
  {
    var d := e.dependencyId;
    if e.code == DuplicateDependencyEntry {
      var l :| 0 <= l < k && AllDeps(m)[..k][l] == d;
      assert EntryAt(m, l, d);
    }
    if l :| 0 <= l < k && EntryAt(m, l, d) {
      assert AllDeps(m)[..k][l] == d;
    }
    if e.code == MissingRequiredDependency {
      assert m.required[k] == d;
      forall n | n in modules ensures n.id != d {
        var i :| 0 <= i < |modules| && modules[i] == n;
        assert modules[i].id in Ids(modules);
      }
    }
  }
}
