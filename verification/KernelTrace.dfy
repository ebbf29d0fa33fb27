/** What an observer of the kernel sees: state entries, the service freeze, handler calls and the
    steps of a shutdown; cut into cycles by the entries into Stopped. */
module KernelTrace {
  import opened Sequences
  import opened Digraph
  import opened ModuleGraph
  import Lifecycle

  datatype ModulePhase = Initialize | Start | Stop | Teardown

  /** `Resolved` marks the moment the start-up sequence picks its order; `StepRan` is the answer of a bootstrap or
      initialize callback. */
  datatype Event =
    | Resolved(modules: seq<ModuleSpec>, order: seq<string>)
    | Entered(state: Lifecycle.State)
    | StepRan(ok: bool)
    | Froze
    | Called(id: string, phase: ModulePhase, ok: bool)
    | StopNotified(id: string, ok: bool)
    | DeferredEventsHandled
    | PlatformTornDown(step: nat, ok: bool)
    | ServicesTornDown
    | DiagnosticsFlushed

  function CurrentCycle(t: seq<Event>): seq<Event> {
    if t == [] || t[|t| - 1] == Entered(Lifecycle.Stopped) then []
    else CurrentCycle(t[..|t| - 1]) + [t[|t| - 1]]
  }

  function CallsOf(c: seq<Event>): seq<Event> {
    if c == [] then []
    else CallsOf(c[..|c| - 1]) + if c[|c| - 1].Called? then [c[|c| - 1]] else []
  }

  /** Which modules a cycle was resolved for, and in which order. */
  function ResolutionsOf(c: seq<Event>): seq<Event> {
    if c == [] then []
    else ResolutionsOf(c[..|c| - 1]) + if c[|c| - 1].Resolved? then [c[|c| - 1]] else []
  }

  /** The modules whose stop was announced to the stop handler. */
  function NotifiedOf(c: seq<Event>): seq<string> {
    if c == [] then []
    else NotifiedOf(c[..|c| - 1]) + if c[|c| - 1].StopNotified? then [c[|c| - 1].id] else []
  }

  function Count(c: seq<Event>, e: Event): nat {
    if c == [] then 0 else Count(c[..|c| - 1], e) + if c[|c| - 1] == e then 1 else 0
  }

  function States(t: seq<Event>): seq<Lifecycle.State> {
    if t == [] then []
    else States(t[..|t| - 1]) + if t[|t| - 1].Entered? then [t[|t| - 1].state] else []
  }

  /** How many callbacks answered that they failed. */
  function Failures(t: seq<Event>): nat {
    if t == [] then 0
    else
      Failures(t[..|t| - 1])
      + match t[|t| - 1]
        case StepRan(ok) => if ok then 0 else 1
        case Called(_, _, ok) => if ok then 0 else 1
        case StopNotified(_, ok) => if ok then 0 else 1
        case PlatformTornDown(_, ok) => if ok then 0 else 1
        case _ => 0
  }

  lemma FailuresSnoc(t: seq<Event>, e: Event)
    ensures Failures(t) <= Failures(t + [e])
    ensures Failures(t + [e]) == Failures(t) <==>
              && e != StepRan(false) && (e.Called? ==> e.ok) && (e.StopNotified? ==> e.ok)
              && (e.PlatformTornDown? ==> e.ok)
  {
    assert (t + [e])[..|t|] == t;
  }

  /** No failure is counted between two moments exactly if none of the answers in between is a refusal. */
  lemma {:induction false} FailuresSince(t: seq<Event>, t': seq<Event>)
    requires t <= t'
    ensures Failures(t) <= Failures(t')
    ensures Failures(t') == Failures(t) <==>
              forall i :: |t| <= i < |t'| ==>
                && t'[i] != StepRan(false) && (t'[i].Called? ==> t'[i].ok) && (t'[i].StopNotified? ==> t'[i].ok)
                && (t'[i].PlatformTornDown? ==> t'[i].ok)
  {
    if |t| < |t'| {
      var before, e := t'[..|t'| - 1], t'[|t'| - 1];
      FailuresSince(t, before);
      FailuresSnoc(before, e);
      assert t' == before + [e];
      assert forall i :: 0 <= i < |before| ==> t'[i] == before[i];
    } else {
      assert t == t';
    }
  }

  // ---------- the shape of one cycle ----------

  /** Initialize then Start, module after module along `order`; nothing follows a failure. */
  ghost predicate UpsOk(order: seq<string>, ups: seq<Event>) {
    && |ups| <= 2 * |order|
    && forall j :: 0 <= j < |ups| ==>
         && ups[j].Called? && ups[j].id == order[j / 2]
         && ups[j].phase == (if j % 2 == 0 then Initialize else Start)
         && (j < |ups| - 1 ==> ups[j].ok)
  }

  /** How many Start calls succeeded. */
  function StartedCount(ups: seq<Event>): nat {
    if ups != [] && ups[|ups| - 1].Called? && !ups[|ups| - 1].ok then (|ups| - 1) / 2 else |ups| / 2
  }

  /** Stop then Teardown, module after module backwards along `started`. */
  ghost predicate DownsOk(started: seq<string>, downs: seq<Event>) {
    && |downs| <= 2 * |started|
    && forall j :: 0 <= j < |downs| ==>
         && downs[j].Called? && downs[j].id == started[|started| - 1 - j / 2]
         && downs[j].phase == if j % 2 == 0 then Stop else Teardown
  }

  /** `r` lists the last `j` elements of `s`, last one first. */
  ghost predicate Mirrors<T>(r: seq<T>, s: seq<T>, j: nat) {
    |r| == j <= |s| && forall k :: 0 <= k < j ==> r[k] == s[|s| - 1 - k]
  }

  lemma MirrorsNext<T>(r: seq<T>, s: seq<T>, j: nat)
    requires Mirrors(r, s, j) && j < |s|
    ensures Mirrors(r + [s[|s| - 1 - j]], s, j + 1)
  {
  }

  ghost predicate Reverses(base: seq<string>, order: seq<string>) {
    base == Reverse(order)
  }

  /** `order` starts up the graph that `modules` declare: its reverse is the graph's base order. */
  ghost predicate StartsUp(modules: seq<ModuleSpec>, order: seq<string>) {
    forall base :: Reverses(base, order) ==> LeastTopological(DeclaredGraph(modules), base)
  }

  /** `order` is empty until the cycle is resolved. */
  datatype Cycle = Cycle(resolved: bool, modules: seq<ModuleSpec>, order: seq<string>, ups: seq<Event>,
                         downs: seq<Event>, notified: seq<string>, runs: nat, freezes: nat)

  const FRESH := Cycle(false, [], [], [], [], [], 0, 0)

  function Resolution(c: Cycle): seq<Event> {
    if c.resolved then [Resolved(c.modules, c.order)] else []
  }

  ghost predicate Planned(c: Cycle) {
    if c.resolved then StartsUp(c.modules, c.order) else c.order == []
  }

  /** `calls` are first the upward, then the downward ones of the cycle. */
  ghost predicate Matches(c: Cycle, calls: seq<Event>) {
    && calls == c.ups + c.downs
    && UpsOk(c.order, c.ups)
    && StartedCount(c.ups) <= |c.order|
    && DownsOk(c.order[..StartedCount(c.ups)], c.downs)
  }

  /** Everything that was started has been stopped and torn down. */
  predicate Complete(c: Cycle) {
    |c.downs| == 2 * StartedCount(c.ups)
  }

  /** The modules and the order of `c` are those the cycle was resolved for. */
  ghost predicate Describes(c: Cycle, events: seq<Event>) {
    && Planned(c) && ResolutionsOf(events) == Resolution(c)
    && Matches(c, CallsOf(events))
    && NotifiedOf(events) == c.notified && Mirrors(c.notified, c.order, |c.notified|)
    && Count(events, Entered(Lifecycle.Running)) == c.runs <= 1
    && Count(events, Froze) == c.freezes <= 1
  }

  /** Each cycle, at each moment, has the shape; and it is complete when Stopped is entered. */
  ghost predicate Safe(t: seq<Event>) {
    forall n :: 0 <= n <= |t| ==> SafeAt(t, n)
  }

  ghost predicate SafeAt(t: seq<Event>, n: nat)
    requires n <= |t|
  {
    && CycleOk(CurrentCycle(t[..n]))
    && (n < |t| && t[n] == Entered(Lifecycle.Stopped) ==> CompleteCycle(CurrentCycle(t[..n])))
  }

  ghost predicate CycleOk(events: seq<Event>) {
    exists c :: Describes(c, events)
  }

  ghost predicate CompleteCycle(events: seq<Event>) {
    exists c :: Describes(c, events) && Complete(c)
  }

  // ---------- a monitor that reads one event at a time ----------

  /** What may happen next in a cycle. */
  ghost predicate Allowed(c: Cycle, e: Event) {
    match e
    case Resolved(modules, order) =>
      !c.resolved && c.ups == [] && c.downs == [] && c.notified == [] && StartsUp(modules, order)
    case Called(id, phase, ok) =>
      var m, n, k := |c.ups|, StartedCount(c.ups), |c.downs|;
      if phase.Initialize? || phase.Start? then
        && c.freezes == 1 && c.runs == 0
        && k == 0 && m < 2 * |c.order| && (m > 0 ==> c.ups[m - 1].Called? && c.ups[m - 1].ok)
        && id == c.order[m / 2] && phase == (if m % 2 == 0 then Initialize else Start)
      else
        && n <= |c.order| && k < 2 * n
        && id == c.order[n - 1 - k / 2] && phase == if k % 2 == 0 then Stop else Teardown
    case StopNotified(id, _) => |c.notified| < |c.order| && id == c.order[|c.order| - 1 - |c.notified|]
    case Entered(st) => (st.Running? ==> c.runs == 0 && c.freezes == 1) && (st.Stopped? ==> Complete(c))
    case Froze => c.freezes == 0
    case _ => true
  }

  function Step(c: Cycle, e: Event): Cycle {
    match e
    case Resolved(modules, order) => c.(resolved := true, modules := modules, order := order)
    case Called(_, phase, _) =>
      if phase.Initialize? || phase.Start? then c.(ups := c.ups + [e]) else c.(downs := c.downs + [e])
    case StopNotified(id, _) => c.(notified := c.notified + [id])
    case Entered(st) => if st.Stopped? then FRESH else if st.Running? then c.(runs := c.runs + 1) else c
    case Froze => c.(freezes := c.freezes + 1)
    case _ => c
  }

  function Run(t: seq<Event>): Cycle {
    if t == [] then FRESH else Step(Run(t[..|t| - 1]), t[|t| - 1])
  }

  ghost predicate Accepted(t: seq<Event>) {
    forall n :: 0 <= n < |t| ==> AllowedAt(t, n)
  }

  ghost predicate AllowedAt(t: seq<Event>, n: nat)
    requires n < |t|
  {
    Allowed(Run(t[..n]), t[n])
  }

  lemma AcceptedPrefix(t: seq<Event>, n: nat)
    requires Accepted(t) && n <= |t|
    ensures Accepted(t[..n]) && (n < |t| ==> Allowed(Run(t[..n]), t[n]))
  {
    forall k | 0 <= k < n ensures AllowedAt(t[..n], k) {
      assert AllowedAt(t, k) && t[..n][..k] == t[..k];
    }
    if n < |t| {
      assert AllowedAt(t, n);
    }
  }

  lemma AcceptAppend(t: seq<Event>, e: Event)
    ensures Run(t + [e]) == Step(Run(t), e)
    ensures Accepted(t) && Allowed(Run(t), e) ==> Accepted(t + [e])
    ensures States(t + [e]) == States(t) + if e.Entered? then [e.state] else []
    ensures Failures(t + [e]) == Failures(t) + Failures([e])
  {
    assert (t + [e])[..|t|] == t;
    if Accepted(t) && Allowed(Run(t), e) {
      AcceptNext(t, e);
    }
  }

  lemma AcceptNext(t: seq<Event>, e: Event)
    requires Accepted(t) && Allowed(Run(t), e)
    ensures Accepted(t + [e])
  {
    forall n | 0 <= n < |t + [e]| ensures AllowedAt(t + [e], n) {
      assert (t + [e])[..n] == t[..n];
      if n < |t| {
        assert AllowedAt(t, n);
      } else {
        assert t[..n] == t;
      }
    }
  }

  // ---------- what the monitor accepts is safe ----------

  lemma SafeAtCarries(t: seq<Event>, t': seq<Event>, n: nat)
    requires n <= |t| && n <= |t'| && t[..n] == t'[..n] && SafeAt(t, n)
    requires n < |t'| ==> n < |t| && t'[n] == t[n]
    ensures SafeAt(t', n)
  {
  }

  lemma SafeExtends(before: seq<Event>, e: Event)
    requires Safe(before) && CycleOk(CurrentCycle(before + [e]))
    requires e == Entered(Lifecycle.Stopped) ==> CompleteCycle(CurrentCycle(before))
    ensures Safe(before + [e])
  {
    var t := before + [e];
    forall n | 0 <= n <= |t| ensures SafeAt(t, n) {
      if n < |before| {
        assert t[..n] == before[..n] && SafeAt(before, n);
        SafeAtCarries(before, t, n);
      } else if n == |before| {
        assert t[..n] == before == before[..n] && SafeAt(before, n);
      } else {
        assert t[..n] == t;
      }
    }
  }

  lemma SafePrefix(t: seq<Event>)
    requires Safe(t) && t != []
    ensures Safe(t[..|t| - 1]) && CycleOk(CurrentCycle(t))
  {
    var before := t[..|t| - 1];
    forall n | 0 <= n <= |before| ensures SafeAt(before, n) {
      assert before[..n] == t[..n] && SafeAt(t, n);
      SafeAtCarries(t, before, n);
    }
    assert t[..|t|] == t && SafeAt(t, |t|);
  }

  /** At any moment one description fits the cycle so far: the modules it was resolved for, calls up and then down along
      their order; and it is complete when Stopped comes next. */
  lemma SafeMeaning(t: seq<Event>, n: nat) returns (c: Cycle)
    requires Safe(t) && n <= |t|
    ensures Describes(c, CurrentCycle(t[..n]))
    ensures n < |t| && t[n] == Entered(Lifecycle.Stopped) ==> Complete(c)
  {
    assert SafeAt(t, n);
    if n < |t| && t[n] == Entered(Lifecycle.Stopped) {
      c :| Describes(c, CurrentCycle(t[..n])) && Complete(c);
    } else {
      c :| Describes(c, CurrentCycle(t[..n]));
    }
  }

  lemma CycleExtends(t: seq<Event>, e: Event)
    requires e != Entered(Lifecycle.Stopped)
    ensures CurrentCycle(t + [e]) == CurrentCycle(t) + [e]
    ensures States(t + [e]) == States(t) + if e.Entered? then [e.state] else []
  {
    assert (t + [e])[..|t|] == t;
  }

  lemma FoldsExtend(c: seq<Event>, e: Event)
    ensures CallsOf(c + [e]) == CallsOf(c) + if e.Called? then [e] else []
    ensures ResolutionsOf(c + [e]) == ResolutionsOf(c) + if e.Resolved? then [e] else []
    ensures NotifiedOf(c + [e]) == NotifiedOf(c) + if e.StopNotified? then [e.id] else []
    ensures forall x :: Count(c + [e], x) == Count(c, x) + if e == x then 1 else 0
  {
    assert (c + [e])[..|c|] == c;
  }

  lemma FreshDescribesNothing()
    ensures Describes(FRESH, [])
  {
  }

  lemma DescribesUp(c: Cycle, events: seq<Event>, e: Event)
    requires Describes(c, events) && Allowed(c, e) && e.Called? && (e.phase.Initialize? || e.phase.Start?)
    ensures Describes(Step(c, e), events + [e])
  {
    FoldsExtend(events, e);
    var c' := Step(c, e);
    assert UpsOk(c'.order, c'.ups);
    assert StartedCount(c'.ups) <= |c'.order|;
    assert c'.ups + c'.downs == c.ups + c.downs + [e];
  }

  lemma DownsExtend(started: seq<string>, downs: seq<Event>, e: Event)
    requires DownsOk(started, downs) && |downs| < 2 * |started|
    requires e.Called? && e.id == started[|started| - 1 - |downs| / 2]
    requires e.phase == if |downs| % 2 == 0 then Stop else Teardown
    ensures DownsOk(started, downs + [e])
  {
  }

  lemma DescribesDown(c: Cycle, events: seq<Event>, e: Event)
    requires Describes(c, events) && Allowed(c, e) && e.Called? && (e.phase.Stop? || e.phase.Teardown?)
    ensures Describes(Step(c, e), events + [e])
  {
    FoldsExtend(events, e);
    MatchesDown(c, CallsOf(events), e);
  }

  lemma MatchesDown(c: Cycle, calls: seq<Event>, e: Event)
    requires Matches(c, calls) && Allowed(c, e) && e.Called? && (e.phase.Stop? || e.phase.Teardown?)
    ensures Matches(Step(c, e), calls + [e])
  {
    DownsExtend(c.order[..StartedCount(c.ups)], c.downs, e);
    assert c.ups + (c.downs + [e]) == c.ups + c.downs + [e];
  }

  lemma DescribesStep(c: Cycle, events: seq<Event>, e: Event)
    requires Describes(c, events) && Allowed(c, e) && e != Entered(Lifecycle.Stopped)
    ensures Describes(Step(c, e), events + [e])
  {
    if e.Called? {
      if e.phase.Initialize? || e.phase.Start? {
        DescribesUp(c, events, e);
      } else {
        DescribesDown(c, events, e);
      }
    } else if e.StopNotified? {
      DescribesNotified(c, events, e);
    } else if e.Resolved? {
      DescribesResolved(c, events, e);
    } else {
      DescribesRest(c, events, e);
    }
  }

  lemma DescribesNotified(c: Cycle, events: seq<Event>, e: Event)
    requires Describes(c, events) && Allowed(c, e) && e.StopNotified?
    ensures Describes(Step(c, e), events + [e])
  {
    AnnouncementExtends(c, events, e);
    OtherFoldsKeep(events, e);
    MatchesSame(c, Step(c, e), CallsOf(events));
  }

  lemma DescribesResolved(c: Cycle, events: seq<Event>, e: Event)
    requires Describes(c, events) && Allowed(c, e) && e.Resolved?
    ensures Describes(Step(c, e), events + [e])
  {
    FoldsExtend(events, e);
  }

  lemma AnnouncementExtends(c: Cycle, events: seq<Event>, e: Event)
    requires NotifiedOf(events) == c.notified && Mirrors(c.notified, c.order, |c.notified|)
    requires Allowed(c, e) && e.StopNotified?
    ensures NotifiedOf(events + [e]) == Step(c, e).notified
    ensures Mirrors(Step(c, e).notified, c.order, |Step(c, e).notified|)
  {
    FoldsExtend(events, e);
    MirrorsNext(c.notified, c.order, |c.notified|);
  }

  lemma OtherFoldsKeep(events: seq<Event>, e: Event)
    requires e.StopNotified?
    ensures CallsOf(events + [e]) == CallsOf(events) && ResolutionsOf(events + [e]) == ResolutionsOf(events)
    ensures Count(events + [e], Froze) == Count(events, Froze)
    ensures Count(events + [e], Entered(Lifecycle.Running)) == Count(events, Entered(Lifecycle.Running))
  {
    FoldsExtend(events, e);
  }

  lemma MatchesSame(c: Cycle, c': Cycle, calls: seq<Event>)
    requires Matches(c, calls) && c'.order == c.order && c'.ups == c.ups && c'.downs == c.downs
    ensures Matches(c', calls)
  {
  }

  lemma DescribesRest(c: Cycle, events: seq<Event>, e: Event)
    requires Describes(c, events) && Allowed(c, e)
    requires !e.Called? && !e.StopNotified? && !e.Resolved? && e != Entered(Lifecycle.Stopped)
    ensures Describes(Step(c, e), events + [e])
  {
    FoldsExtend(events, e);
  }

  /** Whatever the monitor accepts is safe, and the monitor's state describes the current cycle. */
  lemma {:induction false} AcceptedIsSafe(t: seq<Event>)
    requires Accepted(t)
    ensures Safe(t) && Describes(Run(t), CurrentCycle(t))
  {
    if t == [] {
      NothingIsSafe();
    } else {
      AcceptedPrefix(t, |t| - 1);
      AcceptedIsSafe(t[..|t| - 1]);
      AcceptedLast(t);
    }
  }

  lemma NothingIsSafe()
    ensures Safe([]) && Describes(Run([]), CurrentCycle([]))
  {
    FreshDescribesNothing();
    assert SafeAt([], 0);
  }

  lemma AcceptedLast(t: seq<Event>)
    requires t != []
    requires var before := t[..|t| - 1];
             Safe(before) && Describes(Run(before), CurrentCycle(before)) && Allowed(Run(before), t[|t| - 1])
    ensures Safe(t) && Describes(Run(t), CurrentCycle(t))
  {
    AcceptedStep(t[..|t| - 1], t[|t| - 1]);
    assert t == t[..|t| - 1] + [t[|t| - 1]];
  }

  lemma AcceptedStep(before: seq<Event>, e: Event)
    requires Safe(before) && Describes(Run(before), CurrentCycle(before)) && Allowed(Run(before), e)
    ensures Safe(before + [e]) && Describes(Step(Run(before), e), CurrentCycle(before + [e]))
  {
    if e == Entered(Lifecycle.Stopped) {
      FreshDescribesNothing();
      assert CompleteCycle(CurrentCycle(before));
    } else {
      CycleExtends(before, e);
      DescribesStep(Run(before), CurrentCycle(before), e);
    }
    SafeExtends(before, e);
  }

  // ---------- what the shape means ----------

  /** The `i`-th handler call of a cycle, on the way up or on the way down. */
  lemma CallAt(c: Cycle, calls: seq<Event>, i: nat)
    requires Matches(c, calls) && i < |calls|
    ensures var e, m, n := calls[i], |c.ups|, StartedCount(c.ups);
            && e.Called? && n <= |c.order|
            && (i < m ==> && i / 2 < |c.order| && e.id == c.order[i / 2]
                          && e.phase == if i % 2 == 0 then Initialize else Start)
            && (i >= m ==> && 0 <= n - 1 - (i - m) / 2 && e.id == c.order[n - 1 - (i - m) / 2]
                           && e.phase == if (i - m) % 2 == 0 then Stop else Teardown)
  {
    var m, n := |c.ups|, StartedCount(c.ups);
    if i < m {
      assert calls[i] == c.ups[i];
    } else {
      assert calls[i] == c.downs[i - m];
      assert c.order[..n][n - 1 - (i - m) / 2] == c.order[n - 1 - (i - m) / 2];
    }
  }

  /** The `j`-th module started, and it did if the upward calls went past it. */
  lemma StartedAt(c: Cycle, calls: seq<Event>, j: nat)
    requires Matches(c, calls)
    requires j < StartedCount(c.ups) || (j < |c.order| && 2 * j + 2 < |c.ups|)
    ensures 2 * j + 1 < |calls| && j < |c.order| && calls[2 * j + 1] == Called(c.order[j], Start, true)
  {
    var i := 2 * j + 1;
    assert i / 2 == j && i % 2 == 1;
    assert |c.ups| > 0 && c.ups[|c.ups| - 1].Called?;
    assert calls[i] == c.ups[i];
  }

  /** Only calls on the way up can start a module, and a successful one counts. */
  lemma StartsCount(c: Cycle, calls: seq<Event>, a: nat)
    requires Matches(c, calls) && a < |calls|
    requires calls[a].Called? && calls[a].phase == Start && calls[a].ok
    ensures a < |c.ups| && a % 2 == 1 && a / 2 < StartedCount(c.ups)
  {
    CallAt(c, calls, a);
    assert calls[a] == c.ups[a];
    assert c.ups[|c.ups| - 1].Called?;
  }

  /** What went up comes down: the call on the way down that belongs to the `j`-th module. */
  lemma DownAt(c: Cycle, calls: seq<Event>, j: nat, phase: ModulePhase) returns (i: nat)
    requires Matches(c, calls) && j < StartedCount(c.ups) && phase in {Stop, Teardown}
    ensures i == |c.ups| + 2 * (StartedCount(c.ups) - 1 - j) + if phase == Stop then 0 else 1
    ensures i < |calls| ==>
              && j < |c.order| && calls[i].Called?
              && calls[i].id == c.order[j] && calls[i].phase == phase
  {
    var k := 2 * (StartedCount(c.ups) - 1 - j) + if phase == Stop then 0 else 1;
    i := |c.ups| + k;
    assert k / 2 == StartedCount(c.ups) - 1 - j && k % 2 == if phase == Stop then 0 else 1;
    if i < |calls| {
      CallAt(c, calls, i);
    }
  }

  lemma OrderIsDependenciesFirst(c: Cycle)
    requires Planned(c)
    ensures DependenciesFirst(DeclaredGraph(c.modules), c.order)
  {
    if c.resolved {
      assert Reverses(Reverse(c.order), c.order);
      StartupIsDependenciesFirst(DeclaredGraph(c.modules), Reverse(c.order));
      ReverseTwice(c.order);
    }
  }

  lemma ReversedBaseStartsUp(modules: seq<ModuleSpec>, baseOrder: seq<string>)
    requires LeastTopological(DeclaredGraph(modules), baseOrder)
    ensures StartsUp(modules, Reverse(baseOrder))
  {
    ReverseTwice(baseOrder);
  }

  lemma ReverseTwice<T>(s: seq<T>)
    ensures Reverse(Reverse(s)) == s
  {
  }

  lemma OrderListsGraph(c: Cycle)
    requires Planned(c) && c.order != []
    ensures Elements(c.order) == DeclaredGraph(c.modules).Keys
  {
    assert Reverses(Reverse(c.order), c.order);
    StartupIsDependenciesFirst(DeclaredGraph(c.modules), Reverse(c.order));
    ReverseTwice(c.order);
  }

  /** `d` is a declared dependency of `m`. */
  ghost predicate DependsOn(c: Cycle, m: string, d: string) {
    Declares(c.modules, m, d)
  }

  lemma DependencyIndex(c: Cycle, p: nat, d: string) returns (q: nat)
    requires Planned(c) && p < |c.order| && DependsOn(c, c.order[p], d)
    ensures q < p && c.order[q] == d
  {
    OrderIsDependenciesFirst(c);
    OrderListsGraph(c);
    assert d in Elements(c.order);
    q :| 0 <= q < |c.order| && c.order[q] == d;
  }

  ghost predicate CallOf(calls: seq<Event>, i: int, id: string, phase: ModulePhase) {
    && 0 <= i < |calls|
    && calls[i].Called? && calls[i].id == id && calls[i].phase == phase
  }

  ghost predicate StartedBy(calls: seq<Event>, i: int, id: string) {
    0 <= i < |calls| && calls[i] == Called(id, Start, true)
  }

  /** No module is initialized or started before each of its declared dependencies has started. */
  lemma DependenciesStartFirst(c: Cycle, events: seq<Event>, b: nat, m: string, d: string)
    requires Describes(c, events) && DependsOn(c, m, d)
    requires CallOf(CallsOf(events), b, m, Initialize) || CallOf(CallsOf(events), b, m, Start)
    ensures exists a :: a < b && StartedBy(CallsOf(events), a, d)
  {
    var calls := CallsOf(events);
    CallAt(c, calls, b);
    var q := DependencyIndex(c, b / 2, d);
    StartedAt(c, calls, q);
    assert StartedBy(calls, 2 * q + 1, d);
  }

  /** A module is stopped only after it started. */
  lemma StoppedWasStarted(c: Cycle, events: seq<Event>, b: nat, m: string)
    requires Describes(c, events)
    requires CallOf(CallsOf(events), b, m, Stop) || CallOf(CallsOf(events), b, m, Teardown)
    ensures exists s :: s < b && StartedBy(CallsOf(events), s, m)
  {
    var calls := CallsOf(events);
    CallAt(c, calls, b);
    var q := StartedCount(c.ups) - 1 - (b - |c.ups|) / 2;
    StartedAt(c, calls, q);
    assert StartedBy(calls, 2 * q + 1, m);
  }

  /** A module is stopped only after each of its started consumers is torn down. */
  lemma ConsumersGoDownFirst(c: Cycle, events: seq<Event>, b: nat, m: string, a: nat, u: string)
    requires Describes(c, events) && DependsOn(c, u, m)
    requires CallOf(CallsOf(events), b, m, Stop) && StartedBy(CallsOf(events), a, u)
    ensures exists e :: e < b && CallOf(CallsOf(events), e, u, Teardown)
  {
    var calls := CallsOf(events);
    var n := StartedCount(c.ups);
    CallAt(c, calls, b);
    CallAt(c, calls, a);
    StartsCount(c, calls, a);
    var p, q := a / 2, n - 1 - (b - |c.ups|) / 2;
    var r := DependencyIndex(c, p, m);
    OrderIsDependenciesFirst(c);
    assert r == q;
    var e := DownAt(c, calls, p, Teardown);
    assert CallOf(calls, e, u, Teardown);
  }

  /** Each callback of each module runs at most once in a cycle. */
  lemma CallbacksRunAtMostOnce(c: Cycle, events: seq<Event>, a: nat, b: nat, id: string, phase: ModulePhase)
    requires Describes(c, events)
    requires CallOf(CallsOf(events), a, id, phase) && CallOf(CallsOf(events), b, id, phase)
    ensures a == b
  {
    OrderIsDependenciesFirst(c);
    CallsDiffer(c, CallsOf(events), a, b, id, phase);
  }

  lemma CallsDiffer(c: Cycle, calls: seq<Event>, a: nat, b: nat, id: string, phase: ModulePhase)
    requires NoDup(c.order) && Matches(c, calls)
    requires CallOf(calls, a, id, phase) && CallOf(calls, b, id, phase)
    ensures a == b
  {
    CallAt(c, calls, a);
    CallAt(c, calls, b);
    var n, m := StartedCount(c.ups), |c.ups|;
    var i := if a < m then a / 2 else n - 1 - (a - m) / 2;
    var j := if b < m then b / 2 else n - 1 - (b - m) / 2;
    SameIndex(c.order, i, j);
  }

  lemma SameIndex(order: seq<string>, i: nat, j: nat)
    requires NoDup(order) && i < |order| && j < |order| && order[i] == order[j]
    ensures i == j
  {
  }

  /** A cycle that reaches Stopped has stopped and torn down exactly the modules whose start succeeded. */
  lemma CompleteCyclesStopWhatStarted(c: Cycle, calls: seq<Event>, id: string, phase: ModulePhase)
    requires Matches(c, calls) && Complete(c) && phase in {Stop, Teardown}
    ensures (exists b :: CallOf(calls, b, id, phase)) <==> (exists a :: StartedBy(calls, a, id))
  {
    if b :| CallOf(calls, b, id, phase) {
      CallAt(c, calls, b);
      var q := StartedCount(c.ups) - 1 - (b - |c.ups|) / 2;
      StartedAt(c, calls, q);
      assert StartedBy(calls, 2 * q + 1, id);
    }
    if a :| StartedBy(calls, a, id) {
      CallAt(c, calls, a);
      StartsCount(c, calls, a);
      var i := DownAt(c, calls, a / 2, phase);
      assert CallOf(calls, i, id, phase);
    }
  }

  /** Stop notifications go out backwards along the order: a module's turn comes only after all its consumers'. */
  lemma ConsumersAreNotifiedFirst(c: Cycle, events: seq<Event>, b: nat, m: string, u: string)
    requires Describes(c, events) && DependsOn(c, u, m)
    requires b < |NotifiedOf(events)| && NotifiedOf(events)[b] == m
    ensures u in NotifiedOf(events)[..b] && m !in NotifiedOf(events)[..b]
  {
    MirroredConsumers(c, NotifiedOf(events), b, u);
  }

  lemma MirroredConsumers(c: Cycle, notified: seq<string>, b: nat, u: string)
    requires Planned(c) && Mirrors(notified, c.order, |notified|)
    requires b < |notified| && DependsOn(c, u, notified[b])
    ensures u in notified[..b] && notified[b] !in notified[..b]
  {
    OrderIsDependenciesFirst(c);
    OrderListsGraph(c);
    assert u in Elements(c.order);
    var p :| 0 <= p < |c.order| && c.order[p] == u;
    var q := DependencyIndex(c, p, notified[b]);
    assert q == |c.order| - 1 - b;
    assert notified[..b][|c.order| - 1 - p] == u;
  }

  // ---------- whole histories ----------

  ghost predicate FrozenSince(t: seq<Event>, k: nat) {
    && k < |t| && t[k] == Froze
    && forall m :: k < m < |t| ==> t[m] != Entered(Lifecycle.Stopped) && t[m] != Entered(Lifecycle.Running)
  }

  lemma {:induction false} FrozenButNotRunning(t: seq<Event>) returns (k: nat)
    requires Accepted(t) && Run(t).freezes == 1 && Run(t).runs == 0
    ensures FrozenSince(t, k)
  {
    var before, e := t[..|t| - 1], t[|t| - 1];
    AcceptedPrefix(t, |t| - 1);
    if e == Froze {
      k := |before|;
    } else {
      k := FrozenButNotRunning(before);
      assert forall m :: k < m < |before| ==> t[m] == before[m];
    }
  }

  /** Modules are brought up only while the host is between freezing its services and running. */
  lemma ModulesGoUpWhileFrozen(t: seq<Event>, n: nat) returns (k: nat)
    requires Accepted(t) && n < |t| && t[n].Called? && t[n].phase in {Initialize, Start}
    ensures FrozenSince(t[..n], k)
  {
    AcceptedPrefix(t, n);
    k := FrozenButNotRunning(t[..n]);
  }

  lemma StatesPrefix(t: seq<Event>)
    requires t != []
    ensures States(t[..|t| - 1]) <= States(t) && |States(t)| <= |States(t[..|t| - 1])| + 1
    ensures |States(t)| > |States(t[..|t| - 1])| ==>
              t[|t| - 1].Entered? && States(t)[|States(t)| - 1] == t[|t| - 1].state
  {
  }

  lemma {:induction false} StatesMonotone(t: seq<Event>, t': seq<Event>)
    requires t <= t'
    ensures States(t) <= States(t')
  {
    if |t| < |t'| {
      StatesMonotone(t, t'[..|t'| - 1]);
    } else {
      assert t == t';
    }
  }

  lemma StopBetweenPrefix(h: seq<Lifecycle.State>, h': seq<Lifecycle.State>, i: int, j: int)
    requires h <= h' && j <= |h|
    ensures StopBetween(h, i, j) <==> StopBetween(h', i, j)
  {
    if k :| i < k < j && 0 <= k < |h'| && h'[k] == Lifecycle.Stopped {
      assert h[k] == h'[k];
    }
    if k :| i < k < j && 0 <= k < |h| && h[k] == Lifecycle.Stopped {
      assert h[k] == h'[k];
    }
  }

  ghost predicate StopBetween(h: seq<Lifecycle.State>, i: int, j: int) {
    exists k :: i < k < j && 0 <= k < |h| && h[k] == Lifecycle.Stopped
  }

  lemma StopBetweenMonotone(h: seq<Lifecycle.State>, i: int, j: int, k: int)
    requires StopBetween(h, i, j) && j <= k
    ensures StopBetween(h, i, k)
  {
  }

  lemma {:induction false} RunningSince(t: seq<Event>, i: nat)
    requires i < |States(t)| && States(t)[i] == Lifecycle.Running
    requires !StopBetween(States(t), i, |States(t)|)
    ensures Count(CurrentCycle(t), Entered(Lifecycle.Running)) >= 1
  {
    var before, e := t[..|t| - 1], t[|t| - 1];
    StatesPrefix(t);
    assert t == before + [e];
    assert e.Entered? ==> States(t)[|States(t)| - 1] == e.state;
    CycleExtends(before, e);
    FoldsExtend(CurrentCycle(before), e);
    if i < |States(before)| {
      StopBetweenPrefix(States(before), States(t), i, |States(before)|);
      if StopBetween(States(t), i, |States(before)|) {
        StopBetweenMonotone(States(t), i, |States(before)|, |States(t)|);
      }
      RunningSince(before, i);
    }
  }

  /** Between two entries into Running lies an entry into Stopped, although the transition table alone
      would let a faulted host bootstrap again (Lifecycle.TableAllowsRerunWithoutStop). */
  lemma {:induction false} RunsAreSeparatedByStops(t: seq<Event>, i: nat, j: nat)
    requires Safe(t) && i < j < |States(t)|
    requires States(t)[i] == States(t)[j] == Lifecycle.Running
    ensures StopBetween(States(t), i, j)
  {
    var before := t[..|t| - 1];
    SafePrefix(t);
    StatesPrefix(t);
    if j < |States(before)| {
      RunsAreSeparatedByStops(before, i, j);
      StopBetweenPrefix(States(before), States(t), i, j);
    } else {
      LastRunIsSeparated(t, i, j);
    }
  }

  lemma LastRunIsSeparated(t: seq<Event>, i: nat, j: nat)
    requires t != [] && CycleOk(CurrentCycle(t)) && |States(t[..|t| - 1])| <= j < |States(t)|
    requires i < j && States(t)[i] == States(t)[j] == Lifecycle.Running
    ensures StopBetween(States(t), i, j)
  {
    var before, e := t[..|t| - 1], t[|t| - 1];
    StatesPrefix(t);
    assert t == before + [e];
    NotRunningYet(before, e, i);
    StopBetweenPrefix(States(before), States(t), i, j);
  }

  lemma NotRunningYet(before: seq<Event>, e: Event, i: nat)
    requires CycleOk(CurrentCycle(before + [e])) && e == Entered(Lifecycle.Running)
    requires i < |States(before)| && States(before)[i] == Lifecycle.Running
    ensures StopBetween(States(before), i, |States(before)|)
  {
    LastIsFirst(before, e);
    if !StopBetween(States(before), i, |States(before)|) {
      RunningSince(before, i);
    }
  }

  lemma LastIsFirst(before: seq<Event>, x: Event)
    requires CycleOk(CurrentCycle(before + [x]))
    requires x == Froze || x == Entered(Lifecycle.Running)
    ensures Count(CurrentCycle(before), x) == 0
  {
    AtMostOneRun(CurrentCycle(before + [x]));
    CycleExtends(before, x);
    FoldsExtend(CurrentCycle(before), x);
  }

  lemma AtMostOneRun(events: seq<Event>)
    requires CycleOk(events)
    ensures Count(events, Entered(Lifecycle.Running)) <= 1
    ensures Count(events, Froze) <= 1
  {
  }

  lemma {:induction false} CountSince(t: seq<Event>, x: Event, i: nat)
    requires i < |t| && t[i] == x && x != Entered(Lifecycle.Stopped)
    requires forall k :: i < k < |t| ==> t[k] != Entered(Lifecycle.Stopped)
    ensures Count(CurrentCycle(t), x) >= 1
  {
    var before, e := t[..|t| - 1], t[|t| - 1];
    assert t == before + [e];
    CycleExtends(before, e);
    FoldsExtend(CurrentCycle(before), e);
    if i < |before| {
      CountSince(before, x, i);
    }
  }

  ghost predicate StopEnteredBetween(t: seq<Event>, i: int, j: int) {
    exists k :: i < k < j && 0 <= k < |t| && t[k] == Entered(Lifecycle.Stopped)
  }

  /** Services freeze, and the host enters Running, at most once between two entries into Stopped. */
  lemma {:induction false} OncePerCycle(t: seq<Event>, x: Event, i: nat, j: nat)
    requires Safe(t) && i < j < |t| && t[i] == t[j] == x
    requires x == Froze || x == Entered(Lifecycle.Running)
    ensures StopEnteredBetween(t, i, j)
  {
    var before := t[..|t| - 1];
    SafePrefix(t);
    if j < |before| {
      OncePerCycle(before, x, i, j);
      var k :| i < k < j && 0 <= k < |before| && before[k] == Entered(Lifecycle.Stopped);
      assert t[k] == before[k];
    } else {
      assert t == before + [x];
      LastIsSeparated(before, x, i);
      var k :| i < k < |before| && before[k] == Entered(Lifecycle.Stopped);
      assert t[k] == before[k];
    }
  }

  lemma LastIsSeparated(before: seq<Event>, x: Event, i: nat)
    requires CycleOk(CurrentCycle(before + [x])) && i < |before| && before[i] == x
    requires x == Froze || x == Entered(Lifecycle.Running)
    ensures StopEnteredBetween(before, i, |before|)
  {
    LastIsFirst(before, x);
    if !StopEnteredBetween(before, i, |before|) {
      CountSince(before, x, i);
    }
  }

  /** Every cycle that ended in Stopped has stopped and torn down exactly what it had started. */
  lemma EndedCyclesStopWhatStarted(t: seq<Event>, n: nat, id: string, phase: ModulePhase)
    requires Safe(t) && n < |t| && t[n] == Entered(Lifecycle.Stopped) && phase in {Stop, Teardown}
    ensures var calls := CallsOf(CurrentCycle(t[..n]));
            (exists b :: CallOf(calls, b, id, phase)) <==> (exists a :: StartedBy(calls, a, id))
  {
    var c := SafeMeaning(t, n);
    CompleteCyclesStopWhatStarted(c, CallsOf(CurrentCycle(t[..n])), id, phase);
  }

  // ---------- the configured modules ----------

  /** No entry into Stopped separates position `i` from the later position `n`. */
  ghost predicate SameCycle(t: seq<Event>, i: int, n: int) {
    0 <= i < n <= |t| && forall k :: i < k < n ==> t[k] != Entered(Lifecycle.Stopped)
  }

  /** At position `g` the start-up sequence picked its order, for the cycle that position `n` belongs to. */
  ghost predicate Governs(t: seq<Event>, g: int, n: int) {
    SameCycle(t, g, n) && t[g].Resolved?
  }

  ghost predicate HappenedBefore(t: seq<Event>, n: int, e: Event) {
    exists a :: SameCycle(t, a, n) && t[a] == e
  }

  predicate IsCall(e: Event, m: string, phase: ModulePhase) {
    e.Called? && e.id == m && e.phase == phase
  }

  /** Among `modules`, `m` lists `d`. */
  ghost predicate Declares(modules: seq<ModuleSpec>, m: string, d: string) {
    m in DeclaredGraph(modules) && d in DeclaredGraph(modules)[m]
  }

  lemma {:induction false} CycleMember(t: seq<Event>, n: nat, e: Event)
    requires n <= |t| && e != Entered(Lifecycle.Stopped)
    ensures e in CurrentCycle(t[..n]) <==> HappenedBefore(t, n, e)
  {
    if n > 0 {
      CycleMember(t, n - 1, e);
      CycleMemberStep(t, n, e);
    }
  }

  lemma CycleMemberStep(t: seq<Event>, n: nat, e: Event)
    requires 0 < n <= |t| && e != Entered(Lifecycle.Stopped)
    requires e in CurrentCycle(t[..n - 1]) <==> HappenedBefore(t, n - 1, e)
    ensures e in CurrentCycle(t[..n]) <==> HappenedBefore(t, n, e)
  {
    assert t[..n][..n - 1] == t[..n - 1];
    if t[n - 1] == e {
      assert SameCycle(t, n - 1, n);
    }
    if a :| SameCycle(t, a, n) && t[a] == e && a < n - 1 {
      assert SameCycle(t, a, n - 1);
    }
    if t[n - 1] != Entered(Lifecycle.Stopped) {
      if a :| SameCycle(t, a, n - 1) && t[a] == e {
        assert SameCycle(t, a, n);
      }
    }
  }

  lemma {:induction false} FoldMembers(c: seq<Event>, e: Event)
    ensures e in CallsOf(c) <==> e in c && e.Called?
    ensures e in ResolutionsOf(c) <==> e in c && e.Resolved?
  {
    if c != [] {
      FoldMembers(c[..|c| - 1], e);
      assert c == c[..|c| - 1] + [c[|c| - 1]];
    }
  }

  lemma {:induction false} NotifiedMember(c: seq<Event>, id: string)
    ensures id in NotifiedOf(c) <==> exists ok :: StopNotified(id, ok) in c
  {
    if c != [] {
      NotifiedMember(c[..|c| - 1], id);
      assert c == c[..|c| - 1] + [c[|c| - 1]];
    }
  }

  lemma CycleOfNext(t: seq<Event>, n: nat)
    requires n < |t| && t[n] != Entered(Lifecycle.Stopped)
    ensures CurrentCycle(t[..n + 1]) == CurrentCycle(t[..n]) + [t[n]]
  {
    assert t[..n + 1] == t[..n] + [t[n]];
    CycleExtends(t[..n], t[n]);
  }

  /** The cycle in which `t[n]` happens, `t[n]` included. */
  lemma CycleWith(t: seq<Event>, n: nat) returns (c: Cycle)
    requires Safe(t) && n < |t| && t[n] != Entered(Lifecycle.Stopped)
    ensures Describes(c, CurrentCycle(t[..n]) + [t[n]])
  {
    CycleOfNext(t, n);
    c := SafeMeaning(t, n + 1);
  }

  /** The modules of a cycle are those it was resolved for. */
  lemma GovernedCycle(t: seq<Event>, g: nat, n: nat, c: Cycle)
    requires n < |t| && Governs(t, g, n) && Describes(c, CurrentCycle(t[..n]) + [t[n]])
    ensures c.resolved && t[g] == Resolved(c.modules, c.order)
  {
    CycleMember(t, n, t[g]);
    FoldMembers(CurrentCycle(t[..n]), t[g]);
    FoldsExtend(CurrentCycle(t[..n]), t[n]);
    assert t[g] in Resolution(c);
  }

  /** Every call of a module belongs to a cycle that was resolved. */
  lemma CallsAreGoverned(t: seq<Event>, n: nat) returns (g: nat)
    requires Safe(t) && n < |t| && t[n].Called?
    ensures Governs(t, g, n) && t[n].id in DeclaredGraph(t[g].modules)
  {
    var c := CycleWith(t, n);
    var before := CurrentCycle(t[..n]);
    FoldsExtend(before, t[n]);
    CallAt(c, CallsOf(before) + [t[n]], |CallsOf(before)|);
    assert t[n].id in c.order;
    OrderListsGraph(c);
    var e := Resolved(c.modules, c.order);
    assert ResolutionsOf(before) == [e];
    FoldMembers(before, e);
    CycleMember(t, n, e);
    g :| SameCycle(t, g, n) && t[g] == e;
  }

  lemma UpNeeds(c: Cycle, before: seq<Event>, e: Event, m: string, d: string)
    requires Describes(c, before + [e]) && DependsOn(c, m, d)
    requires IsCall(e, m, Initialize) || IsCall(e, m, Start)
    ensures Called(d, Start, true) in CallsOf(before)
  {
    var b := |CallsOf(before)|;
    FoldsExtend(before, e);
    DependenciesStartFirst(c, before + [e], b, m, d);
    var a :| a < b && StartedBy(CallsOf(before + [e]), a, d);
    assert CallsOf(before)[a] == Called(d, Start, true);
  }

  lemma DownNeedsStart(c: Cycle, before: seq<Event>, e: Event, m: string)
    requires Describes(c, before + [e]) && (IsCall(e, m, Stop) || IsCall(e, m, Teardown))
    ensures Called(m, Start, true) in CallsOf(before)
  {
    var b := |CallsOf(before)|;
    FoldsExtend(before, e);
    StoppedWasStarted(c, before + [e], b, m);
    var a :| a < b && StartedBy(CallsOf(before + [e]), a, m);
    assert CallsOf(before)[a] == Called(m, Start, true);
  }

  lemma DownNeedsTeardown(c: Cycle, before: seq<Event>, e: Event, m: string, u: string) returns (ok: bool)
    requires Describes(c, before + [e]) && DependsOn(c, u, m)
    requires IsCall(e, m, Stop) && Called(u, Start, true) in CallsOf(before)
    ensures Called(u, Teardown, ok) in CallsOf(before)
  {
    var b := |CallsOf(before)|;
    FoldsExtend(before, e);
    var a :| 0 <= a < b && CallsOf(before)[a] == Called(u, Start, true);
    ConsumersGoDownFirst(c, before + [e], b, m, a, u);
    var k :| k < b && CallOf(CallsOf(before + [e]), k, u, Teardown);
    ok := CallsOf(before)[k].ok;
    assert CallsOf(before)[k] == Called(u, Teardown, ok);
  }

  /** Over any safe history: no module is initialized or started before each of the dependencies that it declares
      in the modules the kernel started with has started in the same cycle. */
  lemma NoModuleStartsBeforeItsDependencies(t: seq<Event>, g: nat, n: nat, m: string, d: string)
    requires Safe(t) && n < |t| && Governs(t, g, n) && Declares(t[g].modules, m, d)
    requires IsCall(t[n], m, Initialize) || IsCall(t[n], m, Start)
    ensures HappenedBefore(t, n, Called(d, Start, true))
  {
    var c := CycleWith(t, n);
    GovernedCycle(t, g, n, c);
    UpNeeds(c, CurrentCycle(t[..n]), t[n], m, d);
    EarlierCall(t, n, Called(d, Start, true));
  }

  /** Over any safe history: no module is stopped or torn down unless it was started in the same cycle. */
  lemma NoModuleStopsUnlessStarted(t: seq<Event>, n: nat, m: string)
    requires Safe(t) && n < |t|
    requires IsCall(t[n], m, Stop) || IsCall(t[n], m, Teardown)
    ensures HappenedBefore(t, n, Called(m, Start, true))
  {
    var c := CycleWith(t, n);
    DownNeedsStart(c, CurrentCycle(t[..n]), t[n], m);
    EarlierCall(t, n, Called(m, Start, true));
  }

  ghost predicate TornDownBefore(t: seq<Event>, n: int, u: string) {
    exists ok :: HappenedBefore(t, n, Called(u, Teardown, ok))
  }

  /** Over any safe history: no module is stopped before each consumer that declares it and has started in the
      same cycle is torn down. */
  lemma NoModuleStopsBeforeItsConsumers(t: seq<Event>, g: nat, n: nat, m: string, u: string)
    requires Safe(t) && n < |t| && Governs(t, g, n) && Declares(t[g].modules, u, m)
    requires IsCall(t[n], m, Stop) && HappenedBefore(t, n, Called(u, Start, true))
    ensures TornDownBefore(t, n, u)
  {
    var c := CycleWith(t, n);
    GovernedCycle(t, g, n, c);
    LaterCall(t, n, Called(u, Start, true));
    var ok := DownNeedsTeardown(c, CurrentCycle(t[..n]), t[n], m, u);
    EarlierCall(t, n, Called(u, Teardown, ok));
  }

  ghost predicate AnnouncedBefore(t: seq<Event>, n: int, u: string) {
    exists ok :: HappenedBefore(t, n, StopNotified(u, ok))
  }

  /** Over any safe history: stopping a module is announced only after it was for each consumer that declares it. */
  lemma NoModuleIsAnnouncedBeforeItsConsumers(t: seq<Event>, g: nat, n: nat, m: string, u: string)
    requires Safe(t) && n < |t| && Governs(t, g, n) && Declares(t[g].modules, u, m)
    requires t[n].StopNotified? && t[n].id == m
    ensures AnnouncedBefore(t, n, u)
  {
    var c := CycleWith(t, n);
    GovernedCycle(t, g, n, c);
    var ok := AnnouncementNeeds(c, CurrentCycle(t[..n]), t[n], m, u);
    CycleMember(t, n, StopNotified(u, ok));
  }

  lemma AnnouncementNeeds(c: Cycle, before: seq<Event>, e: Event, m: string, u: string) returns (ok: bool)
    requires Describes(c, before + [e]) && DependsOn(c, u, m) && e.StopNotified? && e.id == m
    ensures StopNotified(u, ok) in before
  {
    var b := |NotifiedOf(before)|;
    FoldsExtend(before, e);
    ConsumersAreNotifiedFirst(c, before + [e], b, m, u);
    assert (NotifiedOf(before) + [m])[..b] == NotifiedOf(before);
    NotifiedMember(before, u);
    ok :| StopNotified(u, ok) in before;
  }

  lemma LaterCall(t: seq<Event>, n: nat, e: Event)
    requires n < |t| && e.Called? && HappenedBefore(t, n, e)
    ensures e in CallsOf(CurrentCycle(t[..n]))
  {
    FoldMembers(CurrentCycle(t[..n]), e);
    CycleMember(t, n, e);
  }

  lemma EarlierCall(t: seq<Event>, n: nat, e: Event)
    requires n < |t| && e.Called? && e in CallsOf(CurrentCycle(t[..n]))
    ensures HappenedBefore(t, n, e)
  {
    FoldMembers(CurrentCycle(t[..n]), e);
    CycleMember(t, n, e);
  }

  lemma CurrentResolution(t: seq<Event>, g: nat, c: Cycle)
    requires Describes(c, CurrentCycle(t)) && Governs(t, g, |t|)
    ensures c.resolved && t[g] == Resolved(c.modules, c.order)
  {
    assert t[..|t|] == t;
    CycleMember(t, |t|, t[g]);
    FoldMembers(CurrentCycle(t), t[g]);
    assert t[g] in Resolution(c);
  }

  ghost predicate WasCalled(t: seq<Event>, n: int, m: string, phase: ModulePhase) {
    exists ok :: HappenedBefore(t, n, Called(m, phase, ok))
  }

  /** The call before the last one, on the way up: everything before succeeded, and Initialize goes before Start. */
  lemma UpInTurn(c: Cycle, before: seq<Event>, e: Event)
    requires Describes(c, before + [e]) && e.Called? && (e.phase.Initialize? || e.phase.Start?)
    ensures forall earlier :: earlier in CallsOf(before) && earlier.Called? ==> earlier.ok
    ensures e.phase.Start? ==> Called(e.id, Initialize, true) in CallsOf(before)
  {
    var b := |CallsOf(before)|;
    FoldsExtend(before, e);
    CallAt(c, CallsOf(before + [e]), b);
    assert b == |c.ups| - 1;
    forall a | 0 <= a < b ensures CallsOf(before)[a] == c.ups[a] && c.ups[a].ok {
      assert CallsOf(before + [e])[a] == c.ups[a];
    }
    if e.phase.Start? {
      assert (b - 1) / 2 == b / 2 && (b - 1) % 2 == 0;
      assert CallsOf(before)[b - 1] == Called(e.id, Initialize, true);
    }
  }

  lemma DownInTurn(c: Cycle, before: seq<Event>, e: Event) returns (ok: bool)
    requires Describes(c, before + [e]) && e.Called? && e.phase.Teardown?
    ensures Called(e.id, Stop, ok) in CallsOf(before)
  {
    var b := |CallsOf(before)|;
    FoldsExtend(before, e);
    CallAt(c, CallsOf(before + [e]), b);
    CallAt(c, CallsOf(before + [e]), b - 1);
    ok := CallsOf(before)[b - 1].ok;
    assert (b - |c.ups|) / 2 == (b - 1 - |c.ups|) / 2;
    assert CallsOf(before)[b - 1] == Called(e.id, Stop, ok);
  }

  /** Over any safe history: nothing goes up after a failed call in the same cycle, and each module is initialized
      successfully before it is started. */
  lemma EachModuleGoesUpInTurn(t: seq<Event>, n: nat)
    requires Safe(t) && n < |t| && t[n].Called? && (t[n].phase.Initialize? || t[n].phase.Start?)
    ensures forall e :: HappenedBefore(t, n, e) && e.Called? ==> e.ok
    ensures t[n].phase.Start? ==> HappenedBefore(t, n, Called(t[n].id, Initialize, true))
  {
    var c := CycleWith(t, n);
    UpInTurn(c, CurrentCycle(t[..n]), t[n]);
    forall e | HappenedBefore(t, n, e) && e.Called? ensures e.ok {
      LaterCall(t, n, e);
    }
    if t[n].phase.Start? {
      EarlierCall(t, n, Called(t[n].id, Initialize, true));
    }
  }

  /** Over any safe history: a module is torn down only after it was told to stop in the same cycle. */
  lemma TeardownFollowsStop(t: seq<Event>, n: nat)
    requires Safe(t) && n < |t| && t[n].Called? && t[n].phase.Teardown?
    ensures WasCalled(t, n, t[n].id, Stop)
  {
    var c := CycleWith(t, n);
    var ok := DownInTurn(c, CurrentCycle(t[..n]), t[n]);
    EarlierCall(t, n, Called(t[n].id, Stop, ok));
  }

  ghost predicate IsGoverned(t: seq<Event>, n: int) {
    exists g :: Governs(t, g, n)
  }

  /** What happens at `n` keeps to the dependencies declared in the modules of `t[g]`. */
  ghost predicate RespectsDependencies(t: seq<Event>, g: int, n: int)
    requires Governs(t, g, n) && n < |t|
  {
    var modules := t[g].modules;
    match t[n]
    case Called(m, phase, _) =>
      if phase.Initialize? || phase.Start? then
        && (forall d :: Declares(modules, m, d) ==> HappenedBefore(t, n, Called(d, Start, true)))
        && (phase.Start? ==> HappenedBefore(t, n, Called(m, Initialize, true)))
        && (forall e :: HappenedBefore(t, n, e) && e.Called? ==> e.ok)
      else
        && HappenedBefore(t, n, Called(m, Start, true))
        && (phase.Teardown? ==> WasCalled(t, n, m, Stop))
        && (phase.Stop? ==>
              forall u :: Declares(modules, u, m) && HappenedBefore(t, n, Called(u, Start, true)) ==>
                TornDownBefore(t, n, u))
    case StopNotified(m, _) => forall u :: Declares(modules, u, m) ==> AnnouncedBefore(t, n, u)
    case _ => true
  }

  lemma EventRespectsDependencies(t: seq<Event>, g: nat, n: nat)
    requires Safe(t) && Governs(t, g, n) && n < |t|
    ensures RespectsDependencies(t, g, n)
  {
    var modules, e := t[g].modules, t[n];
    if e.Called? && (e.phase.Initialize? || e.phase.Start?) {
      forall d | Declares(modules, e.id, d) ensures HappenedBefore(t, n, Called(d, Start, true)) {
        NoModuleStartsBeforeItsDependencies(t, g, n, e.id, d);
      }
      EachModuleGoesUpInTurn(t, n);
    } else if e.Called? {
      NoModuleStopsUnlessStarted(t, n, e.id);
      if e.phase.Teardown? {
        TeardownFollowsStop(t, n);
      }
      if e.phase.Stop? {
        forall u | Declares(modules, u, e.id) && HappenedBefore(t, n, Called(u, Start, true))
          ensures TornDownBefore(t, n, u)
        {
          NoModuleStopsBeforeItsConsumers(t, g, n, e.id, u);
        }
      }
    } else if e.StopNotified? {
      forall u | Declares(modules, u, e.id) ensures AnnouncedBefore(t, n, u) {
        NoModuleIsAnnouncedBeforeItsConsumers(t, g, n, e.id, u);
      }
    }
  }

  /** Every call in a safe history belongs to a resolved cycle, and every event keeps to the declared dependencies. */
  lemma HistoryRespectsDependencies(t: seq<Event>)
    requires Safe(t)
    ensures forall n :: 0 <= n < |t| && t[n].Called? ==> IsGoverned(t, n)
    ensures forall g, n :: Governs(t, g, n) && n < |t| ==> RespectsDependencies(t, g, n)
  {
    forall n | 0 <= n < |t| && t[n].Called? ensures IsGoverned(t, n) {
      var g := CallsAreGoverned(t, n);
      assert Governs(t, g, n);
    }
    forall g, n | Governs(t, g, n) && n < |t| ensures RespectsDependencies(t, g, n) {
      EventRespectsDependencies(t, g, n);
    }
  }

  // ---------- once per cycle ----------

  /** Over any safe history: no callback of a module runs twice without an entry into Stopped in between. */
  lemma NoCallbackRunsTwiceInACycle(t: seq<Event>, i: nat, j: nat, m: string, phase: ModulePhase)
    requires Safe(t) && i < j < |t| && IsCall(t[i], m, phase) && IsCall(t[j], m, phase)
    ensures StopEnteredBetween(t, i, j)
  {
    if !StopEnteredBetween(t, i, j) {
      assert SameCycle(t, i, j);
      LaterCall(t, j, t[i]);
      var c := CycleWith(t, j);
      CallIsNew(c, CurrentCycle(t[..j]), t[j], t[i], m, phase);
    }
  }

  lemma CallIsNew(c: Cycle, before: seq<Event>, e: Event, earlier: Event, m: string, phase: ModulePhase)
    requires Describes(c, before + [e]) && IsCall(e, m, phase) && IsCall(earlier, m, phase)
    ensures earlier !in CallsOf(before)
  {
    var b := |CallsOf(before)|;
    FoldsExtend(before, e);
    if earlier in CallsOf(before) {
      var a :| 0 <= a < b && CallsOf(before)[a] == earlier;
      CallbacksRunAtMostOnce(c, before + [e], a, b, m, phase);
    }
  }

  /** Over any safe history: when Stopped is entered, a module has been stopped (torn down) in that cycle exactly
      if its start succeeded in it. */
  lemma StoppedExactlyWhatStarted(t: seq<Event>, n: nat, m: string, phase: ModulePhase)
    requires Safe(t) && n < |t| && t[n] == Entered(Lifecycle.Stopped) && phase in {Stop, Teardown}
    ensures WasCalled(t, n, m, phase) <==> HappenedBefore(t, n, Called(m, Start, true))
  {
    var calls := CallsOf(CurrentCycle(t[..n]));
    EndedCyclesStopWhatStarted(t, n, m, phase);
    if ok :| HappenedBefore(t, n, Called(m, phase, ok)) {
      LaterCall(t, n, Called(m, phase, ok));
      var b :| 0 <= b < |calls| && calls[b] == Called(m, phase, ok);
      assert CallOf(calls, b, m, phase);
      var a :| StartedBy(calls, a, m);
      EarlierCall(t, n, calls[a]);
    }
    if HappenedBefore(t, n, Called(m, Start, true)) {
      LaterCall(t, n, Called(m, Start, true));
      var a :| 0 <= a < |calls| && calls[a] == Called(m, Start, true);
      assert StartedBy(calls, a, m);
      var b :| CallOf(calls, b, m, phase);
      assert calls[b] == Called(m, phase, calls[b].ok);
      EarlierCall(t, n, calls[b]);
    }
  }

  /** Both for all events of a safe history at once. */
  lemma HistoryIsBalanced(t: seq<Event>)
    requires Safe(t)
    ensures forall i, j, m, phase :: 0 <= i < j < |t| && IsCall(t[i], m, phase) && IsCall(t[j], m, phase) ==>
              StopEnteredBetween(t, i, j)
    ensures forall n, m, phase :: 0 <= n < |t| && t[n] == Entered(Lifecycle.Stopped) && phase in {Stop, Teardown} ==>
              (WasCalled(t, n, m, phase) <==> HappenedBefore(t, n, Called(m, Start, true)))
  {
    forall i, j, m, phase | 0 <= i < j < |t| && IsCall(t[i], m, phase) && IsCall(t[j], m, phase)
      ensures StopEnteredBetween(t, i, j)
    {
      NoCallbackRunsTwiceInACycle(t, i, j, m, phase);
    }
    forall n, m, phase | 0 <= n < |t| && t[n] == Entered(Lifecycle.Stopped) && phase in {Stop, Teardown}
      ensures WasCalled(t, n, m, phase) <==> HappenedBefore(t, n, Called(m, Start, true))
    {
      StoppedExactlyWhatStarted(t, n, m, phase);
    }
  }
}
