/** The platform host runtime (src/platform_host_runtime.cpp): acquiring and releasing a platform and a window,
    and degrading render faults within a budget. The hosts are fixed and may answer anything. */
module PlatformHost {
  import opened LoopPolicy
  import opened LoopRunner
  import opened FaultPolicy

  // ---------- what is held ----------

  datatype Op = InitializePlatform | TearDownPlatform | CreateWindow | TearDownWindows

  /** A call to a host and its answer. */
  datatype HostCall = HostCall(op: Op, ok: bool)

  datatype Held = Held(platform: bool, window: bool)

  function After(h: Held, e: HostCall): Held {
    if !e.ok then h
    else
      match e.op
      case InitializePlatform => h.(platform := true)
      case TearDownPlatform => h.(platform := false)
      case CreateWindow => h.(window := true)
      case TearDownWindows => h.(window := false)
  }

  function HeldAfter(log: seq<HostCall>): Held {
    if log == [] then Held(false, false) else After(HeldAfter(log[..|log| - 1]), log[|log| - 1])
  }

  /** The platform is asked for only while nothing is held, the window only while just the platform is,
      and only what is held is given back. */
  predicate MayCall(h: Held, op: Op) {
    match op
    case InitializePlatform => h == Held(false, false)
    case TearDownPlatform => h.platform
    case CreateWindow => h == Held(true, false)
    case TearDownWindows => h.window
  }

  ghost predicate Balanced(log: seq<HostCall>) {
    log == [] || (Balanced(log[..|log| - 1]) && MayCall(HeldAfter(log[..|log| - 1]), log[|log| - 1].op))
  }

  lemma LogAppend(log: seq<HostCall>, e: HostCall)
    ensures HeldAfter(log + [e]) == After(HeldAfter(log), e)
    ensures Balanced(log) && MayCall(HeldAfter(log), e.op) ==> Balanced(log + [e])
  {
    assert (log + [e])[..|log|] == log;
  }

  ghost predicate SucceedsBetween(log: seq<HostCall>, op: Op, i: int, j: int) {
    exists k :: i < k < j && 0 <= k < |log| && log[k] == HostCall(op, true)
  }

  function Opposite(op: Op): Op {
    match op
    case InitializePlatform => TearDownPlatform
    case TearDownPlatform => InitializePlatform
    case CreateWindow => TearDownWindows
    case TearDownWindows => CreateWindow
  }

  predicate IsHeld(h: Held, op: Op) {
    if op == InitializePlatform || op == TearDownPlatform then h.platform else h.window
  }

  /** What was acquired and not released since is still held; and the other way round. */
  lemma {:induction false} StaysUntilOpposite(log: seq<HostCall>, i: nat)
    requires Balanced(log) && i < |log| && log[i].ok && !SucceedsBetween(log, Opposite(log[i].op), i, |log|)
    ensures IsHeld(HeldAfter(log), log[i].op) <==> log[i].op == InitializePlatform || log[i].op == CreateWindow
  {
    var before := log[..|log| - 1];
    if i < |before| {
      assert !SucceedsBetween(before, Opposite(log[i].op), i, |before|) by {
        if k :| i < k < |before| && before[k] == HostCall(Opposite(log[i].op), true) {
          assert log[k] == before[k];
          assert SucceedsBetween(log, Opposite(log[i].op), i, |log|);
        }
      }
      assert log[|before|] != HostCall(Opposite(log[i].op), true);
      StaysUntilOpposite(before, i);
    }
  }

  /** Between two successful acquisitions of the platform, or of the window, lies a successful release;
      and between two releases an acquisition. */
  lemma {:induction false} AcquireAndReleaseAlternate(log: seq<HostCall>, i: nat, j: nat)
    requires Balanced(log) && i < j < |log| && log[i] == log[j] && log[i].ok
    ensures SucceedsBetween(log, Opposite(log[i].op), i, j)
  {
    var before := log[..|log| - 1];
    if j < |before| {
      AcquireAndReleaseAlternate(before, i, j);
      var k :| i < k < j && 0 <= k < |before| && before[k] == HostCall(Opposite(log[i].op), true);
      assert log[k] == before[k];
    } else if !SucceedsBetween(before, Opposite(log[i].op), i, j) {
      StaysUntilOpposite(before, i);
    } else {
      var k :| i < k < j && 0 <= k < |before| && before[k] == HostCall(Opposite(log[i].op), true);
      assert log[k] == before[k];
    }
  }

  // ---------- the ticks of one configuration ----------

  /** What a tick answered, which faults it saw, and how many render faults there had been by its end. */
  datatype TickRecord = TickRecord(ok: bool, otherFaulted: bool, renderFaulted: bool, renderFaults: nat)

  /** The tick succeeded in spite of a failed render call. */
  predicate Tolerates(t: TickRecord) {
    t.ok && t.renderFaulted
  }

  function ToleratedOf(ticks: seq<TickRecord>): nat {
    if ticks == [] then 0
    else ToleratedOf(ticks[..|ticks| - 1]) + if Tolerates(ticks[|ticks| - 1]) then 1 else 0
  }

  /** With this tick the budget for render faults was used up. */
  predicate IsPastLimit(t: TickRecord) {
    t.renderFaults > DEFAULT_LIMITS.renderIsolation
  }

  /** Render faults only add up, each tick that reports one adds some, and within the width of the fault counter
      no tick tolerates any past the limit. */
  ghost predicate TicksOk(ticks: seq<TickRecord>, total: nat) {
    && (forall i :: 0 <= i < |ticks| ==> TickOk(ticks[i], total))
    && (forall i, j :: 0 <= i < j < |ticks| ==> InTurn(ticks[i], ticks[j]))
  }

  predicate TickOk(t: TickRecord, total: nat) {
    t.renderFaults <= total && (Tolerates(t) && t.renderFaults < TWO_TO_THE_32 ==> !IsPastLimit(t))
  }

  predicate InTurn(t: TickRecord, later: TickRecord) {
    t.renderFaults <= later.renderFaults && (later.renderFaulted ==> t.renderFaults < later.renderFaults)
  }

  lemma TicksAppend(ticks: seq<TickRecord>, total: nat, t: TickRecord)
    requires TicksOk(ticks, total) && total <= t.renderFaults && TickOk(t, t.renderFaults)
    requires t.renderFaulted ==> total < t.renderFaults
    ensures TicksOk(ticks + [t], t.renderFaults)
    ensures ToleratedOf(ticks + [t]) == ToleratedOf(ticks) + if Tolerates(t) then 1 else 0
  {
    assert (ticks + [t])[..|ticks|] == ticks;
    assert forall i :: 0 <= i < |ticks| ==> TickOk(ticks[i], total);
  }

  // ---------- what a frame asks the hosts ----------

  /** A stage asked its host to do its work, and the host answered. */
  datatype StageAnswer = StageAnswer(stage: LoopStage, ok: bool)

  /** Platform events ask the platform host, input the input runtime, render stages the window host. */
  predicate IsHosted(stage: LoopStage, platform: bool, input: bool, window: bool) {
    match stage
    case ProcessPlatformEvents => platform
    case NormalizeInput => input
    case PreRender => window
    case Render => window
    case PostRender => window
    case _ => false
  }

  function HostedStages(stages: seq<LoopStage>, platform: bool, input: bool, window: bool): seq<LoopStage> {
    if stages == [] then []
    else
      var last := stages[|stages| - 1];
      HostedStages(stages[..|stages| - 1], platform, input, window)
      + if IsHosted(last, platform, input, window) then [last] else []
  }

  /** One answer for each stage of the trace that has a host, in the order of the trace. */
  ghost predicate AnswersFor(asked: seq<StageAnswer>, hosted: seq<LoopStage>) {
    |asked| == |hosted| && forall k :: 0 <= k < |asked| ==> asked[k].stage == hosted[k]
  }

  ghost function RenderRefusals(asked: seq<StageAnswer>): set<nat> {
    set k: nat | k < |asked| && IsRenderStage(asked[k].stage) && !asked[k].ok
  }

  ghost predicate OtherRefusal(asked: seq<StageAnswer>) {
    exists k :: 0 <= k < |asked| && !IsRenderStage(asked[k].stage) && !asked[k].ok
  }

  lemma AnswersNext(asked: seq<StageAnswer>, hosted: seq<LoopStage>, answer: seq<StageAnswer>, stage: LoopStage,
                    isHosted: bool)
    requires AnswersFor(asked, hosted) && |answer| == (if isHosted then 1 else 0)
    requires answer != [] ==> answer[0].stage == stage
    ensures AnswersFor(asked + answer, hosted + if isHosted then [stage] else [])
  {
  }

  /** Whether a stage other than rendering faulted. */
  ghost predicate OthersAsked(stages: seq<LoopStage>, asked: seq<StageAnswer>, platform: bool, faulted: bool) {
    faulted <==> OtherRefusal(asked) || (ProcessPlatformEvents in stages && !platform)
  }

  /** Whether a render stage faulted, and how often. */
  ghost predicate RendersAsked(stages: seq<LoopStage>, asked: seq<StageAnswer>, window: bool, faulted: bool,
                               faultsBefore: nat, faults: nat) {
    && faultsBefore <= faults && (faulted <==> faultsBefore < faults)
    && (window ==> faults == faultsBefore + |RenderRefusals(asked)|)
    && (!window ==> |RenderRefusals(asked)| == 0 && (faulted <==> exists s :: s in stages && IsRenderStage(s)))
  }

  lemma OthersNext(stages: seq<LoopStage>, stage: LoopStage, asked: seq<StageAnswer>, answer: seq<StageAnswer>,
                   platform: bool, faulted0: bool, faulted: bool)
    requires OthersAsked(stages, asked, platform, faulted0) && |answer| <= 1
    requires answer != [] ==> answer[0].stage == stage
    requires var refused := (answer != [] && !answer[0].ok) || (stage == ProcessPlatformEvents && !platform);
             faulted <==> faulted0 || (refused && !IsRenderStage(stage))
    ensures OthersAsked(stages + [stage], asked + answer, platform, faulted)
  {
    if answer == [] {
      assert asked + answer == asked;
    } else {
      assert answer == [answer[0]];
      AskedNext(asked, answer[0]);
    }
  }

  lemma RendersNext(stages: seq<LoopStage>, stage: LoopStage, asked: seq<StageAnswer>, answer: seq<StageAnswer>,
                    window: bool, faulted0: bool, faultsBefore: nat, faults0: nat, faulted: bool, faults: nat)
    requires RendersAsked(stages, asked, window, faulted0, faultsBefore, faults0) && |answer| <= 1
    requires answer != [] ==> answer[0].stage == stage
    requires IsRenderStage(stage) ==> |answer| == if window then 1 else 0
    requires var refused := IsRenderStage(stage) && (!window || !answer[0].ok);
             && faults == faults0 + (if refused then 1 else 0) && (faulted <==> faulted0 || refused)
    ensures RendersAsked(stages + [stage], asked + answer, window, faulted, faultsBefore, faults)
  {
    if answer == [] {
      assert asked + answer == asked;
    } else {
      assert answer == [answer[0]];
      AskedNext(asked, answer[0]);
    }
    if s :| s in stages && IsRenderStage(s) {
      assert s in stages + [stage];
    }
  }

  lemma RefusalsMeaning(asked: seq<StageAnswer>)
    ensures |RenderRefusals(asked)| > 0 <==>
              exists k :: 0 <= k < |asked| && IsRenderStage(asked[k].stage) && !asked[k].ok
    ensures !OtherRefusal(asked) <==> forall k :: 0 <= k < |asked| ==> IsRenderStage(asked[k].stage) || asked[k].ok
  {
    if k :| 0 <= k < |asked| && IsRenderStage(asked[k].stage) && !asked[k].ok {
      assert k in RenderRefusals(asked);
    }
    if k :| k in RenderRefusals(asked) {
      assert 0 <= k < |asked|;
    }
  }

  lemma AskedNext(asked: seq<StageAnswer>, a: StageAnswer)
    ensures |RenderRefusals(asked + [a])| == |RenderRefusals(asked)| + if IsRenderStage(a.stage) && !a.ok then 1 else 0
    ensures OtherRefusal(asked + [a]) <==> OtherRefusal(asked) || (!IsRenderStage(a.stage) && !a.ok)
  {
    var more := asked + [a];
    if IsRenderStage(a.stage) && !a.ok {
      assert RenderRefusals(more) == RenderRefusals(asked) + {|asked|};
    } else {
      assert RenderRefusals(more) == RenderRefusals(asked);
    }
    if k :| 0 <= k < |asked| && !IsRenderStage(asked[k].stage) && !asked[k].ok {
      assert more[k] == asked[k];
    }
    assert more[|asked|] == a;
  }

  lemma HostedNext(stages: seq<LoopStage>, i: nat, platform: bool, input: bool, window: bool)
    requires i < |stages|
    ensures HostedStages(stages[..i + 1], platform, input, window)
         == HostedStages(stages[..i], platform, input, window)
            + if IsHosted(stages[i], platform, input, window) then [stages[i]] else []
  {
    assert stages[..i + 1][..i] == stages[..i];
  }

  ghost predicate RisesTo(at: seq<nat>, n: nat) {
    && (forall i, j :: 0 <= i < j < |at| ==> at[i] < at[j])
    && forall i :: 0 <= i < |at| ==> at[i] < n
  }

  /** The stages that ask a host are, at rising positions, those of the trace whose host is there. */
  lemma {:induction false} HostedStagesMeaning(stages: seq<LoopStage>, platform: bool, input: bool, window: bool)
    returns (at: seq<nat>)
    ensures RisesTo(at, |stages|) && |at| == |HostedStages(stages, platform, input, window)|
    ensures forall k :: 0 <= k < |at| ==> stages[at[k]] == HostedStages(stages, platform, input, window)[k]
    ensures forall n :: n in at <==>
              0 <= n < |stages| && ((stages[n] == ProcessPlatformEvents && platform)
                                    || (stages[n] == NormalizeInput && input)
                                    || (stages[n] in {PreRender, Render, PostRender} && window))
  {
    if stages == [] {
      at := [];
    } else {
      var before, n := stages[..|stages| - 1], |stages| - 1;
      var earlier := HostedStagesMeaning(before, platform, input, window);
      assert stages == before + [stages[n]];
      at := earlier + if IsHosted(stages[n], platform, input, window) then [n] else [];
      assert forall k :: 0 <= k < |earlier| ==> earlier[k] in earlier;
    }
  }

  /** A frame only runs render stages that are active. */
  lemma {:induction false} RenderIsActive(f: FrameKind, active: seq<LoopStage>, stage: LoopStage)
    requires IsRenderStage(stage) && stage in TraceOf(f, active)
    ensures stage in active
  {
    if active != [] {
      var before, last := active[..|active| - 1], active[|active| - 1];
      assert active == before + [last];
      if stage in TraceOf(f, before) {
        RenderIsActive(f, before, stage);
      } else {
        assert stage in StageRuns(f, last);
        NoRenderInSteps(f, f.steps);
      }
    }
  }

  lemma {:induction false} NoRenderInSteps(f: FrameKind, n: nat)
    ensures forall s :: s in Repeat(Triple(f), n) ==> !IsRenderStage(s)
  {
    if n > 0 {
      NoRenderInSteps(f, n - 1);
    }
  }

  // ---------- the runtime ----------

  predicate HasRenderStages(active: seq<LoopStage>) {
    PreRender in active || Render in active || PostRender in active
  }

  class PlatformHostRuntime {
    const runner: LoopStageGraphRunner
    const fault: FaultPolicyRuntime
    const hasPlatformHost: bool
    const hasWindowHost: bool
    const hasInputRuntime: bool
    var configured: bool
    var running: bool
    var platformInitialized: bool
    var windowCreated: bool
    var frameFailed: bool
    /** the calls that acquire or release something */
    ghost var log: seq<HostCall>
    /** since the last Configure: render faults, and ticks that succeeded in spite of one */
    ghost var renderFaults: nat
    ghost var toleratedTicks: nat
    ghost var ticks: seq<TickRecord>
    /** every answer of a host to a stage */
    ghost var answers: seq<StageAnswer>

    ghost predicate Ready()
      reads this, runner, fault
    {
      && runner.configured && fault.configured
      && fault.policy == runner.policy && fault.limits == DEFAULT_LIMITS
    }

    ghost predicate CountsRenderFaults()
      reads this, fault
    {
      fault.Valid() && fault.counters[Index(RenderFault)] == renderFaults % TWO_TO_THE_32
    }

    /** Whether the render faults of a frame, counted so far, may be degraded. */
    ghost predicate Tolerable()
      reads this, runner
    {
      && runner.policy.profile != DeterministicHost && runner.policy.renderingEnabled
      && renderFaults <= DEFAULT_LIMITS.renderIsolation
    }

    ghost predicate Budgeted()
      reads this, fault
    {
      && CountsRenderFaults()
      && toleratedTicks == ToleratedOf(ticks) && toleratedTicks <= renderFaults
      && TicksOk(ticks, renderFaults)
      && (renderFaults < TWO_TO_THE_32 ==> toleratedTicks <= DEFAULT_LIMITS.renderIsolation)
    }

    ghost predicate Valid()
      reads this, runner, fault
    {
      && runner.Valid() && fault.Valid()
      && (configured || running ==> Ready() && Budgeted())
      && Consistent()
      && (running ==> platformInitialized && (windowCreated <==> HasRenderStages(runner.activeStages)))
    }

    constructor (platformHost: bool, windowHost: bool, inputRuntime: bool)
      ensures Valid() && !configured && !running && log == []
      ensures fresh(runner) && fresh(fault)
    {
      runner := new LoopStageGraphRunner();
      fault := new FaultPolicyRuntime();
      hasPlatformHost, hasWindowHost, hasInputRuntime := platformHost, windowHost, inputRuntime;
      configured, running, platformInitialized, windowCreated, frameFailed := false, false, false, false, false;
      log, renderFaults, toleratedTicks, ticks, answers := [], 0, 0, [], [];
    }

    /** src/platform_host_runtime.cpp:32-192. A refusal keeps the record of ticks; and while something is running or
        held it touches neither the runner nor the budgets. */
    method Configure(p: Policy) returns (ok: bool)
      requires Valid()
      modifies this`configured, this`frameFailed, this`renderFaults, this`toleratedTicks, this`ticks, runner, fault
      ensures Valid() && configured == ok
      ensures ok <==> !running && !platformInitialized && !windowCreated && ValidPolicy(p)
      ensures ok ==> runner.policy == p && renderFaults == toleratedTicks == 0 && ticks == []
      ensures !ok ==> unchanged(`renderFaults, `toleratedTicks, `ticks)
      ensures running || platformInitialized || windowCreated ==> unchanged(runner, fault)
    {
      if running {
        configured := false;
        return false;
      }
      if platformInitialized || windowCreated {
        configured := false;
        return false;
      }
      ok := ConfigureIdle(p);
      configured := ok;
    }

    /** src/platform_host_runtime.cpp:45-191 */
    method ConfigureIdle(p: Policy) returns (ok: bool)
      requires fault.Valid()
      modifies this`frameFailed, this`renderFaults, this`toleratedTicks, this`ticks, runner, fault
      ensures runner.Valid() && fault.Valid()
      ensures ok <==> ValidPolicy(p)
      ensures ok ==> Ready() && Budgeted() && runner.policy == p && renderFaults == toleratedTicks == 0 && ticks == []
      ensures !ok ==> unchanged(`renderFaults, `toleratedTicks, `ticks)
    {
      ok := ConfigureParts(p);
      if !ok {
        return;
      }
      renderFaults, toleratedTicks, ticks := 0, 0, [];
      frameFailed := false;
    }

    /** src/platform_host_runtime.cpp:45-60 */
    method ConfigureParts(p: Policy) returns (ok: bool)
      requires fault.Valid()
      modifies runner, fault
      ensures runner.Valid() && fault.Valid()
      ensures ok <==> ValidPolicy(p)
      ensures ok ==> Ready() && runner.policy == p && fault.counters == [0, 0, 0, 0, 0, 0]
    {
      ok := runner.Configure(p);
      if ok {
        ok := fault.Configure(p, DEFAULT_LIMITS);
      }
      if ok {
        fault.Reset();
      }
    }

    ghost predicate Consistent()
      reads this
    {
      && Balanced(log) && HeldAfter(log) == Held(platformInitialized, windowCreated)
      && (platformInitialized ==> hasPlatformHost) && (windowCreated ==> hasWindowHost)
    }

    /** Asks a host, which may answer anything. */
    method CallHost(op: Op) returns (ok: bool)
      requires Balanced(log) && MayCall(HeldAfter(log), op)
      modifies this`log
      ensures Balanced(log) && log == old(log) + [HostCall(op, ok)]
      ensures HeldAfter(log) == After(HeldAfter(old(log)), HostCall(op, ok))
    {
      ok := *;
      LogAppend(log, HostCall(op, ok));
      log := log + [HostCall(op, ok)];
    }

    /** What a successful start acquires. */
    ghost function Acquired(): seq<HostCall>
      reads runner
    {
      [HostCall(InitializePlatform, true)]
      + if HasRenderStages(runner.activeStages) then [HostCall(CreateWindow, true)] else []
    }

    ghost predicate MayStart()
      reads this
    {
      configured && !running && !platformInitialized && !windowCreated && hasPlatformHost
    }

    /** src/platform_host_runtime.cpp:194-260; without a native backend to wire in. A start that fails after
        the platform is up tries to take it down again. */
    method Start() returns (ok: bool)
      requires Valid()
      modifies this`running, this`platformInitialized, this`windowCreated, this`log
      ensures Valid()
      ensures ok <==> old(MayStart()) && log == old(log) + Acquired()
      ensures running == (old(running) || ok)
      ensures !ok ==> windowCreated == old(windowCreated)
      ensures !old(MayStart()) ==> log == old(log)
      ensures old(MayStart()) && !ok ==>
                || log == old(log) + [HostCall(InitializePlatform, false)]
                || (old(log) < log && log[|log| - 1] == HostCall(TearDownPlatform, !platformInitialized))
    {
      if !configured || running || platformInitialized || windowCreated || !hasPlatformHost {
        return false;
      }
      ok := CallHost(InitializePlatform);
      if !ok {
        return;
      }
      platformInitialized := true;
      if HasRenderStages(runner.activeStages) {
        ok := OpenWindow();
        if !ok {
          return;
        }
      }
      running := true;
    }

    /** src/platform_host_runtime.cpp:233-253 */
    method OpenWindow() returns (ok: bool)
      requires Consistent() && platformInitialized && !windowCreated
      modifies this`platformInitialized, this`windowCreated, this`log
      ensures Consistent() && windowCreated == ok
      ensures ok ==> platformInitialized && log == old(log) + [HostCall(CreateWindow, true)]
      ensures !ok ==> old(log) < log && log[|log| - 1] == HostCall(TearDownPlatform, !platformInitialized)
    {
      if hasWindowHost {
        ok := CallHost(CreateWindow);
        if ok {
          windowCreated := true;
          return;
        }
      }
      var tornDown := CallHost(TearDownPlatform);
      if tornDown {
        platformInitialized := false;
      }
      ok := false;
    }

    /** src/platform_host_runtime.cpp:296-305 */
    method ReleaseWindows() returns (ok: bool)
      requires Consistent()
      modifies this`windowCreated, this`log
      ensures Consistent() && ok == !windowCreated
      ensures log == old(log) + if old(windowCreated) then [HostCall(TearDownWindows, ok)] else []
    {
      ok := true;
      if windowCreated {
        ok := CallHost(TearDownWindows);
        if ok {
          windowCreated := false;
        }
      }
    }

    /** src/platform_host_runtime.cpp:307-314 */
    method ReleasePlatform() returns (ok: bool)
      requires Consistent()
      modifies this`platformInitialized, this`log
      ensures Consistent() && ok == !platformInitialized
      ensures log == old(log) + if old(platformInitialized) then [HostCall(TearDownPlatform, ok)] else []
    {
      ok := true;
      if platformInitialized {
        ok := CallHost(TearDownPlatform);
        if ok {
          platformInitialized := false;
        }
      }
    }

    /** src/platform_host_runtime.cpp:290-320: tries both releases, whatever comes of the first; a stop that
        returns true leaves nothing held. */
    method StopHost() returns (ok: bool)
      requires Valid()
      modifies this`running, this`platformInitialized, this`windowCreated, this`frameFailed, this`log
      ensures Valid() && !running
      ensures ok <==> !platformInitialized && !windowCreated
      ensures log == old(log)
                     + (if old(windowCreated) then [HostCall(TearDownWindows, !windowCreated)] else [])
                     + (if old(platformInitialized) then [HostCall(TearDownPlatform, !platformInitialized)] else [])
    {
      if !running && !platformInitialized && !windowCreated {
        return true;
      }
      ok := ReleaseAll();
      running, frameFailed := false, false;
    }

    /** src/platform_host_runtime.cpp:295-314 */
    method ReleaseAll() returns (ok: bool)
      requires Consistent()
      modifies this`platformInitialized, this`windowCreated, this`log
      ensures Consistent()
      ensures ok <==> !platformInitialized && !windowCreated
      ensures log == old(log)
                     + (if old(windowCreated) then [HostCall(TearDownWindows, !windowCreated)] else [])
                     + (if old(platformInitialized) then [HostCall(TearDownPlatform, !platformInitialized)] else [])
    {
      var windowsDown := ReleaseWindows();
      var platformDown := ReleasePlatform();
      ok := windowsDown && platformDown;
    }

    // ---------- one tick ----------

    /** src/platform_host_runtime.cpp:349-380 */
    method HandleStageFault(c: Context)
      requires Ready() && CountsRenderFaults()
      modifies this`frameFailed, this`renderFaults, fault`counters
      ensures CountsRenderFaults()
      ensures renderFaults == old(renderFaults) + if c.faultClass == RenderFault then 1 else 0
      ensures frameFailed <==> old(frameFailed)
                               || !Decide(runner.policy, DEFAULT_LIMITS, c, fault.counters[Index(c.faultClass)]).degrade
    {
      var decision := fault.Evaluate(c);
      renderFaults := renderFaults + if c.faultClass == RenderFault then 1 else 0;
      if decision.degrade {
        return;
      }
      frameFailed := true;
    }

    /** Asks a host to do the work of a stage; it may answer anything. */
    method AskHost(stage: LoopStage) returns (ok: bool)
      modifies this`answers
      ensures answers == old(answers) + [StageAnswer(stage, ok)]
    {
      ok := *;
      answers := answers + [StageAnswer(stage, ok)];
    }

    /** src/platform_host_runtime.cpp:63-186: what the handler of a stage does with its host's answer. A stage whose
        host is there asks it once; the fault is that it refuses, or that a host that must be there is missing. */
    method RunHandler(stage: LoopStage) returns (ghost faulted: bool, ghost asked: seq<StageAnswer>)
      requires Ready() && CountsRenderFaults()
      modifies this`frameFailed, this`renderFaults, this`answers, fault`counters
      ensures CountsRenderFaults()
      ensures answers == old(answers) + asked
      ensures |asked| == if || (stage == ProcessPlatformEvents && hasPlatformHost)
                            || (stage == NormalizeInput && hasInputRuntime)
                            || (IsRenderStage(stage) && hasWindowHost) then 1 else 0
      ensures asked != [] ==> asked[0].stage == stage
      ensures faulted <==> || (asked != [] && !asked[0].ok)
                           || (stage == ProcessPlatformEvents && !hasPlatformHost)
                           || (IsRenderStage(stage) && !hasWindowHost)
      ensures renderFaults == old(renderFaults) + if faulted && IsRenderStage(stage) then 1 else 0
      ensures !faulted ==> frameFailed == old(frameFailed)
      ensures faulted && !IsRenderStage(stage) ==> frameFailed
      ensures faulted && IsRenderStage(stage) && hasWindowHost && renderFaults < TWO_TO_THE_32 ==>
                (frameFailed <==> old(frameFailed) || !Tolerable())
      ensures faulted && IsRenderStage(stage) && !hasWindowHost ==> frameFailed
      ensures faulted && runner.policy.profile == DeterministicHost ==> frameFailed
    {
      faulted, asked := false, [];
      if stage == ProcessPlatformEvents {
        if !hasPlatformHost {
          faulted := true;
          HandleStageFault(Context(EventFault, false, true, false, false));
        } else {
          var ok := AskHost(stage);
          faulted, asked := !ok, [StageAnswer(stage, ok)];
          if !ok {
            HandleStageFault(Context(EventFault, false, true, false, false));
          }
        }
      } else if stage == NormalizeInput {
        if hasInputRuntime {
          var ok := AskHost(stage);
          faulted, asked := !ok, [StageAnswer(stage, ok)];
          if !ok {
            HandleStageFault(Context(EventFault, false, true, false, false));
          }
        }
      } else if IsRenderStage(stage) {
        if !hasWindowHost {
          faulted := true;
          HandleStageFault(Context(RenderFault, false, true, false, false));
        } else {
          var ok := AskHost(stage);
          faulted, asked := !ok, [StageAnswer(stage, ok)];
          if !ok {
            HandleStageFault(Context(RenderFault, false, false, false, false));
          }
        }
      }
    }

    /** What the first `i` stages of a frame have asked, and which of them faulted. */
    ghost predicate AskedUpTo(stages: seq<LoopStage>, i: nat, asked: seq<StageAnswer>, otherFaulted: bool,
                              renderFaulted: bool, renderFaultsBefore: nat)
      requires i <= |stages|
      reads this
    {
      && AnswersFor(asked, HostedStages(stages[..i], hasPlatformHost, hasInputRuntime, hasWindowHost))
      && OthersAsked(stages[..i], asked, hasPlatformHost, otherFaulted)
      && RendersAsked(stages[..i], asked, hasWindowHost, renderFaulted, renderFaultsBefore, renderFaults)
    }

    /** When the faults so far have failed the frame. */
    ghost predicate FailsRightly(otherFaulted: bool, renderFaulted: bool)
      reads this, runner
    {
      && (hasWindowHost && renderFaults < TWO_TO_THE_32 ==>
            (frameFailed <==> otherFaulted || (renderFaulted && !Tolerable())))
      && (!hasWindowHost ==> (frameFailed <==> otherFaulted || renderFaulted))
      && ((otherFaulted || renderFaulted) && runner.policy.profile == DeterministicHost ==> frameFailed)
    }

    /** The handlers of a frame in the order of its trace; none of them touches the runner. `renderFaulted` says
        that a render stage failed, `otherFaulted` that another one did. */
    method RunHandlers(stages: seq<LoopStage>)
      returns (ghost otherFaulted: bool, ghost renderFaulted: bool, ghost asked: seq<StageAnswer>)
      requires Ready() && CountsRenderFaults() && !frameFailed
      modifies this`frameFailed, this`renderFaults, this`answers, fault`counters
      ensures CountsRenderFaults() && answers == old(answers) + asked
      ensures AskedUpTo(stages, |stages|, asked, otherFaulted, renderFaulted, old(renderFaults))
      ensures FailsRightly(otherFaulted, renderFaulted)
    {
      otherFaulted, renderFaulted, asked := false, false, [];
      assert RenderRefusals([]) == {};
      for i := 0 to |stages|
        modifies this`frameFailed, this`renderFaults, this`answers, fault`counters
        invariant CountsRenderFaults() && answers == old(answers) + asked
        invariant AskedUpTo(stages, i, asked, otherFaulted, renderFaulted, old(renderFaults))
        invariant FailsRightly(otherFaulted, renderFaulted)
      {
        otherFaulted, renderFaulted, asked :=
          RunNextHandler(stages, i, asked, otherFaulted, renderFaulted, old(renderFaults));
      }
    }

    method RunNextHandler(stages: seq<LoopStage>, i: nat, ghost asked0: seq<StageAnswer>, ghost other0: bool,
                          ghost render0: bool, ghost renderFaultsBefore: nat)
      returns (ghost otherFaulted: bool, ghost renderFaulted: bool, ghost asked: seq<StageAnswer>)
      requires Ready() && CountsRenderFaults() && i < |stages|
      requires AskedUpTo(stages, i, asked0, other0, render0, renderFaultsBefore) && FailsRightly(other0, render0)
      modifies this`frameFailed, this`renderFaults, this`answers, fault`counters
      ensures CountsRenderFaults()
      ensures asked0 <= asked && answers == old(answers) + asked[|asked0|..]
      ensures AskedUpTo(stages, i + 1, asked, otherFaulted, renderFaulted, renderFaultsBefore)
      ensures FailsRightly(otherFaulted, renderFaulted)
    {
      ghost var faulted, answer;
      faulted, answer := RunHandler(stages[i]);
      asked := asked0 + answer;
      assert answers == old(answers) + asked[|asked0|..];
      otherFaulted := other0 || (faulted && !IsRenderStage(stages[i]));
      renderFaulted := render0 || (faulted && IsRenderStage(stages[i]));
      HostedNext(stages, i, hasPlatformHost, hasInputRuntime, hasWindowHost);
      assert stages[..i + 1] == stages[..i] + [stages[i]];
      AnswersNext(asked0, HostedStages(stages[..i], hasPlatformHost, hasInputRuntime, hasWindowHost), answer, stages[i],
                  IsHosted(stages[i], hasPlatformHost, hasInputRuntime, hasWindowHost));
      OthersNext(stages[..i], stages[i], asked0, answer, hasPlatformHost, other0, otherFaulted);
      RendersNext(stages[..i], stages[i], asked0, answer, hasWindowHost, render0, renderFaultsBefore,
                  old(renderFaults), renderFaulted, renderFaults);
    }

    /** src/platform_host_runtime.cpp:268-287 */
    method RunFrame(elapsed: uint64)
      returns (ok: bool, ghost otherFaulted: bool, ghost renderFaulted: bool, ghost asked: seq<StageAnswer>)
      requires Ready() && CountsRenderFaults()
      modifies this`frameFailed, this`renderFaults, this`answers, runner, fault`counters
      ensures Ready() && CountsRenderFaults() && answers == old(answers) + asked
      ensures runner.policy == old(runner.policy) && runner.activeStages == old(runner.activeStages)
      ensures FrameSucceeds(runner.policy, true, old(runner.accumulator), elapsed) ==>
                && AskedUpTo(runner.lastExecutedStages, |runner.lastExecutedStages|, asked, otherFaulted, renderFaulted,
                             old(renderFaults))
                && FailsRightly(otherFaulted, renderFaulted) && ok == !frameFailed
                && (!HasRenderStages(runner.activeStages) ==>
                      forall s :: s in runner.lastExecutedStages ==> !IsRenderStage(s))
      ensures !FrameSucceeds(runner.policy, true, old(runner.accumulator), elapsed) ==>
                !ok && !otherFaulted && !renderFaulted && asked == [] && renderFaults == old(renderFaults)
    {
      otherFaulted, renderFaulted, asked := false, false, [];
      frameFailed := false;
      ok := ExecuteLoopFrame(elapsed);
      if !ok {
        return;
      }
      otherFaulted, renderFaulted, asked := RunHandlers(runner.lastExecutedStages);
      assert runner.lastExecutedStages[..|runner.lastExecutedStages|] == runner.lastExecutedStages;
      ok := !frameFailed;
    }

    method ExecuteLoopFrame(elapsed: uint64) returns (ok: bool)
      requires runner.configured
      modifies runner
      ensures runner.policy == old(runner.policy) && runner.activeStages == old(runner.activeStages)
      ensures runner.configured
      ensures ok <==> FrameSucceeds(runner.policy, true, old(runner.accumulator), elapsed)
      ensures ok && !HasRenderStages(runner.activeStages) ==>
                forall s :: s in runner.lastExecutedStages ==> !IsRenderStage(s)
    {
      ghost var acc := runner.accumulator;
      ok := runner.ExecuteFrame(elapsed);
      if ok {
        ghost var t := FrameTiming(runner.policy, acc, elapsed);
        forall s | s in runner.lastExecutedStages && IsRenderStage(s) ensures s in runner.activeStages {
          RenderIsActive(KindOf(runner.policy, runner.activeStages, t.steps, t.dropOptional), runner.activeStages, s);
        }
      }
    }

    /** src/platform_host_runtime.cpp:262-288, from what the hosts answer. A tick succeeds exactly if the frame is on
        time, no host but the window host refused, and the window host's refusals are within the budget. */
    method Tick(elapsed: uint64)
      returns (ok: bool, ghost otherFaulted: bool, ghost renderFaulted: bool, ghost asked: seq<StageAnswer>)
      requires Valid()
      modifies this`frameFailed, this`renderFaults, this`toleratedTicks, this`ticks, this`answers, runner,
               fault`counters
      ensures Valid()
      ensures runner.policy == old(runner.policy) && old(renderFaults) <= renderFaults
      ensures ticks == old(ticks)
                       + if running then [TickRecord(ok, otherFaulted, renderFaulted, renderFaults)] else []
      ensures !running ==> !ok && !otherFaulted && !renderFaulted && asked == []
      ensures renderFaulted <==> old(renderFaults) < renderFaults
      ensures toleratedTicks == old(toleratedTicks) + if ok && renderFaulted then 1 else 0
      // which hosts are asked, and what their answers amount to
      ensures answers == old(answers) + asked
      ensures running && FrameSucceeds(runner.policy, true, old(runner.accumulator), elapsed) ==>
                AnswersFor(asked,
                           HostedStages(runner.lastExecutedStages, hasPlatformHost, hasInputRuntime, hasWindowHost))
      ensures running && !FrameSucceeds(runner.policy, true, old(runner.accumulator), elapsed) ==> !ok && asked == []
      ensures renderFaults
           == old(renderFaults) + |set k: nat | k < |asked| && IsRenderStage(asked[k].stage) && !asked[k].ok|
      ensures otherFaulted <==> exists k :: 0 <= k < |asked| && !IsRenderStage(asked[k].stage) && !asked[k].ok
      ensures running && renderFaults < TWO_TO_THE_32 ==>
                (ok <==> && FrameSucceeds(runner.policy, true, old(runner.accumulator), elapsed)
                         && (forall k :: 0 <= k < |asked| ==> IsRenderStage(asked[k].stage) || asked[k].ok)
                         && ((exists k :: 0 <= k < |asked| && IsRenderStage(asked[k].stage) && !asked[k].ok) ==>
                               && runner.policy.profile != DeterministicHost && runner.policy.renderingEnabled
                               && renderFaults <= 2))
      ensures runner.policy.profile == DeterministicHost && (exists k :: 0 <= k < |asked| && !asked[k].ok) ==> !ok
    {
      assert RenderRefusals([]) == {};
      if !running {
        return false, false, false, [];
      }
      ok, otherFaulted, renderFaulted, asked := RunRecorded(elapsed);
      RefusalsMeaning(asked);
    }

    method RunRecorded(elapsed: uint64)
      returns (ok: bool, ghost otherFaulted: bool, ghost renderFaulted: bool, ghost asked: seq<StageAnswer>)
      requires Ready() && Budgeted() && hasPlatformHost
      requires HasRenderStages(runner.activeStages) ==> hasWindowHost
      modifies this`frameFailed, this`renderFaults, this`toleratedTicks, this`ticks, this`answers, runner,
               fault`counters
      ensures Ready() && Budgeted() && answers == old(answers) + asked
      ensures runner.policy == old(runner.policy) && runner.activeStages == old(runner.activeStages)
      ensures toleratedTicks == old(toleratedTicks) + if ok && renderFaulted then 1 else 0
      ensures ticks == old(ticks) + [TickRecord(ok, otherFaulted, renderFaulted, renderFaults)]
      ensures FrameSucceeds(runner.policy, true, old(runner.accumulator), elapsed) ==>
                AnswersFor(asked,
                           HostedStages(runner.lastExecutedStages, hasPlatformHost, hasInputRuntime, hasWindowHost))
      ensures !FrameSucceeds(runner.policy, true, old(runner.accumulator), elapsed) ==> !ok && asked == []
      ensures otherFaulted <==> OtherRefusal(asked)
      ensures renderFaults == old(renderFaults) + |RenderRefusals(asked)|
      ensures renderFaulted <==> |RenderRefusals(asked)| > 0
      ensures renderFaults < TWO_TO_THE_32 ==>
                (ok <==> && FrameSucceeds(runner.policy, true, old(runner.accumulator), elapsed)
                         && !otherFaulted && (renderFaulted ==> Tolerable()))
      ensures (otherFaulted || renderFaulted) && runner.policy.profile == DeterministicHost ==> !ok
    {
      ok, otherFaulted, renderFaulted, asked := RunFrame(elapsed);
      assert runner.lastExecutedStages[..|runner.lastExecutedStages|] == runner.lastExecutedStages;
      assert RenderRefusals([]) == {};
      RecordTick(TickRecord(ok, otherFaulted, renderFaulted, renderFaults), old(renderFaults));
    }

    ghost method RecordTick(t: TickRecord, total: nat)
      requires TicksOk(ticks, total) && total <= t.renderFaults && TickOk(t, t.renderFaults)
      requires t.renderFaulted ==> total < t.renderFaults
      requires toleratedTicks == ToleratedOf(ticks)
      modifies this`toleratedTicks, this`ticks
      ensures ticks == old(ticks) + [t] && TicksOk(ticks, t.renderFaults)
      ensures toleratedTicks == ToleratedOf(ticks) == old(toleratedTicks) + if Tolerates(t) then 1 else 0
    {
      TicksAppend(ticks, total, t);
      ticks := ticks + [t];
      toleratedTicks := toleratedTicks + if Tolerates(t) then 1 else 0;
    }
  }

  /** Past the limit, within the width of the counter, a tick that sees a render fault fails. */
  predicate FailsAfter(t: TickRecord, later: TickRecord) {
    t.renderFaults > 2 && later.renderFaulted && later.renderFaults < TWO_TO_THE_32 ==> !later.ok
  }

  /** Since the last accepted Configure, over any run of ticks, starts and stops: once the render faults have passed
      the limit, every later tick that sees a render fault returns false, as long as the 32-bit counter does not
      wrap; and the ticks that tolerated a render fault are at most as many as the limit. */
  lemma EscalationIsFinalForTicks(host: PlatformHostRuntime)
    requires host.Valid() && (host.configured || host.running)
    ensures forall i, j :: 0 <= i < j < |host.ticks| ==> FailsAfter(host.ticks[i], host.ticks[j])
    ensures host.renderFaults < TWO_TO_THE_32 ==> ToleratedOf(host.ticks) <= 2
  {
    forall i, j | 0 <= i < j < |host.ticks| ensures FailsAfter(host.ticks[i], host.ticks[j]) {
      assert InTurn(host.ticks[i], host.ticks[j]) && TickOk(host.ticks[j], host.renderFaults);
    }
  }

  /** A running host has its platform, and its window exactly if some render stage is active; what it holds is what
      its calls have acquired and not released. */
  lemma RunningHoldsWhatItNeeds(host: PlatformHostRuntime)
    requires host.Valid()
    ensures host.running ==>
              && host.platformInitialized
              && (host.windowCreated <==> exists s :: s in host.runner.activeStages && IsRenderStage(s))
    ensures HeldAfter(host.log) == Held(host.platformInitialized, host.windowCreated) && Balanced(host.log)
  {
    var active := host.runner.activeStages;
    assert IsRenderStage(PreRender) && IsRenderStage(Render) && IsRenderStage(PostRender);
    assert HasRenderStages(active) <==> exists s :: s in active && IsRenderStage(s);
  }
}
