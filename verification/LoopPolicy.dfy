/** Loop policies and their validation (src/loop_policy.cpp, and the stage names of src/loop_stage_graph.cpp). */
module LoopPolicy {
  import opened Sequences

  const TWO_TO_THE_32: nat := 0x1_0000_0000
  const TWO_TO_THE_64: nat := 0x1_0000_0000_0000_0000

  type uint32 = n: nat | n < TWO_TO_THE_32
  type uint64 = n: nat | n < TWO_TO_THE_64

  datatype LoopProfile = Gui | Headless | Hybrid | DeterministicHost

  datatype TimingMode = VariableDelta | FixedDelta | ExternallyClocked

  datatype OverrunMode = Slip | CatchUpBounded | DropNonCritical | FailFast

  datatype LoopStage =
    | BeginFrame
    | ProcessPlatformEvents
    | NormalizeInput
    | DispatchImmediateEvents
    | PreUpdate
    | Update
    | PostUpdate
    | DispatchDeferredEvents
    | PreRender
    | Render
    | PostRender
    | EndFrame

  const BASELINE: seq<LoopStage> :=
    [BeginFrame, ProcessPlatformEvents, NormalizeInput, DispatchImmediateEvents, PreUpdate, Update, PostUpdate,
     DispatchDeferredEvents, PreRender, Render, PostRender, EndFrame]

  datatype Policy = Policy(profile: LoopProfile, timingMode: TimingMode, overrunMode: OverrunMode,
                           fixedDeltaNs: uint64, maxCatchUpSteps: uint32, renderingEnabled: bool,
                           disabledOptionalStages: seq<string>)

  /** src/loop_stage_graph.cpp:12-25 */
  function StageName(stage: LoopStage): string {
    match stage
    case BeginFrame => "BeginFrame"
    case ProcessPlatformEvents => "ProcessPlatformEvents"
    case NormalizeInput => "NormalizeInput"
    case DispatchImmediateEvents => "DispatchImmediateEvents"
    case PreUpdate => "PreUpdate"
    case Update => "Update"
    case PostUpdate => "PostUpdate"
    case DispatchDeferredEvents => "DispatchDeferredEvents"
    case PreRender => "PreRender"
    case Render => "Render"
    case PostRender => "PostRender"
    case EndFrame => "EndFrame"
  }

  /** src/loop_stage_graph.cpp:80-96: the first row of the table that carries the name. */
  function ParseFrom(stages: seq<LoopStage>, name: string): Option<LoopStage> {
    if stages == [] then None
    else if name == StageName(stages[0]) then Some(stages[0])
    else ParseFrom(stages[1..], name)
  }

  function ParseStage(name: string): Option<LoopStage> {
    ParseFrom(BASELINE, name)
  }

  predicate IsRenderStage(stage: LoopStage) {
    stage == PreRender || stage == Render || stage == PostRender
  }

  /** src/loop_policy.cpp:33-55 */
  predicate IsRenderName(name: string) {
    name == "PreRender" || name == "Render" || name == "PostRender"
  }

  predicate OptionalRenderProfile(profile: LoopProfile) {
    profile == Headless || profile == DeterministicHost
  }

  /** src/loop_policy.cpp:75-87: known, not always required, optional for the profile. */
  predicate MayDisable(profile: LoopProfile, names: seq<string>) {
    names == []
    || (&& ParseStage(names[0]).Some?
        && IsRenderName(names[0])
        && OptionalRenderProfile(profile)
        && MayDisable(profile, names[1..]))
  }

  /** src/loop_policy.cpp:62-101 */
  predicate ValidPolicy(p: Policy) {
    && (p.timingMode == FixedDelta ==> p.fixedDeltaNs != 0)
    && (p.timingMode == FixedDelta && p.overrunMode == CatchUpBounded ==> p.maxCatchUpSteps != 0)
    && (p.profile == Gui || p.profile == Hybrid ==> p.renderingEnabled)
    && MayDisable(p.profile, p.disabledOptionalStages)
    && (!p.renderingEnabled ==>
          && "PreRender" in p.disabledOptionalStages
          && "Render" in p.disabledOptionalStages
          && "PostRender" in p.disabledOptionalStages)
  }

  // ---------- what validation guarantees ----------

  lemma ParseSkips(stages: seq<LoopStage>, n: nat, name: string)
    requires n <= |stages| && forall i :: 0 <= i < n ==> StageName(stages[i]) != name
    ensures ParseFrom(stages, name) == ParseFrom(stages[n..], name)
  {
    if n > 0 {
      ParseSkips(stages[1..], n - 1, name);
      assert stages[1..][n - 1..] == stages[n..];
    }
  }

  function Position(stage: LoopStage): (n: nat)
    ensures n < |BASELINE| && BASELINE[n] == stage
  {
    match stage
    case BeginFrame => 0
    case ProcessPlatformEvents => 1
    case NormalizeInput => 2
    case DispatchImmediateEvents => 3
    case PreUpdate => 4
    case Update => 5
    case PostUpdate => 6
    case DispatchDeferredEvents => 7
    case PreRender => 8
    case Render => 9
    case PostRender => 10
    case EndFrame => 11
  }

  /** Names tell all stages apart. */
  lemma NamesAreDistinct(a: LoopStage, b: LoopStage)
    requires StageName(a) == StageName(b)
    ensures a == b
  {
    assert |StageName(a)| == |StageName(b)|;
    assert StageName(a)[0] == StageName(b)[0] && StageName(a)[1] == StageName(b)[1];
  }

  /** Parsing inverts naming: exactly the twelve names parse, each to its own stage. */
  lemma ParseInvertsName(name: string, stage: LoopStage)
    ensures ParseStage(name) == Some(stage) <==> name == StageName(stage)
  {
    if name == StageName(stage) {
      ParseFindsName(stage);
    } else {
      ParseNames(BASELINE, name);
    }
  }

  lemma ParseFindsName(stage: LoopStage)
    ensures ParseStage(StageName(stage)) == Some(stage)
  {
    var n := Position(stage);
    forall i | 0 <= i < n ensures StageName(BASELINE[i]) != StageName(stage) {
      EarlierName(i, stage);
    }
    ParseSkips(BASELINE, n, StageName(stage));
  }

  lemma EarlierName(i: nat, stage: LoopStage)
    requires i < Position(stage)
    ensures StageName(BASELINE[i]) != StageName(stage)
  {
    assert Position(BASELINE[i]) == i;
    if StageName(BASELINE[i]) == StageName(stage) {
      NamesAreDistinct(BASELINE[i], stage);
    }
  }

  lemma {:induction false} ParseNames(stages: seq<LoopStage>, name: string)
    ensures ParseFrom(stages, name).Some? ==> StageName(ParseFrom(stages, name).value) == name
  {
    if stages != [] {
      ParseNames(stages[1..], name);
    }
  }

  lemma {:induction false} MayDisableMeaning(profile: LoopProfile, names: seq<string>)
    ensures MayDisable(profile, names) <==>
              forall name :: name in names ==> IsRenderName(name) && OptionalRenderProfile(profile)
  {
    if names != [] {
      MayDisableMeaning(profile, names[1..]);
      assert names == [names[0]] + names[1..];
      assert names[0] in names;
      if IsRenderName(names[0]) {
        ParseInvertsName("PreRender", PreRender);
        ParseInvertsName("Render", Render);
        ParseInvertsName("PostRender", PostRender);
      }
    }
  }

  predicate Disables(p: Policy, stage: LoopStage) {
    StageName(stage) in p.disabledOptionalStages
  }

  /** No accepted policy switches off a required stage; where rendering is off, so are all three render stages;
      interactive profiles keep everything. */
  lemma ValidPoliciesKeepRequiredStages(p: Policy, stage: LoopStage)
    requires ValidPolicy(p)
    ensures Disables(p, stage) ==> IsRenderStage(stage) && OptionalRenderProfile(p.profile)
    ensures !p.renderingEnabled && IsRenderStage(stage) ==> Disables(p, stage)
  {
    MayDisableMeaning(p.profile, p.disabledOptionalStages);
    if Disables(p, stage) {
      assert IsRenderName(StageName(stage));
      if StageName(stage) == "PreRender" {
        NamesAreDistinct(stage, PreRender);
      } else if StageName(stage) == "Render" {
        NamesAreDistinct(stage, Render);
      } else {
        NamesAreDistinct(stage, PostRender);
      }
    }
  }

  /** The baseline order, by name. */
  lemma BaselineNames()
    ensures |BASELINE| == 12
    ensures forall i :: 0 <= i < 12 ==>
              StageName(BASELINE[i])
              == ["BeginFrame", "ProcessPlatformEvents", "NormalizeInput", "DispatchImmediateEvents", "PreUpdate",
                  "Update", "PostUpdate", "DispatchDeferredEvents", "PreRender", "Render", "PostRender", "EndFrame"][i]
  {
  }

  /** Everything that makes a policy acceptable. */
  lemma ValidPolicyMeaning(p: Policy)
    ensures ValidPolicy(p) <==>
              && !(p.timingMode == FixedDelta && p.fixedDeltaNs == 0)
              && !(p.timingMode == FixedDelta && p.overrunMode == CatchUpBounded && p.maxCatchUpSteps == 0)
              && !((p.profile == Gui || p.profile == Hybrid) && !p.renderingEnabled)
              && (forall name :: name in p.disabledOptionalStages ==>
                    && (name == "PreRender" || name == "Render" || name == "PostRender")
                    && (p.profile == Headless || p.profile == DeterministicHost))
              && (p.renderingEnabled || forall name :: name == "PreRender" || name == "Render" || name == "PostRender"
                                          ==> name in p.disabledOptionalStages)
  {
    MayDisableMeaning(p.profile, p.disabledOptionalStages);
  }
}
