/** The loop stage runner (src/loop_stage_graph.cpp): fixed-step timing and the stage trace of a frame. */
module LoopRunner {
  import opened Sequences
  import opened LoopPolicy

  // ---------- timing of one frame ----------

  /** `steps` update steps run, `dropped` ones do not; `dropOptional` asks to skip optional stages. */
  datatype Timing = Overrun | Timing(steps: uint32, dropped: uint32, dropOptional: bool)

  function Observed(p: Policy, elapsed: uint64): uint64 {
    if elapsed == 0 then p.fixedDeltaNs else elapsed
  }

  /** The accumulator is a 64-bit unsigned integer. */
  function Accumulate(p: Policy, acc: uint64, elapsed: uint64): uint64 {
    (acc + Observed(p, elapsed)) % TWO_TO_THE_64
  }

  function Quotient(p: Policy, acc: uint64, elapsed: uint64): nat
    requires p.fixedDeltaNs > 0
  {
    Accumulate(p, acc, elapsed) / p.fixedDeltaNs
  }

  function Clamp(q: nat): (n: uint32)
    ensures n >= 1
  {
    if q == 0 then 1 else if q > TWO_TO_THE_32 - 1 then TWO_TO_THE_32 - 1 else q
  }

  function Requested(p: Policy, acc: uint64, elapsed: uint64): (n: uint32)
    requires p.fixedDeltaNs > 0
    ensures n >= 1
  {
    Clamp(Quotient(p, acc, elapsed))
  }

  /** 1 + max_catch_up_steps in 32 bits */
  function AllowedSteps(p: Policy): uint32 {
    (1 + p.maxCatchUpSteps) % TWO_TO_THE_32
  }

  /** src/loop_stage_graph.cpp:177-203 */
  function FixedTiming(p: Policy, acc: uint64, elapsed: uint64): Timing
    requires p.fixedDeltaNs > 0
  {
    var n := Requested(p, acc, elapsed);
    if n <= 1 then Timing(1, 0, false)
    else
      match p.overrunMode
      case Slip => Timing(1, n - 1, false)
      case CatchUpBounded =>
        var steps := if n <= AllowedSteps(p) then n else AllowedSteps(p);
        Timing(steps, n - steps, false)
      case DropNonCritical => Timing(1, n - 1, true)
      case FailFast => Overrun
  }

  /** What the accumulator holds after a fixed-delta frame; an overrun leaves it unreduced. */
  function AccumulatorAfter(p: Policy, acc: uint64, elapsed: uint64): uint64
    requires p.fixedDeltaNs > 0
  {
    var sum := Accumulate(p, acc, elapsed);
    if FixedTiming(p, acc, elapsed).Overrun? then sum
    else if sum >= p.fixedDeltaNs then sum % p.fixedDeltaNs else sum
  }

  // ---------- stages of one frame ----------

  function DisabledStages(names: seq<string>): set<LoopStage> {
    if names == [] then {}
    else DisabledStages(names[..|names| - 1])
         + (match ParseStage(names[|names| - 1]) case Some(stage) => {stage} case None => {})
  }

  function KeepEnabled(stages: seq<LoopStage>, disabled: set<LoopStage>): seq<LoopStage> {
    if stages == [] then []
    else KeepEnabled(stages[..|stages| - 1], disabled)
         + if stages[|stages| - 1] in disabled then [] else [stages[|stages| - 1]]
  }

  function Repeat(stages: seq<LoopStage>, n: nat): seq<LoopStage> {
    if n == 0 then [] else Repeat(stages, n - 1) + stages
  }

  datatype FrameKind =
    FrameKind(steps: nat, hasUpdate: bool, hasPostUpdate: bool, dropOptional: bool, profile: LoopProfile)

  function Triple(f: FrameKind): seq<LoopStage> {
    [PreUpdate] + (if f.hasUpdate then [Update] else []) + if f.hasPostUpdate then [PostUpdate] else []
  }

  predicate Skips(f: FrameKind, stage: LoopStage) {
    f.dropOptional && IsRenderStage(stage) && OptionalRenderProfile(f.profile)
  }

  function StageRuns(f: FrameKind, stage: LoopStage): seq<LoopStage> {
    if stage == Update || stage == PostUpdate then []
    else if stage == PreUpdate then Repeat(Triple(f), f.steps)
    else if Skips(f, stage) then []
    else [stage]
  }

  function TraceOf(f: FrameKind, active: seq<LoopStage>): seq<LoopStage> {
    if active == [] then [] else TraceOf(f, active[..|active| - 1]) + StageRuns(f, active[|active| - 1])
  }

  function KindOf(p: Policy, active: seq<LoopStage>, steps: nat, dropOptional: bool): FrameKind {
    FrameKind(steps, Update in active, PostUpdate in active, dropOptional, p.profile)
  }

  // ---------- the runner ----------

  class LoopStageGraphRunner {
    var policy: Policy
    var activeStages: seq<LoopStage>
    var lastExecutedStages: seq<LoopStage>
    var lastUpdateStepCount: uint32
    var lastDroppedUpdateStepCount: uint32
    var lastFrameDroppedNonCriticalStages: bool
    var accumulator: uint64
    var configured: bool

    ghost predicate Valid()
      reads this
    {
      configured ==> ValidPolicy(policy)
                     && activeStages == KeepEnabled(BASELINE, DisabledStages(policy.disabledOptionalStages))
    }

    constructor ()
      ensures Valid() && !configured
    {
      policy := Policy(Gui, VariableDelta, Slip, 16666667, 0, true, []);
      activeStages, lastExecutedStages := [], [];
      lastUpdateStepCount, lastDroppedUpdateStepCount, lastFrameDroppedNonCriticalStages := 1, 0, false;
      accumulator, configured := 0, false;
    }

    /** src/loop_stage_graph.cpp:98-136 */
    method Configure(p: Policy) returns (ok: bool)
      modifies this
      ensures Valid() && configured == ok
      ensures ok <==> ValidPolicy(p)
      ensures ok ==> policy == p && accumulator == 0 && lastExecutedStages == []
      ensures ok ==> lastUpdateStepCount == 1 && lastDroppedUpdateStepCount == 0 && !lastFrameDroppedNonCriticalStages
    {
      if !ValidPolicy(p) {
        configured := false;
        return false;
      }
      var disabled, parsed := ParseDisabled(p.disabledOptionalStages);
      if !parsed {
        configured := false;
        AcceptedNamesParse(p);
        return false;
      }
      activeStages := SelectActive(disabled);
      policy, configured := p, true;
      lastExecutedStages, lastUpdateStepCount, lastDroppedUpdateStepCount := [], 1, 0;
      lastFrameDroppedNonCriticalStages, accumulator := false, 0;
      ok := true;
    }

    /** src/loop_stage_graph.cpp:151-255. Failing before the stages run leaves the last trace in place. */
    method ExecuteFrame(elapsed: uint64) returns (ok: bool)
      modifies this
      ensures policy == old(policy) && activeStages == old(activeStages) && configured == old(configured)
      ensures ok <==> FrameSucceeds(policy, configured, old(accumulator), elapsed)
      ensures !ok ==> lastExecutedStages == old(lastExecutedStages)
      ensures !configured ==> accumulator == old(accumulator)
      ensures configured && policy.timingMode == FixedDelta && policy.fixedDeltaNs > 0 ==>
                accumulator == AccumulatorAfter(policy, old(accumulator), elapsed)
      ensures ok ==>
                var t := FrameTiming(policy, old(accumulator), elapsed);
                && t == Timing(lastUpdateStepCount, lastDroppedUpdateStepCount, t.dropOptional)
                && lastExecutedStages == FrameTrace(policy, activeStages, old(accumulator), elapsed)
                && (lastFrameDroppedNonCriticalStages <==>
                      exists s :: s in activeStages && Skips(KindOf(policy, activeStages, 0, t.dropOptional), s))
      ensures ok && policy.timingMode != FixedDelta ==> accumulator == 0
      // the same in numbers, with an elapsed time of 0 counting as one delta
      ensures !configured ==> !ok && unchanged(this)
      ensures configured && policy.timingMode != FixedDelta ==>
                ok && lastUpdateStepCount == 1 && lastDroppedUpdateStepCount == 0 && !lastFrameDroppedNonCriticalStages
      ensures configured && policy.timingMode == FixedDelta && policy.fixedDeltaNs > 0 ==>
                var delta := policy.fixedDeltaNs;
                var sum := (old(accumulator) + if elapsed == 0 then delta else elapsed) % TWO_TO_THE_64;
                && (ok <==> policy.overrunMode != FailFast || sum / delta < 2)
                && accumulator == (if ok then sum % delta else sum)
                && (ok ==> lastUpdateStepCount + lastDroppedUpdateStepCount
                           == if sum < delta then 1
                              else if sum / delta < TWO_TO_THE_32 then sum / delta
                              else TWO_TO_THE_32 - 1)
                && (ok && policy.overrunMode != CatchUpBounded ==> lastUpdateStepCount == 1)
                && (ok && policy.overrunMode == CatchUpBounded && policy.maxCatchUpSteps < TWO_TO_THE_32 - 1 ==>
                      && 1 <= lastUpdateStepCount <= 1 + policy.maxCatchUpSteps
                      && (lastDroppedUpdateStepCount > 0 ==> lastUpdateStepCount == 1 + policy.maxCatchUpSteps))
                && (ok && policy.overrunMode == CatchUpBounded && policy.maxCatchUpSteps == TWO_TO_THE_32 - 1 ==>
                      lastUpdateStepCount == if sum / delta < 2 then 1 else 0)
                && (ok ==> (lastFrameDroppedNonCriticalStages <==>
                              && policy.overrunMode == DropNonCritical && sum / delta >= 2
                              && (policy.profile == Headless || policy.profile == DeterministicHost)
                              && (PreRender in activeStages || Render in activeStages || PostRender in activeStages)))
    {
      if !configured {
        return false;
      }
      lastUpdateStepCount, lastDroppedUpdateStepCount := 1, 0;
      lastFrameDroppedNonCriticalStages := false;
      var dropOptional := false;
      if policy.timingMode == FixedDelta {
        if policy.fixedDeltaNs == 0 {
          return false;
        }
        FixedTimingMeaning(policy, accumulator, elapsed);
        var onTime;
        onTime, dropOptional := Advance(elapsed);
        if !onTime {
          return false;
        }
      } else {
        accumulator := 0;
      }
      RunStages(dropOptional);
      SkipsMeaning(KindOf(policy, activeStages, lastUpdateStepCount, dropOptional), activeStages);
      ok := true;
    }

    /** src/loop_stage_graph.cpp:169-207 */
    method Advance(elapsed: uint64) returns (ok: bool, dropOptional: bool)
      requires policy.fixedDeltaNs > 0 && lastUpdateStepCount == 1 && lastDroppedUpdateStepCount == 0
      modifies this`accumulator, this`lastUpdateStepCount, this`lastDroppedUpdateStepCount
      ensures accumulator == AccumulatorAfter(policy, old(accumulator), elapsed)
      ensures ok <==> FixedTiming(policy, old(accumulator), elapsed).Timing?
      ensures ok ==> FixedTiming(policy, old(accumulator), elapsed)
                     == Timing(lastUpdateStepCount, lastDroppedUpdateStepCount, dropOptional)
    {
      dropOptional := false;
      var observed := if elapsed == 0 then policy.fixedDeltaNs else elapsed;
      accumulator := (accumulator + observed) % TWO_TO_THE_64;
      var requested: nat := accumulator / policy.fixedDeltaNs;
      if requested == 0 {
        requested := 1;
      }
      requested := if requested <= TWO_TO_THE_32 - 1 then requested else TWO_TO_THE_32 - 1;
      if requested > 1 {
        match policy.overrunMode {
          case Slip =>
            lastUpdateStepCount, lastDroppedUpdateStepCount := 1, requested - 1;
          case CatchUpBounded =>
            var allowed := (1 + policy.maxCatchUpSteps) % TWO_TO_THE_32;
            lastUpdateStepCount := if requested <= allowed then requested else allowed;
            lastDroppedUpdateStepCount := requested - lastUpdateStepCount;
          case DropNonCritical =>
            lastUpdateStepCount, lastDroppedUpdateStepCount := 1, requested - 1;
            dropOptional := true;
          case FailFast =>
            return false, false;
        }
      }
      if accumulator >= policy.fixedDeltaNs {
        accumulator := accumulator % policy.fixedDeltaNs;
      }
      ok := true;
    }

    /** src/loop_stage_graph.cpp:212-252 */
    method RunStages(dropOptional: bool)
      requires !lastFrameDroppedNonCriticalStages
      modifies this`lastExecutedStages, this`lastFrameDroppedNonCriticalStages
      ensures var f := KindOf(policy, activeStages, lastUpdateStepCount, dropOptional);
              && lastExecutedStages == TraceOf(f, activeStages)
              && (lastFrameDroppedNonCriticalStages <==> exists s :: s in activeStages && Skips(f, s))
    {
      var f := KindOf(policy, activeStages, lastUpdateStepCount, dropOptional);
      lastExecutedStages := [];
      for i := 0 to |activeStages|
        invariant lastExecutedStages == TraceOf(f, activeStages[..i])
        invariant lastFrameDroppedNonCriticalStages <==> exists s :: s in activeStages[..i] && Skips(f, s)
      {
        var stage := activeStages[i];
        assert activeStages[..i + 1] == activeStages[..i] + [stage];
        if stage == Update || stage == PostUpdate {
          continue;
        }
        if stage == PreUpdate {
          RunSteps(f);
          continue;
        }
        if dropOptional && IsRenderStage(stage) && OptionalRenderProfile(policy.profile) {
          lastFrameDroppedNonCriticalStages := true;
          continue;
        }
        lastExecutedStages := lastExecutedStages + [stage];
      }
      assert activeStages[..|activeStages|] == activeStages;
    }

    /** src/loop_stage_graph.cpp:234-242 */
    method RunSteps(f: FrameKind)
      modifies this`lastExecutedStages
      ensures lastExecutedStages == old(lastExecutedStages) + Repeat(Triple(f), f.steps)
    {
      for step := 0 to f.steps
        invariant lastExecutedStages == old(lastExecutedStages) + Repeat(Triple(f), step)
      {
        lastExecutedStages := lastExecutedStages + [PreUpdate];
        if f.hasUpdate {
          lastExecutedStages := lastExecutedStages + [Update];
        }
        if f.hasPostUpdate {
          lastExecutedStages := lastExecutedStages + [PostUpdate];
        }
      }
    }
  }

  /** The timing of a fixed-delta frame in numbers. */
  lemma FixedTimingMeaning(p: Policy, acc: uint64, elapsed: uint64)
    requires p.fixedDeltaNs > 0
    ensures var delta, t := p.fixedDeltaNs, FixedTiming(p, acc, elapsed);
            var sum := (acc + if elapsed == 0 then delta else elapsed) % TWO_TO_THE_64;
            && (t.Timing? <==> p.overrunMode != FailFast || sum / delta < 2)
            && AccumulatorAfter(p, acc, elapsed) == (if t.Timing? then sum % delta else sum)
            && (t.Timing? ==>
                  && t.steps + t.dropped
                     == (if sum < delta then 1
                         else if sum / delta < TWO_TO_THE_32 then sum / delta
                         else TWO_TO_THE_32 - 1)
                  && (p.overrunMode != CatchUpBounded ==> t.steps == 1)
                  && (p.overrunMode == CatchUpBounded && p.maxCatchUpSteps < TWO_TO_THE_32 - 1 ==>
                        && 1 <= t.steps <= 1 + p.maxCatchUpSteps
                        && (t.dropped > 0 ==> t.steps == 1 + p.maxCatchUpSteps))
                  && (p.overrunMode == CatchUpBounded && p.maxCatchUpSteps == TWO_TO_THE_32 - 1 ==>
                        t.steps == if sum / delta < 2 then 1 else 0)
                  && (t.dropOptional <==> p.overrunMode == DropNonCritical && sum / delta >= 2))
  {
    var sum := (acc + if elapsed == 0 then p.fixedDeltaNs else elapsed) % TWO_TO_THE_64;
    assert Accumulate(p, acc, elapsed) == sum;
    QuotientIsZero(sum, p.fixedDeltaNs);
    StepsMeaning(p, acc, elapsed, sum / p.fixedDeltaNs);
    RemainderMeaning(p, acc, elapsed, sum);
  }

  lemma StepsMeaning(p: Policy, acc: uint64, elapsed: uint64, q: nat)
    requires p.fixedDeltaNs > 0 && q == Quotient(p, acc, elapsed)
    ensures var t := FixedTiming(p, acc, elapsed);
            && (t.Timing? <==> p.overrunMode != FailFast || q < 2)
            && (t.Timing? ==>
                  && t.steps + t.dropped == (if q == 0 then 1 else if q < TWO_TO_THE_32 then q else TWO_TO_THE_32 - 1)
                  && (p.overrunMode != CatchUpBounded ==> t.steps == 1)
                  && (p.overrunMode == CatchUpBounded && p.maxCatchUpSteps < TWO_TO_THE_32 - 1 ==>
                        && 1 <= t.steps <= 1 + p.maxCatchUpSteps
                        && (t.dropped > 0 ==> t.steps == 1 + p.maxCatchUpSteps))
                  && (p.overrunMode == CatchUpBounded && p.maxCatchUpSteps == TWO_TO_THE_32 - 1 ==>
                        t.steps == if q < 2 then 1 else 0)
                  && (t.dropOptional <==> p.overrunMode == DropNonCritical && q >= 2))
  {
    AllowedMeaning(p);
  }

  lemma AllowedMeaning(p: Policy)
    ensures AllowedSteps(p) == if p.maxCatchUpSteps == TWO_TO_THE_32 - 1 then 0 else 1 + p.maxCatchUpSteps
  {
  }

  lemma RemainderMeaning(p: Policy, acc: uint64, elapsed: uint64, sum: nat)
    requires p.fixedDeltaNs > 0 && sum == Accumulate(p, acc, elapsed)
    ensures AccumulatorAfter(p, acc, elapsed)
         == if FixedTiming(p, acc, elapsed).Timing? then sum % p.fixedDeltaNs else sum
  {
    QuotientIsZero(sum, p.fixedDeltaNs);
  }

  lemma QuotientIsZero(n: nat, d: nat)
    requires d > 0
    ensures n / d == 0 <==> n < d
    ensures n < d ==> n % d == n
  {
  }

  lemma SkipsMeaning(f: FrameKind, active: seq<LoopStage>)
    ensures (exists s :: s in active && Skips(f, s)) <==>
              && f.dropOptional && (f.profile == Headless || f.profile == DeterministicHost)
              && (PreRender in active || Render in active || PostRender in active)
  {
    if f.dropOptional && (f.profile == Headless || f.profile == DeterministicHost) {
      assert PreRender in active ==> Skips(f, PreRender);
      assert Render in active ==> Skips(f, Render);
      assert PostRender in active ==> Skips(f, PostRender);
    }
  }

  /** src/loop_stage_graph.cpp:106-116 */
  method ParseDisabled(names: seq<string>) returns (disabled: set<LoopStage>, ok: bool)
    ensures ok <==> forall name :: name in names ==> ParseStage(name).Some?
    ensures ok ==> disabled == DisabledStages(names)
  {
    disabled := {};
    for i := 0 to |names|
      invariant disabled == DisabledStages(names[..i])
      invariant forall name :: name in names[..i] ==> ParseStage(name).Some?
    {
      var stage := ParseStage(names[i]);
      if stage.None? {
        return disabled, false;
      }
      assert names[..i + 1] == names[..i] + [names[i]];
      disabled := disabled + {stage.value};
    }
    assert names[..|names|] == names;
    ok := true;
  }

  /** src/loop_stage_graph.cpp:118-125 */
  method SelectActive(disabled: set<LoopStage>) returns (active: seq<LoopStage>)
    ensures active == KeepEnabled(BASELINE, disabled)
  {
    active := [];
    for i := 0 to |BASELINE|
      invariant active == KeepEnabled(BASELINE[..i], disabled)
    {
      assert BASELINE[..i + 1] == BASELINE[..i] + [BASELINE[i]];
      if BASELINE[i] in disabled {
        continue;
      }
      active := active + [BASELINE[i]];
    }
    assert BASELINE[..|BASELINE|] == BASELINE;
  }

  lemma AcceptedNamesParse(p: Policy)
    requires ValidPolicy(p)
    ensures forall name :: name in p.disabledOptionalStages ==> ParseStage(name).Some?
  {
    NamesParse(p.profile, p.disabledOptionalStages);
  }

  lemma {:induction false} NamesParse(profile: LoopProfile, names: seq<string>)
    requires MayDisable(profile, names)
    ensures forall name :: name in names ==> ParseStage(name).Some?
  {
    if names != [] {
      NamesParse(profile, names[1..]);
    }
  }

  function FrameTiming(p: Policy, acc: uint64, elapsed: uint64): Timing {
    if p.timingMode == FixedDelta && p.fixedDeltaNs > 0 then FixedTiming(p, acc, elapsed) else Timing(1, 0, false)
  }

  predicate FrameSucceeds(p: Policy, configured: bool, acc: uint64, elapsed: uint64) {
    configured && (p.timingMode == FixedDelta ==> p.fixedDeltaNs > 0) && FrameTiming(p, acc, elapsed).Timing?
  }

  function FrameTrace(p: Policy, active: seq<LoopStage>, acc: uint64, elapsed: uint64): seq<LoopStage>
    requires FrameTiming(p, acc, elapsed).Timing?
  {
    var t := FrameTiming(p, acc, elapsed);
    TraceOf(KindOf(p, active, t.steps, t.dropOptional), active)
  }
}
