/** What the loop runner promises over whole runs: time is conserved, fail-fast is final,
    and a frame's trace is the baseline order with the update triple repeated. */
module LoopProperties {
  import opened LoopPolicy
  import opened LoopRunner

  // ---------- division ----------

  lemma DivMod(n: nat, d: nat)
    requires d > 0
    ensures n == d * (n / d) + n % d && 0 <= n % d < d
    ensures n < d <==> n / d == 0
    ensures n < 2 * d <==> n / d <= 1
  {
    var q := n / d;
    if q >= 2 { MulMonotone(d, 2, q); }
    if q == 1 { assert d * q == d; }
  }

  lemma MulMonotone(d: nat, a: nat, b: nat)
    requires a <= b
    ensures d * a <= d * b
    ensures a < b ==> d * a + d <= d * b
  {
    if a < b {
      MulMonotone(d, a, b - 1);
      assert d * b == d * (b - 1) + d;
    }
  }

  // ---------- fixed-delta time ----------

  /** Neither the 64-bit accumulator nor the 32-bit step count is exceeded. */
  predicate InBounds(p: Policy, acc: uint64, elapsed: uint64)
    requires p.fixedDeltaNs > 0
  {
    var sum := acc + Observed(p, elapsed);
    sum < TWO_TO_THE_64 && sum / p.fixedDeltaNs < TWO_TO_THE_32
  }

  /** The time a frame lends itself: with nothing to do it still runs one step. */
  function Lent(p: Policy, acc: uint64, elapsed: uint64): nat
    requires p.fixedDeltaNs > 0
  {
    if Quotient(p, acc, elapsed) == 0 then p.fixedDeltaNs else 0
  }

  /** The steps run and dropped together are the clamped quotient. */
  lemma StepsAddUp(p: Policy, acc: uint64, elapsed: uint64)
    requires p.fixedDeltaNs > 0 && FixedTiming(p, acc, elapsed).Timing?
    ensures var t := FixedTiming(p, acc, elapsed); t.steps + t.dropped == Clamp(Quotient(p, acc, elapsed))
  {
  }

  lemma AccumulatorStaysBelowDelta(p: Policy, acc: uint64, elapsed: uint64)
    requires p.fixedDeltaNs > 0 && FixedTiming(p, acc, elapsed).Timing?
    ensures AccumulatorAfter(p, acc, elapsed) < p.fixedDeltaNs
    ensures AccumulatorAfter(p, acc, elapsed) == Accumulate(p, acc, elapsed) % p.fixedDeltaNs
  {
    DivMod(Accumulate(p, acc, elapsed), p.fixedDeltaNs);
    if Accumulate(p, acc, elapsed) < p.fixedDeltaNs {
      assert Accumulate(p, acc, elapsed) / p.fixedDeltaNs == 0;
    }
  }

  /** One successful frame: update time plus what stays accumulated is at most what came in,
      and equals it exactly when the frame is in bounds. */
  lemma FrameConservesTime(p: Policy, acc: uint64, elapsed: uint64)
    requires p.fixedDeltaNs > 0 && FixedTiming(p, acc, elapsed).Timing?
    ensures var t, d := FixedTiming(p, acc, elapsed), p.fixedDeltaNs;
            var used, got := d * (t.steps + t.dropped) + AccumulatorAfter(p, acc, elapsed),
                             acc + Observed(p, elapsed) + Lent(p, acc, elapsed);
            used <= got && (used == got <==> InBounds(p, acc, elapsed))
  {
    var d, sum, q := p.fixedDeltaNs, Accumulate(p, acc, elapsed), Quotient(p, acc, elapsed);
    StepsAddUp(p, acc, elapsed);
    AccumulatorStaysBelowDelta(p, acc, elapsed);
    DivMod(sum, d);
    ClampLoses(d, q);
    SumWraps(p, acc, elapsed);
  }

  lemma ClampLoses(d: nat, q: nat)
    requires d > 0
    ensures d * Clamp(q) <= d * q + if q == 0 then d else 0
    ensures d * Clamp(q) == d * q + (if q == 0 then d else 0) <==> q < TWO_TO_THE_32
  {
    if q >= TWO_TO_THE_32 {
      MulMonotone(d, Clamp(q), q);
    } else if q == 0 {
      assert d * 1 == d;
    }
  }

  lemma SumWraps(p: Policy, acc: uint64, elapsed: uint64)
    ensures var sum := acc + Observed(p, elapsed);
            Accumulate(p, acc, elapsed) == if sum < TWO_TO_THE_64 then sum else sum - TWO_TO_THE_64
  {
  }

  // ---------- whole runs ----------

  datatype Totals = Totals(steps: nat, dropped: nat, observed: nat, lent: nat, acc: uint64)

  ghost predicate AllSucceed(p: Policy, acc: uint64, frames: seq<uint64>)
    requires p.fixedDeltaNs > 0
  {
    frames == []
    || (AllSucceed(p, acc, frames[..|frames| - 1])
        && FixedTiming(p, EndOf(p, acc, frames[..|frames| - 1]), frames[|frames| - 1]).Timing?)
  }

  ghost predicate AllInBounds(p: Policy, acc: uint64, frames: seq<uint64>)
    requires p.fixedDeltaNs > 0
  {
    frames == []
    || (AllInBounds(p, acc, frames[..|frames| - 1])
        && InBounds(p, EndOf(p, acc, frames[..|frames| - 1]), frames[|frames| - 1]))
  }

  /** The accumulator after any run of frames, failed ones included. */
  ghost function EndOf(p: Policy, acc: uint64, frames: seq<uint64>): uint64
    requires p.fixedDeltaNs > 0
  {
    if frames == [] then acc
    else AccumulatorAfter(p, EndOf(p, acc, frames[..|frames| - 1]), frames[|frames| - 1])
  }

  ghost function Sum(p: Policy, acc: uint64, frames: seq<uint64>): Totals
    requires p.fixedDeltaNs > 0 && AllSucceed(p, acc, frames)
    ensures Sum(p, acc, frames).acc == EndOf(p, acc, frames)
  {
    if frames == [] then Totals(0, 0, 0, 0, acc)
    else
      var before, e := Sum(p, acc, frames[..|frames| - 1]), frames[|frames| - 1];
      var t := FixedTiming(p, before.acc, e);
      Totals(before.steps + t.steps, before.dropped + t.dropped, before.observed + Observed(p, e),
             before.lent + Lent(p, before.acc, e), AccumulatorAfter(p, before.acc, e))
  }

  /** Over any run of successful frames time is never gained; and none is lost exactly when every
      frame stays within the widths of the two counters. */
  lemma {:induction false} RunConservesTime(p: Policy, acc: uint64, frames: seq<uint64>)
    requires p.fixedDeltaNs > 0 && AllSucceed(p, acc, frames)
    ensures var s := Sum(p, acc, frames);
            var used, got := p.fixedDeltaNs * (s.steps + s.dropped) + s.acc, acc + s.observed + s.lent;
            used <= got && (used == got <==> AllInBounds(p, acc, frames))
  {
    if frames != [] {
      var before, e := frames[..|frames| - 1], frames[|frames| - 1];
      RunConservesTime(p, acc, before);
      var s, d := Sum(p, acc, before), p.fixedDeltaNs;
      FrameConservesTime(p, s.acc, e);
      var t := FixedTiming(p, s.acc, e);
      assert d * (s.steps + t.steps + (s.dropped + t.dropped)) == d * (s.steps + s.dropped) + d * (t.steps + t.dropped);
    }
  }

  /** A successful fixed-delta frame runs between one and 1 + max_catch_up_steps steps; the one exception is
      bounded catch-up with the largest step budget, whose sum wraps to no step at all. */
  lemma StepCountBounds(p: Policy, acc: uint64, elapsed: uint64)
    requires p.fixedDeltaNs > 0 && FixedTiming(p, acc, elapsed).Timing?
    ensures var t := FixedTiming(p, acc, elapsed);
            && t.steps <= 1 + p.maxCatchUpSteps
            && (t.steps >= 1 <==> !(&& p.overrunMode == CatchUpBounded
                                    && p.maxCatchUpSteps == TWO_TO_THE_32 - 1
                                    && Quotient(p, acc, elapsed) >= 2))
  {
    StepsMeaning(p, acc, elapsed, Quotient(p, acc, elapsed));
  }

  /** The largest step budget, accepted by validation, makes an overrunning frame update nothing. */
  lemma LargestBudgetRunsNoStep()
    ensures var p := Policy(Headless, FixedDelta, CatchUpBounded, 10, TWO_TO_THE_32 - 1, true, []);
            ValidPolicy(p) && FixedTiming(p, 0, 25) == Timing(0, 2, false)
  {
    var p := Policy(Headless, FixedDelta, CatchUpBounded, 10, TWO_TO_THE_32 - 1, true, []);
    assert Accumulate(p, 0, 25) == 25;
    assert Quotient(p, 0, 25) == 2;
  }

  // ---------- fail-fast ----------

  /** A fail-fast frame fails exactly when the (64-bit) accumulator reaches two deltas,
      and otherwise runs one step and drops none. */
  lemma FailFastFailsAtTwoDeltas(p: Policy, acc: uint64, elapsed: uint64)
    requires p.fixedDeltaNs > 0 && p.overrunMode == FailFast
    ensures FixedTiming(p, acc, elapsed).Overrun? <==> Accumulate(p, acc, elapsed) >= 2 * p.fixedDeltaNs
    ensures FixedTiming(p, acc, elapsed).Overrun? ==> AccumulatorAfter(p, acc, elapsed) == Accumulate(p, acc, elapsed)
    ensures !FixedTiming(p, acc, elapsed).Overrun? ==> FixedTiming(p, acc, elapsed) == Timing(1, 0, false)
  {
    DivMod(Accumulate(p, acc, elapsed), p.fixedDeltaNs);
  }

  ghost function TotalObserved(p: Policy, frames: seq<uint64>): nat {
    if frames == [] then 0 else TotalObserved(p, frames[..|frames| - 1]) + Observed(p, frames[|frames| - 1])
  }

  ghost predicate AllFail(p: Policy, acc: uint64, frames: seq<uint64>)
    requires p.fixedDeltaNs > 0
  {
    frames == []
    || (AllFail(p, acc, frames[..|frames| - 1])
        && FixedTiming(p, EndOf(p, acc, frames[..|frames| - 1]), frames[|frames| - 1]).Overrun?)
  }

  /** Two deltas or more remain of the `n` frames' time in 64 bits. */
  ghost predicate OverdueAfter(p: Policy, acc: uint64, frames: seq<uint64>, n: nat)
    requires n <= |frames|
  {
    (acc + TotalObserved(p, frames[..n])) % TWO_TO_THE_64 >= 2 * p.fixedDeltaNs
  }

  lemma SumModulo(a: nat, b: nat)
    ensures (a % TWO_TO_THE_64 + b) % TWO_TO_THE_64 == (a + b) % TWO_TO_THE_64
  {
  }

  lemma OverduePrefix(p: Policy, acc: uint64, frames: seq<uint64>, n: nat)
    requires n < |frames|
    ensures OverdueAfter(p, acc, frames, n) <==> OverdueAfter(p, acc, frames[..|frames| - 1], n)
  {
    assert frames[..n] == frames[..|frames| - 1][..n];
  }

  /** While frames keep failing the accumulator holds all their time, in 64 bits; so the next one fails exactly when
      at least two deltas remain of it. */
  lemma FailFastStep(p: Policy, acc: uint64, frames: seq<uint64>)
    requires p.fixedDeltaNs > 0 && p.overrunMode == FailFast && frames != []
    requires EndOf(p, acc, frames[..|frames| - 1]) == (acc + TotalObserved(p, frames[..|frames| - 1])) % TWO_TO_THE_64
    ensures var last := FixedTiming(p, EndOf(p, acc, frames[..|frames| - 1]), frames[|frames| - 1]);
            && (last.Overrun? <==> OverdueAfter(p, acc, frames, |frames|))
            && (last.Overrun? ==> EndOf(p, acc, frames) == (acc + TotalObserved(p, frames)) % TWO_TO_THE_64)
  {
    var before, e := frames[..|frames| - 1], frames[|frames| - 1];
    SumModulo(acc + TotalObserved(p, before), Observed(p, e));
    FailFastFailsAtTwoDeltas(p, EndOf(p, acc, before), e);
    assert frames[..|frames|] == frames;
  }

  /** All frames of a run fail exactly when, after each of them, at least two deltas remain of the time
      accumulated so far in 64 bits. The failing path never reduces the accumulator, so only its width helps. */
  lemma {:induction false} AllFailExactlyWhen(p: Policy, acc: uint64, frames: seq<uint64>)
    requires p.fixedDeltaNs > 0 && p.overrunMode == FailFast
    ensures AllFail(p, acc, frames) <==> forall n :: 0 < n <= |frames| ==> OverdueAfter(p, acc, frames, n)
    ensures AllFail(p, acc, frames) ==> EndOf(p, acc, frames) == (acc + TotalObserved(p, frames)) % TWO_TO_THE_64
  {
    if frames != [] {
      var before := frames[..|frames| - 1];
      AllFailExactlyWhen(p, acc, before);
      forall n | 0 < n < |frames| ensures OverdueAfter(p, acc, frames, n) <==> OverdueAfter(p, acc, before, n) {
        OverduePrefix(p, acc, frames, n);
      }
      if AllFail(p, acc, before) {
        FailFastStep(p, acc, frames);
      } else {
        var n :| 0 < n <= |before| && !OverdueAfter(p, acc, before, n);
        assert !OverdueAfter(p, acc, frames, n);
      }
    }
  }

  lemma {:induction false} TotalGrows(p: Policy, frames: seq<uint64>, n: nat)
    requires n <= |frames|
    ensures TotalObserved(p, frames[..n]) <= TotalObserved(p, frames)
  {
    if n == |frames| {
      assert frames[..n] == frames;
    } else {
      assert frames[..|frames| - 1][..n] == frames[..n];
      TotalGrows(p, frames[..|frames| - 1], n);
    }
  }

  /** In particular, after an overrun (the accumulator holds at least two deltas) every later frame fails as long
      as the time does not exceed 64 bits. */
  lemma FailFastIsFinal(p: Policy, acc: uint64, frames: seq<uint64>)
    requires p.fixedDeltaNs > 0 && p.overrunMode == FailFast
    requires acc >= 2 * p.fixedDeltaNs && acc + TotalObserved(p, frames) < TWO_TO_THE_64
    ensures AllFail(p, acc, frames) && EndOf(p, acc, frames) == acc + TotalObserved(p, frames)
  {
    forall n | 0 < n <= |frames| ensures OverdueAfter(p, acc, frames, n) {
      StaysOverdue(p, acc, frames, n);
    }
    AllFailExactlyWhen(p, acc, frames);
    NoWrap(acc + TotalObserved(p, frames));
  }

  lemma StaysOverdue(p: Policy, acc: uint64, frames: seq<uint64>, n: nat)
    requires acc >= 2 * p.fixedDeltaNs && acc + TotalObserved(p, frames) < TWO_TO_THE_64 && n <= |frames|
    ensures OverdueAfter(p, acc, frames, n)
  {
    TotalGrows(p, frames, n);
    NoWrap(acc + TotalObserved(p, frames[..n]));
  }

  lemma NoWrap(n: nat)
    requires n < TWO_TO_THE_64
    ensures n % TWO_TO_THE_64 == n
  {
  }

  /** Without that bound the accumulator wraps and the runner recovers. */
  lemma FailFastRecoversByWrapping()
    ensures var p := Policy(Headless, FixedDelta, FailFast, 10, 0, true, []);
            && ValidPolicy(p)
            && FixedTiming(p, 0, TWO_TO_THE_64 - 5).Overrun?
            && FixedTiming(p, AccumulatorAfter(p, 0, TWO_TO_THE_64 - 5), 7) == Timing(1, 0, false)
  {
    var p := Policy(Headless, FixedDelta, FailFast, 10, 0, true, []);
    FailFastFailsAtTwoDeltas(p, 0, TWO_TO_THE_64 - 5);
    assert Accumulate(p, TWO_TO_THE_64 - 5, 7) == 2;
    FailFastFailsAtTwoDeltas(p, TWO_TO_THE_64 - 5, 7);
  }

  // ---------- the trace of a frame ----------

  /** The render stages that are neither disabled nor dropped in this frame. */
  function RenderPart(p: Policy, dropOptional: bool): seq<LoopStage> {
    if dropOptional && OptionalRenderProfile(p.profile) then []
    else Renders(!Disables(p, PreRender), !Disables(p, Render), !Disables(p, PostRender))
  }

  function Renders(pre: bool, render: bool, post: bool): seq<LoopStage> {
    (if pre then [PreRender] else []) + (if render then [Render] else []) + if post then [PostRender] else []
  }

  lemma {:induction false} DisabledStagesMeaning(names: seq<string>, stage: LoopStage)
    ensures stage in DisabledStages(names) <==> StageName(stage) in names
  {
    if names != [] {
      var name := names[|names| - 1];
      DisabledStagesMeaning(names[..|names| - 1], stage);
      assert names == names[..|names| - 1] + [name];
      ParseInvertsName(name, stage);
    }
  }

  lemma {:induction false} KeepEnabledAppend(a: seq<LoopStage>, b: seq<LoopStage>, disabled: set<LoopStage>)
    ensures KeepEnabled(a + b, disabled) == KeepEnabled(a, disabled) + KeepEnabled(b, disabled)
  {
    if b == [] {
      assert a + b == a;
    } else {
      SnocAppend(a, b);
      KeepEnabledAppend(a, b[..|b| - 1], disabled);
    }
  }

  lemma SnocAppend(a: seq<LoopStage>, b: seq<LoopStage>)
    requires b != []
    ensures (a + b)[..|a + b| - 1] == a + b[..|b| - 1] && (a + b)[|a + b| - 1] == b[|b| - 1]
  {
  }

  lemma {:induction false} TraceAppend(f: FrameKind, a: seq<LoopStage>, b: seq<LoopStage>)
    ensures TraceOf(f, a + b) == TraceOf(f, a) + TraceOf(f, b)
  {
    if b == [] {
      assert a + b == a;
    } else {
      SnocAppend(a, b);
      TraceAppend(f, a, b[..|b| - 1]);
    }
  }

  const HEAD: seq<LoopStage> := [BeginFrame, ProcessPlatformEvents, NormalizeInput, DispatchImmediateEvents]
  const UPDATES: seq<LoopStage> := [PreUpdate, Update, PostUpdate]
  const RENDERS: seq<LoopStage> := [PreRender, Render, PostRender]

  lemma KeepOne(stage: LoopStage, disabled: set<LoopStage>)
    ensures KeepEnabled([stage], disabled) == if stage in disabled then [] else [stage]
  {
    assert [stage][..0] == [];
  }

  lemma KeepAll(stages: seq<LoopStage>, disabled: set<LoopStage>)
    requires forall s :: s in stages ==> s !in disabled
    ensures KeepEnabled(stages, disabled) == stages
  {
    if stages != [] {
      KeepAll(stages[..|stages| - 1], disabled);
      assert stages == stages[..|stages| - 1] + [stages[|stages| - 1]];
    }
  }

  /** The active render stages of a policy. */
  function ActiveRenders(p: Policy): seq<LoopStage> {
    RenderPart(p, false)
  }

  lemma RendersKept(p: Policy, disabled: set<LoopStage>)
    requires disabled == DisabledStages(p.disabledOptionalStages)
    ensures KeepEnabled(RENDERS, disabled) == ActiveRenders(p)
  {
    DisabledStagesMeaning(p.disabledOptionalStages, PreRender);
    DisabledStagesMeaning(p.disabledOptionalStages, Render);
    DisabledStagesMeaning(p.disabledOptionalStages, PostRender);
    KeepOne(PreRender, disabled);
    KeepOne(Render, disabled);
    KeepOne(PostRender, disabled);
    KeepEnabledAppend([PreRender], [Render], disabled);
    KeepEnabledAppend([PreRender, Render], [PostRender], disabled);
    assert RENDERS == [PreRender, Render] + [PostRender] && [PreRender, Render] == [PreRender] + [Render];
  }

  const FRONT: seq<LoopStage> := HEAD + UPDATES + [DispatchDeferredEvents]

  lemma BaselineParts()
    ensures BASELINE == FRONT + RENDERS + [EndFrame]
  {
  }

  lemma RequiredStagesKept(p: Policy, stages: seq<LoopStage>)
    requires ValidPolicy(p) && forall s :: s in stages ==> !IsRenderStage(s)
    ensures KeepEnabled(stages, DisabledStages(p.disabledOptionalStages)) == stages
  {
    var disabled := DisabledStages(p.disabledOptionalStages);
    forall s | s in stages ensures s !in disabled {
      DisabledStagesMeaning(p.disabledOptionalStages, s);
      ValidPoliciesKeepRequiredStages(p, s);
    }
    KeepAll(stages, disabled);
  }

  /** For every accepted policy the active stages are the baseline with nothing but render stages missing. */
  lemma ActiveStagesOfValidPolicy(p: Policy)
    requires ValidPolicy(p)
    ensures KeepEnabled(BASELINE, DisabledStages(p.disabledOptionalStages)) == FRONT + ActiveRenders(p) + [EndFrame]
  {
    var disabled := DisabledStages(p.disabledOptionalStages);
    RequiredStagesKept(p, FRONT);
    RendersKept(p, disabled);
    RequiredStagesKept(p, [EndFrame]);
    KeepEnabledAppend(FRONT, RENDERS, disabled);
    KeepEnabledAppend(FRONT + RENDERS, [EndFrame], disabled);
    BaselineParts();
  }

  lemma TraceOne(f: FrameKind, stage: LoopStage)
    ensures TraceOf(f, [stage]) == StageRuns(f, stage)
  {
    assert [stage][..0] == [];
  }

  lemma TracePlain(f: FrameKind, stages: seq<LoopStage>)
    requires forall s :: s in stages ==> StageRuns(f, s) == [s]
    ensures TraceOf(f, stages) == stages
  {
    if stages != [] {
      TracePlain(f, stages[..|stages| - 1]);
      assert stages == stages[..|stages| - 1] + [stages[|stages| - 1]];
    }
  }

  lemma TraceSkipped(f: FrameKind, stages: seq<LoopStage>)
    requires forall s :: s in stages ==> StageRuns(f, s) == []
    ensures TraceOf(f, stages) == []
  {
  }

  lemma TraceUpdates(f: FrameKind)
    ensures TraceOf(f, UPDATES) == Repeat(Triple(f), f.steps)
  {
    TraceOne(f, PreUpdate);
    TraceOne(f, Update);
    TraceOne(f, PostUpdate);
    TraceAppend(f, [PreUpdate], [Update]);
    TraceAppend(f, [PreUpdate, Update], [PostUpdate]);
    assert UPDATES == [PreUpdate, Update] + [PostUpdate] && [PreUpdate, Update] == [PreUpdate] + [Update];
  }

  lemma TraceRenders(p: Policy, f: FrameKind)
    requires f.profile == p.profile
    ensures TraceOf(f, ActiveRenders(p)) == RenderPart(p, f.dropOptional)
  {
    forall s | s in ActiveRenders(p) ensures IsRenderStage(s) {
    }
    if f.dropOptional && OptionalRenderProfile(p.profile) {
      TraceSkipped(f, ActiveRenders(p));
    } else {
      TracePlain(f, ActiveRenders(p));
    }
  }

  lemma TraceFront(f: FrameKind)
    ensures TraceOf(f, FRONT) == HEAD + Repeat(Triple(f), f.steps) + [DispatchDeferredEvents]
  {
    TraceHead(f);
    TraceUpdates(f);
    TraceOne(f, DispatchDeferredEvents);
    TraceThree(f, HEAD, UPDATES, [DispatchDeferredEvents]);
  }

  lemma TraceHead(f: FrameKind)
    ensures TraceOf(f, HEAD) == HEAD
  {
    TracePlain(f, HEAD);
  }

  lemma TraceThree(f: FrameKind, a: seq<LoopStage>, b: seq<LoopStage>, c: seq<LoopStage>)
    ensures TraceOf(f, a + b + c) == TraceOf(f, a) + TraceOf(f, b) + TraceOf(f, c)
  {
    TraceAppend(f, a, b);
    TraceAppend(f, a + b, c);
  }

  lemma TraceOfActive(p: Policy, f: FrameKind)
    requires f.profile == p.profile
    ensures TraceOf(f, FRONT + ActiveRenders(p) + [EndFrame])
         == HEAD + Repeat(Triple(f), f.steps) + [DispatchDeferredEvents] + RenderPart(p, f.dropOptional) + [EndFrame]
  {
    TraceFront(f);
    TraceRenders(p, f);
    TraceOne(f, EndFrame);
    TraceThree(f, FRONT, ActiveRenders(p), [EndFrame]);
  }

  lemma FrontHasUpdates(rest: seq<LoopStage>)
    ensures Update in FRONT + rest && PostUpdate in FRONT + rest
  {
    assert (FRONT + rest)[5] == Update && (FRONT + rest)[6] == PostUpdate;
  }

  lemma TraceOfKind(p: Policy, active: seq<LoopStage>, steps: nat, dropOptional: bool)
    requires active == FRONT + (ActiveRenders(p) + [EndFrame])
    ensures TraceOf(KindOf(p, active, steps, dropOptional), active)
         == HEAD + Repeat(UPDATES, steps) + [DispatchDeferredEvents] + RenderPart(p, dropOptional) + [EndFrame]
  {
    var f := KindOf(p, active, steps, dropOptional);
    FrontHasUpdates(ActiveRenders(p) + [EndFrame]);
    TripleIsUpdates(f);
    assert active == FRONT + ActiveRenders(p) + [EndFrame];
    TraceOfActive(p, f);
  }

  lemma TripleIsUpdates(f: FrameKind)
    requires f.hasUpdate && f.hasPostUpdate
    ensures Triple(f) == UPDATES
  {
  }

  /** For every accepted policy and every elapsed time, the frame runs the stages before the updates once,
      the triple PreUpdate, Update, PostUpdate once per update step, the deferred events, the render stages
      that are enabled and not dropped, and EndFrame; in this order. */
  lemma FrameTraceOfValidPolicy(p: Policy, acc: uint64, elapsed: uint64)
    requires ValidPolicy(p) && FrameTiming(p, acc, elapsed).Timing?
    ensures var t := FrameTiming(p, acc, elapsed);
            FrameTrace(p, KeepEnabled(BASELINE, DisabledStages(p.disabledOptionalStages)), acc, elapsed)
            == HEAD + Repeat(UPDATES, t.steps) + [DispatchDeferredEvents] + RenderPart(p, t.dropOptional) + [EndFrame]
  {
    var t := FrameTiming(p, acc, elapsed);
    ActiveStagesOfValidPolicy(p);
    assert FRONT + ActiveRenders(p) + [EndFrame] == FRONT + (ActiveRenders(p) + [EndFrame]);
    TraceOfKind(p, FRONT + (ActiveRenders(p) + [EndFrame]), t.steps, t.dropOptional);
  }

  /** Where Render runs, PreRender runs right before and PostRender right after it. */
  ghost predicate RenderIsWrapped(trace: seq<LoopStage>) {
    forall i :: 0 <= i < |trace| && trace[i] == Render ==>
      i > 0 && trace[i - 1] == PreRender && i + 1 < |trace| && trace[i + 1] == PostRender
  }

  function TraceOfFrame(p: Policy, acc: uint64, elapsed: uint64): seq<LoopStage>
    requires FrameTiming(p, acc, elapsed).Timing?
  {
    FrameTrace(p, KeepEnabled(BASELINE, DisabledStages(p.disabledOptionalStages)), acc, elapsed)
  }

  /** The frame overruns in the mode that drops optional stages, under a profile that has some. */
  predicate DropsRender(p: Policy, acc: uint64, elapsed: uint64) {
    && p.timingMode == FixedDelta && p.overrunMode == DropNonCritical
    && p.fixedDeltaNs > 0 && Quotient(p, acc, elapsed) >= 2
    && OptionalRenderProfile(p.profile)
  }

  lemma {:induction false} RepeatHasNoRender(n: nat)
    ensures forall s :: s in Repeat(UPDATES, n) ==> !IsRenderStage(s)
  {
    if n > 0 {
      RepeatHasNoRender(n - 1);
    }
  }

  lemma RenderAt(front: seq<LoopStage>, pre: bool, render: bool, post: bool, i: nat)
    requires forall s :: s in front ==> !IsRenderStage(s)
    requires i <= |front| + |Renders(pre, render, post)|
    requires (front + Renders(pre, render, post) + [EndFrame])[i] == Render
    ensures render && i == |front| + if pre then 1 else 0
  {
    assert forall j :: 0 <= j < |front| ==> front[j] in front;
  }

  lemma WrappedBetween(front: seq<LoopStage>, pre: bool, render: bool, post: bool)
    requires forall s :: s in front ==> !IsRenderStage(s)
    ensures RenderIsWrapped(front + Renders(pre, render, post) + [EndFrame]) <==> (render ==> pre && post)
  {
    var renders := Renders(pre, render, post);
    var trace, n := front + renders + [EndFrame], |front|;
    var k := n + if pre then 1 else 0;
    assert forall i :: 0 <= i < n ==> trace[i] == front[i] && front[i] in front;
    assert forall i :: n <= i < n + |renders| ==> trace[i] == renders[i - n];
    assert trace[n + |renders|] == EndFrame;
    if render {
      assert trace[k] == Render && trace[k + 1] == if post then PostRender else EndFrame;
      assert k > 0 ==> (trace[k - 1] == PreRender <==> pre);
    }
    forall i | 0 <= i < |trace| && trace[i] == Render ensures render && i == k {
      RenderAt(front, pre, render, post, i);
    }
  }

  lemma DropMeaning(p: Policy, acc: uint64, elapsed: uint64)
    requires FrameTiming(p, acc, elapsed).Timing?
    ensures FrameTiming(p, acc, elapsed).dropOptional && OptionalRenderProfile(p.profile)
       <==> DropsRender(p, acc, elapsed)
  {
  }

  /** docs/loop-stage-graph-profiles.md promises that wrapping whenever rendering is enabled. The code keeps it, for
      any accumulator and elapsed time, exactly when the frame drops its render stages, the policy disables Render,
      or it leaves both neighbours of Render enabled. */
  lemma RenderIsWrappedExactlyWhen(p: Policy, acc: uint64, elapsed: uint64)
    requires ValidPolicy(p) && FrameTiming(p, acc, elapsed).Timing?
    ensures RenderIsWrapped(TraceOfFrame(p, acc, elapsed)) <==>
              || DropsRender(p, acc, elapsed)
              || Disables(p, Render)
              || (!Disables(p, PreRender) && !Disables(p, PostRender))
  {
    var t := FrameTiming(p, acc, elapsed);
    FrameTraceOfValidPolicy(p, acc, elapsed);
    DropMeaning(p, acc, elapsed);
    WrappedInFrame(p, t.steps, t.dropOptional);
  }

  lemma WrappedInFrame(p: Policy, steps: nat, dropOptional: bool)
    ensures RenderIsWrapped(HEAD + Repeat(UPDATES, steps) + [DispatchDeferredEvents]
                            + RenderPart(p, dropOptional) + [EndFrame])
       <==> || (dropOptional && OptionalRenderProfile(p.profile))
            || Disables(p, Render)
            || (!Disables(p, PreRender) && !Disables(p, PostRender))
  {
    var front := HEAD + Repeat(UPDATES, steps) + [DispatchDeferredEvents];
    FrontHasNoRender(steps);
    if dropOptional && OptionalRenderProfile(p.profile) {
      assert RenderPart(p, dropOptional) == Renders(false, false, false);
      WrappedBetween(front, false, false, false);
    } else {
      WrappedBetween(front, !Disables(p, PreRender), !Disables(p, Render), !Disables(p, PostRender));
    }
  }

  lemma FrontHasNoRender(steps: nat)
    ensures forall s :: s in HEAD + Repeat(UPDATES, steps) + [DispatchDeferredEvents] ==> !IsRenderStage(s)
  {
    RepeatHasNoRender(steps);
  }

  /** A policy that validation accepts with rendering enabled, and that runs Render unwrapped in every frame. */
  lemma RenderMayRunUnwrapped(p: Policy, acc: uint64, elapsed: uint64)
    requires p == Policy(Headless, VariableDelta, Slip, 1, 0, true, [StageName(PreRender)])
    ensures ValidPolicy(p) && p.renderingEnabled
    ensures FrameTiming(p, acc, elapsed).Timing? && !RenderIsWrapped(TraceOfFrame(p, acc, elapsed))
  {
    OnlyPreRender(p);
    PreRenderMayBeDisabled(p);
    RenderIsWrappedExactlyWhen(p, acc, elapsed);
  }

  lemma PreRenderMayBeDisabled(p: Policy)
    requires p.profile == Headless && p.disabledOptionalStages == [StageName(PreRender)]
    ensures MayDisable(p.profile, p.disabledOptionalStages)
  {
    MayDisableMeaning(Headless, p.disabledOptionalStages);
  }

  lemma OnlyPreRender(p: Policy)
    requires p.disabledOptionalStages == [StageName(PreRender)]
    ensures Disables(p, PreRender) && !Disables(p, Render)
  {
    assert p.disabledOptionalStages[0] == StageName(PreRender);
    if Disables(p, Render) {
      NamesAreDistinct(Render, PreRender);
    }
  }

  /** The update triple comes exactly `n` times, stage by stage. */
  lemma {:induction false} RepeatedUpdates(n: nat)
    ensures |Repeat(UPDATES, n)| == 3 * n
    ensures forall i :: 0 <= i < n ==>
              && Repeat(UPDATES, n)[3 * i] == PreUpdate
              && Repeat(UPDATES, n)[3 * i + 1] == Update
              && Repeat(UPDATES, n)[3 * i + 2] == PostUpdate
  {
    if n > 0 {
      RepeatedUpdates(n - 1);
    }
  }

  /** A stage is active under an accepted policy exactly if its name is not disabled. */
  lemma StageIsActiveExactlyWhen(p: Policy, stage: LoopStage)
    requires ValidPolicy(p)
    ensures stage in KeepEnabled(BASELINE, DisabledStages(p.disabledOptionalStages))
       <==> StageName(stage) !in p.disabledOptionalStages
  {
    DisabledStagesMeaning(p.disabledOptionalStages, stage);
    KeepEnabledMembers(BASELINE, DisabledStages(p.disabledOptionalStages), stage);
    assert BASELINE[Position(stage)] == stage;
  }

  lemma {:induction false} KeepEnabledMembers(stages: seq<LoopStage>, disabled: set<LoopStage>, stage: LoopStage)
    ensures stage in KeepEnabled(stages, disabled) <==> stage in stages && stage !in disabled
  {
    if stages != [] {
      KeepEnabledMembers(stages[..|stages| - 1], disabled, stage);
      assert stages == stages[..|stages| - 1] + [stages[|stages| - 1]];
    }
  }

  /** A render stage runs in a frame exactly if it is not disabled, and the frame does not overrun in drop mode
      under a profile for which rendering is optional. */
  lemma RenderStageRunsExactlyWhen(p: Policy, acc: uint64, elapsed: uint64, stage: LoopStage)
    requires ValidPolicy(p) && FrameTiming(p, acc, elapsed).Timing?
    requires stage == PreRender || stage == Render || stage == PostRender
    ensures stage in TraceOfFrame(p, acc, elapsed) <==>
              && StageName(stage) !in p.disabledOptionalStages
              && !(&& p.timingMode == FixedDelta && p.overrunMode == DropNonCritical && p.fixedDeltaNs > 0
                   && (acc + if elapsed == 0 then p.fixedDeltaNs else elapsed) % TWO_TO_THE_64 / p.fixedDeltaNs >= 2
                   && (p.profile == Headless || p.profile == DeterministicHost))
  {
    var t := FrameTiming(p, acc, elapsed);
    FrameTraceOfValidPolicy(p, acc, elapsed);
    FrontHasNoRender(t.steps);
    if p.fixedDeltaNs > 0 {
      FixedTimingMeaning(p, acc, elapsed);
    }
    var front := HEAD + Repeat(UPDATES, t.steps) + [DispatchDeferredEvents];
    InMiddle(front, RenderPart(p, t.dropOptional), [EndFrame], stage);
    RenderPartMembers(p, t.dropOptional, stage);
  }

  lemma InMiddle(a: seq<LoopStage>, b: seq<LoopStage>, c: seq<LoopStage>, stage: LoopStage)
    requires stage !in a && stage !in c
    ensures stage in a + b + c <==> stage in b
  {
  }

  lemma RenderPartMembers(p: Policy, dropOptional: bool, stage: LoopStage)
    requires stage == PreRender || stage == Render || stage == PostRender
    ensures stage in RenderPart(p, dropOptional) <==>
              && StageName(stage) !in p.disabledOptionalStages
              && !(dropOptional && (p.profile == Headless || p.profile == DeterministicHost))
  {
  }
}
