/** Fault dispositions and their budgets (src/fault_policy_runtime.cpp). */
module FaultPolicy {
  import opened LoopPolicy

  datatype FaultClass = BootstrapFault | ModuleFault | EventFault | RenderFault | TimingFault | ShutdownFault

  datatype Limits = Limits(moduleOptional: uint32, eventNoncritical: uint32, renderIsolation: uint32,
                           timingOverrun: uint32, shutdownNonfatal: uint32)

  const DEFAULT_LIMITS := Limits(1, 3, 2, 3, 1)

  datatype Context = Context(faultClass: FaultClass, invariantBreach: bool, contractViolation: bool,
                             requiredModule: bool, fatalShutdownViolation: bool)

  datatype Decision = Decision(degrade: bool, escalated: bool, consumedBudget: bool, observedCount: uint32)

  function Index(c: FaultClass): (i: nat)
    ensures i < 6
  {
    match c
    case BootstrapFault => 0
    case ModuleFault => 1
    case EventFault => 2
    case RenderFault => 3
    case TimingFault => 4
    case ShutdownFault => 5
  }

  /** The matrix of docs/error-policy-matrix.md: which faults may be degraded at all. */
  predicate Degradable(p: Policy, c: Context) {
    && !c.invariantBreach
    && p.profile != DeterministicHost
    && match c.faultClass
       case BootstrapFault => false
       case ModuleFault => !c.requiredModule && !c.contractViolation
       case EventFault => !c.contractViolation
       case RenderFault => p.renderingEnabled && !c.contractViolation
       case TimingFault => p.overrunMode != FailFast && !c.contractViolation
       case ShutdownFault => !c.fatalShutdownViolation && !c.contractViolation
  }

  function LimitOf(l: Limits, c: FaultClass): uint32 {
    match c
    case BootstrapFault => 0
    case ModuleFault => l.moduleOptional
    case EventFault => l.eventNoncritical
    case RenderFault => l.renderIsolation
    case TimingFault => l.timingOverrun
    case ShutdownFault => l.shutdownNonfatal
  }

  /** The decision on the fault that its class's 32-bit counter shows as number `observed`. */
  function Decide(p: Policy, l: Limits, c: Context, observed: uint32): Decision {
    if !Degradable(p, c) then Decision(false, false, false, observed)
    else
      var within := LimitOf(l, c.faultClass) != 0 && observed <= LimitOf(l, c.faultClass);
      Decision(within, !within, within, observed)
  }

  class FaultPolicyRuntime {
    var policy: Policy
    var limits: Limits
    var counters: seq<uint32>
    var configured: bool

    ghost predicate Valid()
      reads this
    {
      |counters| == 6
    }

    constructor ()
      ensures Valid() && !configured && limits == Limits(1, 3, 2, 3, 1)
    {
      policy, limits := Policy(Gui, VariableDelta, Slip, 16666667, 0, true, []), DEFAULT_LIMITS;
      counters, configured := [0, 0, 0, 0, 0, 0], false;
    }

    /** src/fault_policy_runtime.cpp:47-62 */
    method Configure(p: Policy, l: Limits) returns (ok: bool)
      requires Valid()
      modifies this
      ensures Valid() && configured == ok
      ensures ok <==> ValidPolicy(p)
      ensures ok ==> policy == p && limits == l && counters == [0, 0, 0, 0, 0, 0]
      ensures !ok ==> policy == old(policy) && limits == old(limits) && counters == old(counters)
    {
      if !ValidPolicy(p) {
        configured := false;
        return false;
      }
      policy, limits, counters, configured := p, l, [0, 0, 0, 0, 0, 0], true;
      ok := true;
    }

    /** src/fault_policy_runtime.cpp:144-147 */
    method Reset()
      requires Valid()
      modifies this`counters
      ensures Valid() && counters == [0, 0, 0, 0, 0, 0]
    {
      counters := [0, 0, 0, 0, 0, 0];
    }

    /** src/fault_policy_runtime.cpp:173-181 */
    method IncrementAndGet(c: FaultClass) returns (observed: uint32)
      requires Valid()
      modifies this`counters
      ensures Valid()
      ensures observed == (old(counters)[Index(c)] + 1) % TWO_TO_THE_32
      ensures counters == old(counters)[Index(c) := observed]
    {
      observed := (counters[Index(c)] + 1) % TWO_TO_THE_32;
      counters := counters[Index(c) := observed];
    }

    /** src/fault_policy_runtime.cpp:197-216 */
    method DegradeWithLimit(c: FaultClass, limit: uint32) returns (d: Decision)
      requires Valid()
      modifies this`counters
      ensures Valid()
      ensures d.observedCount == (old(counters)[Index(c)] + 1) % TWO_TO_THE_32
      ensures counters == old(counters)[Index(c) := d.observedCount]
      ensures d.degrade == d.consumedBudget == !d.escalated
      ensures d.degrade <==> limit != 0 && d.observedCount <= limit
    {
      var observed := IncrementAndGet(c);
      if limit == 0 || observed > limit {
        return Decision(false, true, false, observed);
      }
      d := Decision(true, false, true, observed);
    }

    method FailFastFault(c: FaultClass) returns (d: Decision)
      requires Valid()
      modifies this`counters
      ensures Valid()
      ensures d == Decision(false, false, false, (old(counters)[Index(c)] + 1) % TWO_TO_THE_32)
      ensures counters == old(counters)[Index(c) := d.observedCount]
    {
      var observed := IncrementAndGet(c);
      d := Decision(false, false, false, observed);
    }

    /** src/fault_policy_runtime.cpp:64-142 */
    method Evaluate(c: Context) returns (d: Decision)
      requires Valid()
      modifies this`counters
      ensures Valid()
      ensures !configured ==> d == Decision(false, false, false, 0) && counters == old(counters)
      ensures configured ==>
                && d == Decide(policy, limits, c, (old(counters)[Index(c.faultClass)] + 1) % TWO_TO_THE_32)
                && counters == old(counters)[Index(c.faultClass) := d.observedCount]
    {
      if !configured {
        return Decision(false, false, false, 0);
      }
      if c.invariantBreach || policy.profile == DeterministicHost {
        d := FailFastFault(c.faultClass);
        return;
      }
      match c.faultClass {
        case BootstrapFault =>
          d := FailFastFault(BootstrapFault);
        case ModuleFault =>
          if c.requiredModule || c.contractViolation {
            d := FailFastFault(ModuleFault);
          } else {
            d := DegradeWithLimit(ModuleFault, limits.moduleOptional);
          }
        case EventFault =>
          if c.contractViolation {
            d := FailFastFault(EventFault);
          } else {
            d := DegradeWithLimit(EventFault, limits.eventNoncritical);
          }
        case RenderFault =>
          if !policy.renderingEnabled || c.contractViolation {
            d := FailFastFault(RenderFault);
          } else {
            d := DegradeWithLimit(RenderFault, limits.renderIsolation);
          }
        case TimingFault =>
          if policy.overrunMode == FailFast || c.contractViolation {
            d := FailFastFault(TimingFault);
          } else {
            d := DegradeWithLimit(TimingFault, limits.timingOverrun);
          }
        case ShutdownFault =>
          if c.fatalShutdownViolation || c.contractViolation {
            d := FailFastFault(ShutdownFault);
          } else {
            d := DegradeWithLimit(ShutdownFault, limits.shutdownNonfatal);
          }
      }
    }
  }

  // ---------- budgets over whole runs ----------

  /** How many of the faults are of class `c`. */
  function FaultsOf(faults: seq<Context>, c: FaultClass): nat {
    if faults == [] then 0
    else FaultsOf(faults[..|faults| - 1], c) + if faults[|faults| - 1].faultClass == c then 1 else 0
  }

  /** The counters after evaluating `faults` from a reset. */
  ghost function CountersAfter(faults: seq<Context>): (counters: seq<uint32>)
    ensures |counters| == 6
  {
    if faults == [] then [0, 0, 0, 0, 0, 0]
    else
      var before, i := CountersAfter(faults[..|faults| - 1]), Index(faults[|faults| - 1].faultClass);
      before[i := (before[i] + 1) % TWO_TO_THE_32]
  }

  /** The decision on the last of `faults`. */
  ghost function LastDecision(p: Policy, l: Limits, faults: seq<Context>): Decision
    requires faults != []
  {
    var c := faults[|faults| - 1];
    Decide(p, l, c, CountersAfter(faults)[Index(c.faultClass)])
  }

  /** How many faults of class `c` were degraded. */
  ghost function Degraded(p: Policy, l: Limits, faults: seq<Context>, c: FaultClass): nat {
    if faults == [] then 0
    else Degraded(p, l, faults[..|faults| - 1], c)
         + if faults[|faults| - 1].faultClass == c && LastDecision(p, l, faults).degrade then 1 else 0
  }

  lemma IndexIsInjective(c: FaultClass, d: FaultClass)
    ensures Index(c) == Index(d) <==> c == d
  {
  }

  lemma NextModulo(n: nat)
    ensures (n % TWO_TO_THE_32 + 1) % TWO_TO_THE_32 == (n + 1) % TWO_TO_THE_32
  {
  }

  lemma {:induction false} CounterIsCountModulo(faults: seq<Context>, c: FaultClass)
    ensures CountersAfter(faults)[Index(c)] == FaultsOf(faults, c) % TWO_TO_THE_32
  {
    if faults != [] {
      var before, d := faults[..|faults| - 1], faults[|faults| - 1].faultClass;
      CounterIsCountModulo(before, c);
      IndexIsInjective(c, d);
      NextModulo(FaultsOf(before, c));
    }
  }

  /** Of the faults of a class, up to the width of its counter, at most the limit is degraded. */
  lemma {:induction false} DegradeBudget(p: Policy, l: Limits, faults: seq<Context>, c: FaultClass)
    requires FaultsOf(faults, c) < TWO_TO_THE_32
    ensures Degraded(p, l, faults, c) <= LimitOf(l, c)
    ensures Degraded(p, l, faults, c) <= FaultsOf(faults, c)
  {
    if faults != [] {
      DegradeBudget(p, l, faults[..|faults| - 1], c);
      CounterIsCountModulo(faults, c);
    }
  }

  lemma {:induction false} FaultsGrow(faults: seq<Context>, n: nat, c: FaultClass)
    requires n <= |faults|
    ensures FaultsOf(faults[..n], c) <= FaultsOf(faults, c)
  {
    if n == |faults| {
      assert faults[..n] == faults;
    } else {
      assert faults[..|faults| - 1][..n] == faults[..n];
      FaultsGrow(faults[..|faults| - 1], n, c);
    }
  }

  /** The number under which a fault is decided. */
  lemma LastObserved(p: Policy, l: Limits, faults: seq<Context>)
    requires faults != [] && FaultsOf(faults, faults[|faults| - 1].faultClass) < TWO_TO_THE_32
    ensures var c := faults[|faults| - 1];
            LastDecision(p, l, faults) == Decide(p, l, c, FaultsOf(faults, c.faultClass))
  {
    CounterIsCountModulo(faults, faults[|faults| - 1].faultClass);
    SmallModulo(FaultsOf(faults, faults[|faults| - 1].faultClass));
  }

  lemma SmallModulo(n: nat)
    requires n < TWO_TO_THE_32
    ensures n % TWO_TO_THE_32 == n
  {
  }

  /** Once the budget of a class is used up it stays used up: after an escalation no later fault of the class
      is degraded, until the counters are reset (or wrap). */
  lemma EscalationIsFinal(p: Policy, l: Limits, faults: seq<Context>, n: nat)
    requires 0 < n <= |faults|
    requires var c := faults[|faults| - 1].faultClass;
             && faults[n - 1].faultClass == c && FaultsOf(faults, c) < TWO_TO_THE_32
    requires LastDecision(p, l, faults[..n]).escalated
    ensures !LastDecision(p, l, faults).degrade
  {
    var c := faults[|faults| - 1].faultClass;
    FaultsGrow(faults, n, c);
    LastObserved(p, l, faults);
    LastObserved(p, l, faults[..n]);
  }

  /** A fault is degraded exactly when the matrix permits it and its number, in 32 bits, is within a non-zero limit. */
  lemma DegradedExactlyWhen(p: Policy, l: Limits, faults: seq<Context>)
    requires faults != []
    ensures var c := faults[|faults| - 1];
            LastDecision(p, l, faults).degrade <==>
              && Degradable(p, c) && LimitOf(l, c.faultClass) != 0
              && FaultsOf(faults, c.faultClass) % TWO_TO_THE_32 <= LimitOf(l, c.faultClass)
  {
    CounterIsCountModulo(faults, faults[|faults| - 1].faultClass);
  }

  /** When the 32-bit counter wraps, the budget opens again: fault number 2^32 of a class is degraded. */
  lemma WrapReopensBudget(p: Policy, l: Limits, faults: seq<Context>)
    requires faults != [] && Degradable(p, faults[|faults| - 1])
    requires FaultsOf(faults, faults[|faults| - 1].faultClass) == TWO_TO_THE_32
    ensures LastDecision(p, l, faults).degrade <==> LimitOf(l, faults[|faults| - 1].faultClass) != 0
  {
    DegradedExactlyWhen(p, l, faults);
  }

  /** The disposition matrix, row by row: what is degraded as long as the budget of its class lasts. */
  lemma DispositionMatrix(p: Policy, l: Limits, c: Context, observed: uint32)
    ensures var d := Decide(p, l, c, observed);
            var limit := match c.faultClass
                         case ModuleFault => l.moduleOptional
                         case EventFault => l.eventNoncritical
                         case RenderFault => l.renderIsolation
                         case TimingFault => l.timingOverrun
                         case ShutdownFault => l.shutdownNonfatal
                         case BootstrapFault => 0;
            && d.observedCount == observed
            && (d.degrade ==> d.consumedBudget && !d.escalated && 1 <= limit && observed <= limit)
            && (d.escalated ==> !d.consumedBudget && (limit == 0 || observed > limit))
            && (!d.degrade && !d.escalated ==> !d.consumedBudget)
    // some faults are never degraded nor escalated, all others are one or the other
    ensures var d := Decide(p, l, c, observed);
            !d.degrade && !d.escalated <==>
              || c.invariantBreach || c.contractViolation
              || p.profile == DeterministicHost
              || c.faultClass == BootstrapFault
              || (c.faultClass == ModuleFault && c.requiredModule)
              || (c.faultClass == RenderFault && !p.renderingEnabled)
              || (c.faultClass == TimingFault && p.overrunMode == FailFast)
              || (c.faultClass == ShutdownFault && c.fatalShutdownViolation)
  {
  }
}
