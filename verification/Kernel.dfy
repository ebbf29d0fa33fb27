/** The kernel runtime (src/kernel_runtime.cpp): start and stop over the lifecycle machine and the service
    context. Every callback may answer anything; callbacks are fixed for the life of a kernel, do not re-enter
    it, and touch the service context only by registering. */
module Kernel {
  import opened Digraph
  import opened ModuleGraph
  import opened KernelTrace
  import opened ServiceTable
  import Lifecycle

  datatype ServiceKey = ServiceKey(contractType: string, name: string)

  function PlatformSteps(results: seq<bool>): seq<Event> {
    if results == [] then []
    else PlatformSteps(results[..|results| - 1]) + [PlatformTornDown(|results| - 1, results[|results| - 1])]
  }

  function ClosingSteps(hasDiagnostics: bool): seq<Event> {
    [ServicesTornDown] + if hasDiagnostics then [DiagnosticsFlushed] else []
  }

  /** What follows the modules in a shutdown: deferred events, platform, services, diagnostics. */
  function ShutdownTail(hasEventBus: bool, results: seq<bool>, hasDiagnostics: bool): seq<Event> {
    (if hasEventBus then [DeferredEventsHandled] else []) + PlatformSteps(results) + ClosingSteps(hasDiagnostics)
  }

  lemma TailAssociates(t: seq<Event>, hasEventBus: bool, results: seq<bool>, hasDiagnostics: bool)
    ensures t + (if hasEventBus then [DeferredEventsHandled] else []) + PlatformSteps(results)
              + ClosingSteps(hasDiagnostics)
         == t + ShutdownTail(hasEventBus, results, hasDiagnostics)
  {
  }

  /** What follows the modules in a shutdown, event by event. */
  lemma ShutdownTailMeaning(hasEventBus: bool, results: seq<bool>, hasDiagnostics: bool)
    ensures var tail, d := ShutdownTail(hasEventBus, results, hasDiagnostics), if hasEventBus then 1 else 0;
            && |tail| == d + |results| + 1 + (if hasDiagnostics then 1 else 0)
            && (hasEventBus ==> tail[0] == DeferredEventsHandled)
            && (forall i :: 0 <= i < |results| ==> tail[d + i] == PlatformTornDown(i, results[i]))
            && tail[d + |results|] == ServicesTornDown
            && (hasDiagnostics ==> tail[d + |results| + 1] == DiagnosticsFlushed)
  {
    TailParts(if hasEventBus then [DeferredEventsHandled] else [], results, ClosingSteps(hasDiagnostics));
  }

  lemma TailParts(front: seq<Event>, results: seq<bool>, closing: seq<Event>)
    requires 1 <= |closing| <= 2
    ensures var tail, d := front + PlatformSteps(results) + closing, |front|;
            && |tail| == d + |results| + |closing|
            && (d > 0 ==> tail[0] == front[0])
            && (forall i :: 0 <= i < |results| ==> tail[d + i] == PlatformTornDown(i, results[i]))
            && tail[d + |results|] == closing[0]
            && (|closing| == 2 ==> tail[d + |results| + 1] == closing[1])
  {
    PlatformStepsAt(results);
    forall i | 0 <= i < |results|
      ensures (front + PlatformSteps(results) + closing)[|front| + i] == PlatformTornDown(i, results[i])
    {
      InMiddle(front, PlatformSteps(results), closing, i);
    }
    AtEnd(front + PlatformSteps(results), closing);
  }

  lemma InMiddle(a: seq<Event>, b: seq<Event>, c: seq<Event>, i: nat)
    requires i < |b|
    ensures (a + b + c)[|a| + i] == b[i]
  {
  }

  lemma AtEnd(a: seq<Event>, c: seq<Event>)
    requires 1 <= |c| <= 2
    ensures (a + c)[|a|] == c[0] && (|c| == 2 ==> (a + c)[|a| + 1] == c[1])
  {
  }

  lemma ResultsNext(results: seq<bool>, done: bool)
    ensures PlatformSteps(results + [done]) == PlatformSteps(results) + [PlatformTornDown(|results|, done)]
    ensures (forall i :: 0 <= i < |results| + 1 ==> (results + [done])[i]) <==>
              done && forall i :: 0 <= i < |results| ==> results[i]
  {
    var more := results + [done];
    assert more[..|results|] == results && more[|results|] == done;
    assert forall i :: 0 <= i < |results| ==> more[i] == results[i];
  }

  lemma {:induction false} PlatformStepsAt(results: seq<bool>)
    ensures |PlatformSteps(results)| == |results|
    ensures forall i :: 0 <= i < |results| ==> PlatformSteps(results)[i] == PlatformTornDown(i, results[i])
  {
    if results != [] {
      PlatformStepsAt(results[..|results| - 1]);
    }
  }

  const DIAGNOSTICS := ServiceKey("DiagnosticsService", "")
  const CONFIGURATION := ServiceKey("ConfigurationService", "")
  const TIMING := ServiceKey("TimingService", "")

  function DefaultService(key: ServiceKey): Registration<ServiceKey> {
    Registration(key, true, ContextOwned, false)
  }

  predicate DefaultsAreFree(entries: Entries<ServiceKey>) {
    DIAGNOSTICS !in entries && CONFIGURATION !in entries && TIMING !in entries
  }

  class KernelRuntime {
    const lifecycle: Lifecycle.LifecycleStateMachine
    const services: Table<ServiceKey>
    const hasBootstrapStep: bool
    const hasInitializeStep: bool
    const hasLifecycleHandler: bool
    const hasStopHandler: bool
    const hasEventBus: bool
    const hasDiagnostics: bool
    const platformSteps: nat
    var modulesConfigured: bool
    var validation: ValidationResult
    var configuredOrder: seq<string>
    var startedModules: seq<string>
    var lastModuleShutdownOrder: seq<string>
    /** the modules behind `validation` */
    ghost var declared: seq<ModuleSpec>
    /** everything that happened, and the cycle it has come to */
    ghost var trace: seq<Event>
    ghost var cycle: Cycle

    ghost predicate Logged()
      reads this
    {
      Accepted(trace) && cycle == Run(trace)
    }

    /** Holds throughout a public call as well as between calls. */
    ghost predicate Tied()
      reads this, lifecycle, services
    {
      && lifecycle.Valid() && services.Valid()
      && Logged()
      && lifecycle.history == [Lifecycle.Stopped] + States(trace)
      && (validation.valid ==> StartsUp(declared, configuredOrder))
      && (!hasLifecycleHandler ==> cycle.ups == [])
    }

    ghost predicate StartedMatches()
      reads this
    {
      && StartedCount(cycle.ups) <= |cycle.order|
      && startedModules == if hasLifecycleHandler then cycle.order[..StartedCount(cycle.ups)] else cycle.order
    }

    /** Whatever went up in this cycle are the configured modules in their start-up order. */
    ghost predicate UsesConfigured()
      reads this
    {
      cycle.resolved ==> cycle.modules == declared && cycle.order == configuredOrder
    }

    /** Nothing has been taken down in this cycle. */
    ghost predicate NothingDown()
      reads this
    {
      cycle.downs == [] && cycle.notified == []
    }

    /** What is so while the kernel is neither running nor in the middle of something: either nothing happened in this
        cycle, or services are frozen and a failed start left some modules up, or a failed stop has torn all down. */
    ghost predicate Resting()
      reads this, services
    {
      match services.phase
      case Open => cycle == FRESH && startedModules == []
      case Frozen => cycle.freezes == 1 && cycle.runs == 0 && NothingDown() && StartedMatches()
      case Closing => Complete(cycle) && startedModules == []
    }

    ghost predicate Up()
      reads this, services
    {
      services.phase == Frozen && cycle.freezes == cycle.runs == 1 && NothingDown() && StartedMatches()
    }

    /** Between public calls. */
    ghost predicate Valid()
      reads this, lifecycle, services
    {
      && Tied()
      && match lifecycle.state
         case Stopped => services.phase == Open && Resting()
         case Faulted => Resting()
         case Running => Up()
         case _ => false
    }

    constructor (bootstrap: bool, initialize: bool, lifecycleHandler: bool, stopHandler: bool, eventBus: bool,
                 diagnostics: bool, platform: nat)
      ensures Valid() && lifecycle.state == Lifecycle.Stopped && trace == []
      ensures fresh(lifecycle) && fresh(services)
    {
      lifecycle := new Lifecycle.LifecycleStateMachine();
      services := new Table<ServiceKey>();
      hasBootstrapStep, hasInitializeStep := bootstrap, initialize;
      hasLifecycleHandler, hasStopHandler := lifecycleHandler, stopHandler;
      hasEventBus, hasDiagnostics, platformSteps := eventBus, diagnostics, platform;
      modulesConfigured, validation := false, ValidationResult(false, [], [], []);
      configuredOrder, startedModules, lastModuleShutdownOrder := [], [], [];
      declared, trace, cycle := [], [], FRESH;
      new;
    }

    /** src/kernel_runtime.cpp:19-30 */
    method ConfigureModules(modules: seq<ModuleSpec>) returns (ok: bool)
      requires Valid()
      modifies this`modulesConfigured, this`validation, this`configuredOrder, this`declared
      ensures Valid() && modulesConfigured && declared == modules
      ensures ok <==> WellDeclared(modules) && Acyclic(DeclaredGraph(modules))
      ensures validation.valid == ok
      ensures configuredOrder == if ok then validation.startupOrder else []
    {
      modulesConfigured, declared := true, modules;
      validation := ValidateModuleGraph(modules);
      configuredOrder := [];
      if !validation.valid {
        return false;
      }
      configuredOrder := validation.startupOrder;
      ReversedBaseStartsUp(modules, validation.baseOrder);
      ok := true;
    }

    /** A registration by a callback or by code outside the kernel. */
    method RegisterService(r: Registration<ServiceKey>) returns (ok: bool)
      requires Tied()
      modifies services
      ensures Tied() && services.phase == old(services.phase)
      ensures old(Valid()) ==> Valid()
    {
      ok := services.Register(r);
    }

    // ---------- steps that leave a mark on the trace ----------

    ghost method Log(e: Event)
      requires Logged() && Allowed(cycle, e)
      modifies this`trace, this`cycle
      ensures Logged()
      ensures trace == old(trace) + [e] && cycle == Step(old(cycle), e)
      ensures States(trace) == States(old(trace)) + if e.Entered? then [e.state] else []
      ensures Failures(trace) == Failures(old(trace)) + Failures([e])
    {
      AcceptAppend(trace, e);
      trace, cycle := trace + [e], Step(cycle, e);
    }

    method Enter(next: Lifecycle.State) returns (ok: bool)
      requires Tied()
      requires Lifecycle.IsLegalTransition(lifecycle.state, next) ==> Allowed(cycle, Entered(next))
      modifies this`trace, this`cycle, lifecycle
      ensures Tied()
      ensures ok <==> Lifecycle.IsLegalTransition(old(lifecycle.state), next)
      ensures ok ==> lifecycle.state == next && trace == old(trace) + [Entered(next)]
      ensures ok ==> cycle == Step(old(cycle), Entered(next))
      ensures Failures(trace) == Failures(old(trace))
      ensures !ok ==> lifecycle.state == old(lifecycle.state) && trace == old(trace) && cycle == old(cycle)
    {
      ok := lifecycle.TransitionTo(next);
      if ok {
        Log(Entered(next));
      }
    }

    ghost method Note(e: Event)
      requires Logged() && !e.Entered? && Allowed(cycle, e)
      modifies this`trace, this`cycle
      ensures Logged() && States(trace) == States(old(trace))
      ensures trace == old(trace) + [e] && cycle == Step(old(cycle), e)
      ensures Failures(trace) == Failures(old(trace)) + Failures([e])
    {
      Log(e);
    }

    /** Asks the lifecycle handler, which may answer anything. */
    method CallHandler(id: string, phase: ModulePhase) returns (ok: bool)
      requires Logged() && hasLifecycleHandler
      requires Allowed(cycle, Called(id, phase, true)) && Allowed(cycle, Called(id, phase, false))
      modifies this`trace, this`cycle
      ensures Logged() && States(trace) == States(old(trace))
      ensures trace == old(trace) + [Called(id, phase, ok)]
      ensures cycle == Step(old(cycle), Called(id, phase, ok))
      ensures Failures(trace) == Failures(old(trace)) + if ok then 0 else 1
    {
      ok := *;
      Note(Called(id, phase, ok));
    }

    /** src/kernel_runtime.cpp:172-177 */
    method Fault()
      requires Tied() && lifecycle.state != Lifecycle.Stopped
      modifies this`trace, this`cycle, lifecycle
      ensures Tied() && lifecycle.state == Lifecycle.Faulted && cycle == old(cycle)
      ensures Failures(trace) == Failures(old(trace))
      ensures trace == if old(lifecycle.state) == Lifecycle.Faulted then old(trace)
                       else old(trace) + [Entered(Lifecycle.Faulted)]
    {
      if lifecycle.state != Lifecycle.Faulted {
        var moved := Enter(Lifecycle.Faulted);
      }
    }

    // ---------- start ----------

    /** src/bootstrap_services.cpp:7-16. Fails exactly when the context is not open or has one of the three already. */
    method RegisterDefaultBootstrapServices() returns (ok: bool)
      requires services.Valid()
      modifies services
      ensures services.Valid() && services.phase == old(services.phase)
      ensures ok <==> old(services.phase) == Open && DefaultsAreFree(old(services.entries))
      ensures ok <==> && old(services.phase) == Open
                      && forall name :: name in {"DiagnosticsService", "ConfigurationService", "TimingService"} ==>
                           ServiceKey(name, "") !in old(services.entries)
      ensures ok ==> forall name :: name in {"DiagnosticsService", "ConfigurationService", "TimingService"} ==>
                ServiceKey(name, "") in services.entries
                && services.entries[ServiceKey(name, "")].ownership == ContextOwned
      ensures forall key :: key in old(services.entries) ==>
                key in services.entries && services.entries[key] == old(services.entries)[key]
    {
      ok := services.Register(DefaultService(DIAGNOSTICS));
      if ok {
        ok := services.Register(DefaultService(CONFIGURATION));
      }
      if ok {
        ok := services.Register(DefaultService(TIMING));
      }
    }

    /** What a bootstrap or initialize callback does to the service context. */
    method RegisterServices(registrations: seq<Registration<ServiceKey>>)
      requires services.Valid()
      modifies services
      ensures services.Valid() && services.phase == old(services.phase)
    {
      for i := 0 to |registrations|
        invariant services.Valid() && services.phase == old(services.phase)
      {
        var registered := services.Register(registrations[i]);
      }
    }

    /** A bootstrap or initialize callback: any registrations, any answer. */
    method RunStep(registrations: seq<Registration<ServiceKey>>) returns (ok: bool)
      requires Tied()
      modifies this`trace, this`cycle, services
      ensures Tied() && services.phase == old(services.phase) && cycle == old(cycle)
      ensures trace == old(trace) + [StepRan(ok)] && States(trace) == States(old(trace))
      ensures Failures(trace) == Failures(old(trace)) + if ok then 0 else 1
    {
      RegisterServices(registrations);
      ok := *;
      Note(StepRan(ok));
    }

    /** What a callback leaves on the trace, if there is one. */
    static function Asked(present: bool, ok: bool): seq<Event> {
      if present then [StepRan(ok)] else []
    }

    /** What happens up to the freeze when nothing fails. */
    function Prepared(): seq<Event> {
      Asked(hasBootstrapStep, true) + [Entered(Lifecycle.Initializing)] + Asked(hasInitializeStep, true) + [Froze]
    }

    /** src/kernel_runtime.cpp:68-70 */
    method Bootstrap(registrations: seq<Registration<ServiceKey>>) returns (ok: bool)
      requires Tied()
      modifies this`trace, this`cycle, services
      ensures Tied() && services.phase == old(services.phase) && cycle == old(cycle)
      ensures States(trace) == States(old(trace))
      ensures trace == old(trace) + Asked(hasBootstrapStep, ok)
      ensures hasBootstrapStep ==> Failures(trace) == Failures(old(trace)) + if ok then 0 else 1
      ensures !hasBootstrapStep ==>
                && Failures(trace) == Failures(old(trace))
                && (ok <==> old(services.phase) == Open && DefaultsAreFree(old(services.entries)))
    {
      if hasBootstrapStep {
        ok := RunStep(registrations);
      } else {
        ok := RegisterDefaultBootstrapServices();
      }
    }

    method FreezeServices() returns (ok: bool)
      requires Tied() && (services.phase == Open ==> cycle.freezes == 0)
      modifies this`trace, this`cycle, services
      ensures Tied()
      ensures ok <==> old(services.phase) == Open
      ensures services.phase == if ok then Frozen else old(services.phase)
      ensures cycle == if ok then old(cycle).(freezes := 1) else old(cycle)
      ensures trace == if ok then old(trace) + [Froze] else old(trace)
      ensures States(trace) == States(old(trace)) && Failures(trace) == Failures(old(trace))
    {
      ok := services.Freeze();
      if ok {
        Note(Froze);
      }
    }

    /** src/kernel_runtime.cpp:200-208, for one module */
    method AskUp(id: string, ghost i: nat) returns (ok: bool)
      requires Logged() && hasLifecycleHandler
      requires UpTo(cycle, i) && i < |cycle.order| && id == cycle.order[i]
      modifies this`trace, this`cycle
      ensures Logged() && States(trace) == States(old(trace)) && old(trace) <= trace
      ensures cycle == old(cycle).(ups := cycle.ups)
      ensures ok ==> UpTo(cycle, i + 1)
      ensures !ok ==> StartedCount(cycle.ups) == i
      ensures Failures(trace) == Failures(old(trace)) + if ok then 0 else 1
    {
      UpAllowed(cycle, i);
      ok := CallHandler(id, Initialize);
      if !ok {
        return;
      }
      UpStartAllowed(cycle, i);
      ok := CallHandler(id, ModulePhase.Start);
    }

    /** src/kernel_runtime.cpp:200-211, for one module */
    method BringUp(id: string, ghost i: nat) returns (ok: bool)
      requires Logged() && hasLifecycleHandler && StartedMatches()
      requires UpTo(cycle, i) && i < |cycle.order| && id == cycle.order[i]
      modifies this`trace, this`cycle, this`startedModules
      ensures Logged() && StartedMatches() && States(trace) == States(old(trace)) && old(trace) <= trace
      ensures cycle == old(cycle).(ups := cycle.ups)
      ensures ok ==> UpTo(cycle, i + 1)
      ensures Failures(trace) == Failures(old(trace)) + if ok then 0 else 1
    {
      UpToCount(cycle, i);
      ok := AskUp(id, i);
      if ok {
        UpToCount(cycle, i + 1);
        startedModules := startedModules + [id];
      }
    }

    /** src/kernel_runtime.cpp:199-212 */
    method BringUpModules() returns (ok: bool)
      requires Logged() && hasLifecycleHandler && startedModules == []
      requires cycle.order == configuredOrder && UpTo(cycle, 0)
      modifies this`trace, this`cycle, this`startedModules
      ensures Logged() && StartedMatches() && States(trace) == States(old(trace)) && old(trace) <= trace
      ensures cycle == old(cycle).(ups := cycle.ups)
      ensures ok ==> UpTo(cycle, |cycle.order|)
      ensures Failures(trace) == Failures(old(trace)) + if ok then 0 else 1
    {
      for i := 0 to |configuredOrder|
        invariant Logged() && StartedMatches() && States(trace) == States(old(trace)) && old(trace) <= trace
        invariant cycle == old(cycle).(ups := cycle.ups)
        invariant UpTo(cycle, i) && Failures(trace) == Failures(old(trace))
      {
        ok := BringUp(configuredOrder[i], i);
        if !ok {
          return;
        }
      }
      ok := true;
    }

    /** src/kernel_runtime.cpp:179-222 */
    method ExecuteModuleStartupSequence() returns (ok: bool)
      requires Logged() && !cycle.resolved && cycle.order == [] && UpTo(cycle, 0) && NothingDown()
      requires startedModules == []
      requires validation.valid ==> StartsUp(declared, configuredOrder)
      modifies this`trace, this`cycle, this`startedModules
      ensures Logged() && StartedMatches() && States(trace) == States(old(trace)) && old(trace) <= trace
      ensures cycle == old(cycle).(resolved := cycle.resolved, modules := cycle.modules, order := cycle.order,
                                   ups := cycle.ups)
      ensures UsesConfigured() && (cycle.resolved <==> modulesConfigured && validation.valid)
      ensures !hasLifecycleHandler ==> cycle.ups == []
      ensures ok <==> Failures(trace) == Failures(old(trace)) && (modulesConfigured ==> validation.valid)
      ensures Failures(old(trace)) <= Failures(trace)
      ensures ok && modulesConfigured ==> startedModules == configuredOrder
    {
      if !modulesConfigured {
        return true;
      }
      if !validation.valid {
        return false;
      }
      ok := BringUpValidated();
    }

    /** src/kernel_runtime.cpp:192-214 */
    method BringUpValidated() returns (ok: bool)
      requires Logged() && !cycle.resolved && UpTo(cycle, 0) && NothingDown()
      requires StartsUp(declared, configuredOrder)
      modifies this`trace, this`cycle, this`startedModules
      ensures Logged() && StartedMatches() && States(trace) == States(old(trace)) && old(trace) <= trace
      ensures cycle == old(cycle).(resolved := true, modules := declared, order := configuredOrder, ups := cycle.ups)
      ensures !hasLifecycleHandler ==> cycle.ups == []
      ensures Failures(trace) == Failures(old(trace)) + if ok then 0 else 1
      ensures ok ==> startedModules == configuredOrder
    {
      startedModules := [];
      Note(Resolved(declared, configuredOrder));
      ok := BringUpConfigured();
    }

    /** src/kernel_runtime.cpp:193-214 */
    method BringUpConfigured() returns (ok: bool)
      requires Logged() && startedModules == []
      requires cycle.order == configuredOrder && UpTo(cycle, 0)
      modifies this`trace, this`cycle, this`startedModules
      ensures Logged() && StartedMatches() && States(trace) == States(old(trace)) && old(trace) <= trace
      ensures cycle == old(cycle).(ups := cycle.ups)
      ensures !hasLifecycleHandler ==> cycle.ups == []
      ensures Failures(trace) == Failures(old(trace)) + if ok then 0 else 1
      ensures ok ==> startedModules == configuredOrder
    {
      if !hasLifecycleHandler {
        startedModules := configuredOrder;
        return true;
      }
      ok := BringUpModules();
      if ok {
        UpToAll(cycle);
      }
    }

    /** src/kernel_runtime.cpp:82 */
    method AskInitialize(initialize: seq<Registration<ServiceKey>>) returns (ok: bool)
      requires Tied()
      modifies this`trace, this`cycle, services
      ensures Tied() && services.phase == old(services.phase) && cycle == old(cycle)
      ensures States(trace) == States(old(trace)) && trace == old(trace) + Asked(hasInitializeStep, ok)
      ensures Failures(trace) == Failures(old(trace)) + if ok then 0 else 1
    {
      ok := true;
      if hasInitializeStep {
        ok := RunStep(initialize);
      }
    }

    /** src/kernel_runtime.cpp:77-91 */
    method InitializeAndFreeze(initialize: seq<Registration<ServiceKey>>) returns (ok: bool)
      requires Tied() && lifecycle.state == Lifecycle.Bootstrapping
      requires services.phase == Open ==> cycle.freezes == 0
      modifies this`trace, this`cycle, lifecycle, services
      ensures Tied() && lifecycle.state == Lifecycle.Initializing
      ensures old(trace) <= trace
      ensures ok ==> services.phase == Frozen && cycle == old(cycle).(freezes := 1)
      ensures ok ==> States(trace) == States(old(trace)) + [Lifecycle.Initializing]
      ensures ok ==> trace == old(trace) + [Entered(Lifecycle.Initializing)] + Asked(hasInitializeStep, true) + [Froze]
      ensures !ok ==> services.phase == old(services.phase) && cycle == old(cycle)
      ensures ok <==> Failures(trace) == Failures(old(trace)) && old(services.phase) == Open
      ensures Failures(old(trace)) <= Failures(trace)
    {
      ok := Enter(Lifecycle.Initializing);
      ok := AskInitialize(initialize);
      if ok {
        ok := FreezeServices();
      }
    }

    /** src/kernel_runtime.cpp:68-91 */
    method Prepare(bootstrap: seq<Registration<ServiceKey>>, initialize: seq<Registration<ServiceKey>>)
      returns (ok: bool)
      requires Tied() && lifecycle.state == Lifecycle.Bootstrapping
      requires services.phase == Open ==> cycle.freezes == 0
      modifies this`trace, this`cycle, lifecycle, services
      ensures Tied()
      ensures old(trace) <= trace
      ensures lifecycle.state == if ok then Lifecycle.Initializing else Lifecycle.Faulted
      ensures ok ==> services.phase == Frozen && cycle == old(cycle).(freezes := 1)
      ensures ok ==> States(trace) == States(old(trace)) + [Lifecycle.Initializing] && trace == old(trace) + Prepared()
      ensures !ok ==> services.phase == old(services.phase) && cycle == old(cycle)
      ensures ok <==> && Failures(trace) == Failures(old(trace)) && old(services.phase) == Open
                      && (hasBootstrapStep || DefaultsAreFree(old(services.entries)))
      ensures Failures(old(trace)) <= Failures(trace)
    {
      ok := BootstrapAndFreeze(bootstrap, initialize);
      if !ok {
        Fault();
      }
    }

    /** src/kernel_runtime.cpp:68-91, up to the first failure */
    method BootstrapAndFreeze(bootstrap: seq<Registration<ServiceKey>>, initialize: seq<Registration<ServiceKey>>)
      returns (ok: bool)
      requires Tied() && lifecycle.state == Lifecycle.Bootstrapping
      requires services.phase == Open ==> cycle.freezes == 0
      modifies this`trace, this`cycle, lifecycle, services
      ensures Tied() && old(trace) <= trace
      ensures lifecycle.state == Lifecycle.Initializing || (!ok && lifecycle.state == Lifecycle.Bootstrapping)
      ensures ok ==> services.phase == Frozen && cycle == old(cycle).(freezes := 1)
      ensures ok ==> States(trace) == States(old(trace)) + [Lifecycle.Initializing] && trace == old(trace) + Prepared()
      ensures !ok ==> services.phase == old(services.phase) && cycle == old(cycle)
      ensures ok <==> && Failures(trace) == Failures(old(trace)) && old(services.phase) == Open
                      && (hasBootstrapStep || DefaultsAreFree(old(services.entries)))
      ensures Failures(old(trace)) <= Failures(trace)
    {
      ok := Bootstrap(bootstrap);
      ghost var booted := trace;
      if ok {
        ok := InitializeAndFreeze(initialize);
      }
      if ok {
        PreparedParts(old(trace), booted, trace);
      }
    }

    /** Which steps a start takes before the modules, one by one. */
    lemma PreparedMeaning()
      ensures var b, i := if hasBootstrapStep then 1 else 0, if hasInitializeStep then 1 else 0;
              && |Prepared()| == b + 1 + i + 1
              && (hasBootstrapStep ==> Prepared()[0] == StepRan(true))
              && Prepared()[b] == Entered(Lifecycle.Initializing)
              && (hasInitializeStep ==> Prepared()[b + 1] == StepRan(true))
              && Prepared()[b + 1 + i] == Froze
    {
    }

    lemma PreparedParts(t: seq<Event>, booted: seq<Event>, frozen: seq<Event>)
      requires booted == t + Asked(hasBootstrapStep, true)
      requires frozen == booted + [Entered(Lifecycle.Initializing)] + Asked(hasInitializeStep, true) + [Froze]
      ensures frozen == t + Prepared()
    {
    }

    /** src/kernel_runtime.cpp:93-104 */
    method Launch() returns (ok: bool)
      requires Tied() && lifecycle.state == Lifecycle.Initializing && startedModules == []
      requires cycle == FRESH.(freezes := 1)
      modifies this`trace, this`cycle, this`startedModules, lifecycle
      ensures Tied() && StartedMatches() && NothingDown() && cycle.freezes == 1
      ensures lifecycle.state == if ok then Lifecycle.Running else Lifecycle.Faulted
      ensures cycle.runs == if ok then 1 else 0
      ensures UsesConfigured() && (cycle.resolved <==> modulesConfigured && validation.valid)
      ensures ok ==> States(trace) == States(old(trace)) + [Lifecycle.Running]
      ensures old(trace) <= trace
      ensures ok <==> Failures(trace) == Failures(old(trace)) && (modulesConfigured ==> validation.valid)
      ensures Failures(old(trace)) <= Failures(trace)
      ensures ok && modulesConfigured ==> startedModules == configuredOrder
    {
      ok := ExecuteModuleStartupSequence();
      if ok {
        var running := Enter(Lifecycle.Running);
      } else {
        Fault();
      }
    }

    /** src/kernel_runtime.cpp:68-104 */
    method StartFromBootstrapping(bootstrap: seq<Registration<ServiceKey>>, initialize: seq<Registration<ServiceKey>>)
      returns (ok: bool, ghost frozen: seq<Event>)
      requires Tied() && Resting() && lifecycle.state == Lifecycle.Bootstrapping
      modifies this`trace, this`cycle, this`startedModules, lifecycle, services
      ensures Tied() && (if ok then Up() else Resting())
      ensures old(trace) <= trace
      ensures lifecycle.state == if ok then Lifecycle.Running else Lifecycle.Faulted
      ensures ok <==> && Failures(trace) == Failures(old(trace)) && old(services.phase) == Open
                      && (hasBootstrapStep || DefaultsAreFree(old(services.entries)))
                      && (modulesConfigured ==> validation.valid)
      ensures ok ==> States(trace) == States(old(trace)) + [Lifecycle.Initializing, Lifecycle.Running]
      ensures ok ==> frozen == old(trace) + Prepared() && frozen <= trace
      ensures old(services.phase) != Open ==> services.phase == old(services.phase) && cycle == old(cycle)
      ensures old(services.phase) == Open ==> UsesConfigured()
      ensures ok ==> (cycle.resolved <==> modulesConfigured)
      ensures ok && modulesConfigured ==> startedModules == configuredOrder
    {
      ok := Prepare(bootstrap, initialize);
      frozen := trace;
      if ok {
        ok := Launch();
      }
    }

    /** src/kernel_runtime.cpp:63-105. After the first move the machine refuses none of the others. A start succeeds
        exactly when the kernel is not running, no callback failed, the service context was still open (with the
        default services not yet registered, where those are used), and the configured modules are valid; up to
        `frozen` the steps before the modules ran, in their order. */
    method Start(bootstrap: seq<Registration<ServiceKey>>, initialize: seq<Registration<ServiceKey>>)
      returns (ok: bool, ghost frozen: seq<Event>)
      requires Valid()
      modifies this`trace, this`cycle, this`startedModules, lifecycle, services
      ensures Valid()
      ensures old(trace) <= trace && old(lifecycle.history) <= lifecycle.history
      ensures old(lifecycle.state) != Lifecycle.Running ==> old(trace) + [Entered(Lifecycle.Bootstrapping)] <= trace
      ensures old(lifecycle.state) == Lifecycle.Running ==> trace == old(trace) && services.phase == Frozen
      ensures old(lifecycle.state) != Lifecycle.Running ==>
                lifecycle.state == if ok then Lifecycle.Running else Lifecycle.Faulted
      ensures ok <==> && old(lifecycle.state) != Lifecycle.Running && old(services.phase) == Open
                      && (hasBootstrapStep || DefaultsAreFree(old(services.entries)))
                      && (modulesConfigured ==> validation.valid)
                      && forall i :: |old(trace)| <= i < |trace| ==>
                             && trace[i] != StepRan(false) && (trace[i].Called? ==> trace[i].ok)
                             && (trace[i].StopNotified? ==> trace[i].ok) && (trace[i].PlatformTornDown? ==> trace[i].ok)
      ensures ok ==> States(trace)
                     == States(old(trace)) + [Lifecycle.Bootstrapping, Lifecycle.Initializing, Lifecycle.Running]
      ensures ok ==> frozen == old(trace) + [Entered(Lifecycle.Bootstrapping)] + Prepared() && frozen <= trace
      ensures old(services.phase) != Open ==> services.phase == old(services.phase) && cycle == old(cycle)
      ensures old(services.phase) == Open && cycle.resolved ==>
                cycle.modules == declared && cycle.order == configuredOrder
      ensures ok ==> (cycle.resolved <==> modulesConfigured)
      ensures ok && modulesConfigured ==> startedModules == configuredOrder
    {
      ok := Enter(Lifecycle.Bootstrapping);
      frozen := trace;
      if !ok {
        return;
      }
      ok, frozen := StartFromBootstrapping(bootstrap, initialize);
      JoinStates(States(old(trace)));
      HistoryIsKept(old(trace), trace);
      FailuresSince(old(trace), trace);
    }

    static lemma JoinStates(h: seq<Lifecycle.State>)
      ensures h + [Lifecycle.Bootstrapping] + [Lifecycle.Initializing, Lifecycle.Running]
           == h + [Lifecycle.Bootstrapping, Lifecycle.Initializing, Lifecycle.Running]
    {
    }

    // ---------- stop ----------

    /** Whether stopping modules is announced to the plain stop handler. */
    ghost predicate Announces() {
      !hasLifecycleHandler && hasStopHandler
    }

    /** The last `j` of the started modules are down, the next one is `id`. */
    ghost predicate DownNext(j: nat, id: string)
      reads this
    {
      && (hasLifecycleHandler ==> DownTo(cycle, j) && DownId(cycle, j, id))
      && (Announces() ==> |cycle.notified| == j < |cycle.order| && id == cycle.order[|cycle.order| - 1 - j])
    }

    /** src/kernel_runtime.cpp:232-240 */
    method StopAndTearDown(id: string, ghost j: nat) returns (ok: bool)
      requires Logged() && hasLifecycleHandler && DownTo(cycle, j) && DownId(cycle, j, id)
      modifies this`trace, this`cycle
      ensures Logged() && States(trace) == States(old(trace)) && old(trace) <= trace
      ensures cycle == old(cycle).(downs := cycle.downs) && DownTo(cycle, j + 1)
      ensures ok <==> Failures(trace) == Failures(old(trace))
      ensures Failures(old(trace)) <= Failures(trace)
    {
      DownAllowed(cycle, j, id);
      var stopped := CallHandler(id, Stop);
      DownTeardownAllowed(cycle, j, id);
      var tornDown := CallHandler(id, Teardown);
      ok := stopped && tornDown;
    }

    /** src/kernel_runtime.cpp:241-243 */
    method AnnounceStop(id: string) returns (ok: bool)
      requires Logged() && Announces() && DownNext(|cycle.notified|, id)
      modifies this`trace, this`cycle
      ensures Logged() && States(trace) == States(old(trace)) && trace == old(trace) + [StopNotified(id, ok)]
      ensures cycle == old(cycle).(notified := old(cycle).notified + [id])
      ensures Failures(trace) == Failures(old(trace)) + if ok then 0 else 1
    {
      ok := *;
      Note(StopNotified(id, ok));
    }

    /** src/kernel_runtime.cpp:232-243, for one module */
    method TakeDown(id: string, ghost j: nat) returns (ok: bool)
      requires Logged() && DownNext(j, id)
      modifies this`trace, this`cycle
      ensures Logged() && States(trace) == States(old(trace)) && old(trace) <= trace
      ensures cycle == old(cycle).(downs := cycle.downs, notified := cycle.notified)
      ensures hasLifecycleHandler ==> DownTo(cycle, j + 1)
      ensures !hasLifecycleHandler ==> cycle.downs == old(cycle).downs
      ensures cycle.notified == old(cycle).notified + if Announces() then [id] else []
      ensures ok <==> Failures(trace) == Failures(old(trace))
      ensures Failures(old(trace)) <= Failures(trace)
    {
      if hasLifecycleHandler {
        ok := StopAndTearDown(id, j);
      } else if hasStopHandler {
        ok := AnnounceStop(id);
      } else {
        ok := true;
      }
    }

    /** src/kernel_runtime.cpp:229-244 */
    method StopModules() returns (ok: bool)
      requires Logged() && StartedMatches() && NothingDown()
      requires !hasLifecycleHandler ==> cycle.ups == []
      modifies this`trace, this`cycle, this`lastModuleShutdownOrder
      ensures Logged() && States(trace) == States(old(trace)) && old(trace) <= trace
      ensures Complete(cycle) && cycle == old(cycle).(downs := cycle.downs, notified := cycle.notified)
      ensures cycle.notified == if Announces() then lastModuleShutdownOrder else []
      ensures ok <==> Failures(trace) == Failures(old(trace))
      ensures Failures(old(trace)) <= Failures(trace)
      ensures Mirrors(lastModuleShutdownOrder, startedModules, |startedModules|)
    {
      ok, lastModuleShutdownOrder := true, [];
      var j := 0;
      while j < |startedModules|
        invariant Logged() && States(trace) == States(old(trace)) && old(trace) <= trace
        invariant j <= |startedModules| && Descended(j)
        invariant cycle == old(cycle).(downs := cycle.downs, notified := cycle.notified)
        invariant Failures(old(trace)) <= Failures(trace) && (ok <==> Failures(trace) == Failures(old(trace)))
      {
        var down := TakeDownNext(j);
        ok, j := ok && down, j + 1;
      }
    }

    /** The last `j` of the started modules are done with. */
    ghost predicate Descended(j: nat)
      reads this
    {
      && (if hasLifecycleHandler then DownTo(cycle, j) else cycle.downs == [])
      && cycle.notified == (if Announces() then lastModuleShutdownOrder else [])
      && Mirrors(lastModuleShutdownOrder, startedModules, j)
    }

    lemma DescendedNext(j: nat)
      requires StartedMatches() && Descended(j) && j < |startedModules|
      ensures DownNext(j, startedModules[|startedModules| - 1 - j])
    {
    }

    /** src/kernel_runtime.cpp:230 */
    method RecordShutdown(id: string, ghost j: nat)
      requires Mirrors(lastModuleShutdownOrder, startedModules, j) && j < |startedModules|
      requires id == startedModules[|startedModules| - 1 - j]
      modifies this`lastModuleShutdownOrder
      ensures Mirrors(lastModuleShutdownOrder, startedModules, j + 1)
      ensures lastModuleShutdownOrder == old(lastModuleShutdownOrder) + [id]
    {
      MirrorsNext(lastModuleShutdownOrder, startedModules, j);
      lastModuleShutdownOrder := lastModuleShutdownOrder + [id];
    }

    /** src/kernel_runtime.cpp:230-243 */
    method TakeDownNext(j: nat) returns (ok: bool)
      requires Logged() && StartedMatches() && Descended(j) && j < |startedModules|
      modifies this`trace, this`cycle, this`lastModuleShutdownOrder
      ensures Logged() && States(trace) == States(old(trace)) && old(trace) <= trace
      ensures cycle == old(cycle).(downs := cycle.downs, notified := cycle.notified) && Descended(j + 1)
      ensures ok <==> Failures(trace) == Failures(old(trace))
      ensures Failures(old(trace)) <= Failures(trace)
    {
      var id := startedModules[|startedModules| - 1 - j];
      DescendedNext(j);
      RecordShutdown(id, j);
      ok := TakeDown(id, j);
    }

    /** Asks a platform teardown step, which may answer anything. */
    method RunPlatformStep(i: nat) returns (ok: bool)
      requires Logged()
      modifies this`trace, this`cycle
      ensures Logged() && cycle == old(cycle) && States(trace) == States(old(trace))
      ensures trace == old(trace) + [PlatformTornDown(i, ok)]
      ensures Failures(trace) == Failures(old(trace)) + if ok then 0 else 1
    {
      ok := *;
      Note(PlatformTornDown(i, ok));
    }

    /** src/kernel_runtime.cpp:262-269 */
    method TearDownPlatform() returns (ok: bool, ghost results: seq<bool>)
      requires Logged()
      modifies this`trace, this`cycle
      ensures Logged() && cycle == old(cycle) && States(trace) == States(old(trace))
      ensures |results| == platformSteps && trace == old(trace) + PlatformSteps(results)
      ensures ok <==> forall i :: 0 <= i < |results| ==> results[i]
      ensures ok <==> Failures(trace) == Failures(old(trace))
      ensures Failures(old(trace)) <= Failures(trace)
    {
      ok, results := true, [];
      for i := 0 to platformSteps
        invariant Logged() && cycle == old(cycle) && States(trace) == States(old(trace)) && |results| == i
        invariant trace == old(trace) + PlatformSteps(results)
        invariant ok <==> forall j :: 0 <= j < |results| ==> results[j]
        invariant Failures(old(trace)) <= Failures(trace) && (ok <==> Failures(trace) == Failures(old(trace)))
      {
        var done := RunPlatformStep(i);
        ResultsNext(results, done);
        results := results + [done];
        ok := ok && done;
      }
    }

    /** src/kernel_runtime.cpp:248-277 */
    method TearDownHost() returns (ok: bool, ghost results: seq<bool>)
      requires Logged() && services.Valid()
      modifies this`trace, this`cycle, services
      ensures Logged() && services.Valid() && services.phase == Closing
      ensures cycle == old(cycle) && States(trace) == States(old(trace))
      ensures |results| == platformSteps && (ok ==> forall i :: 0 <= i < |results| ==> results[i])
      ensures trace == old(trace) + ShutdownTail(hasEventBus, results, hasDiagnostics)
      ensures ok <==> Failures(trace) == Failures(old(trace))
      ensures Failures(old(trace)) <= Failures(trace)
    {
      HandleDeferredEvents();
      ok, results := TearDownPlatform();
      var tornDown := TearDownServices();
      ok := ok && tornDown;
      NoteClosing();
      TailAssociates(old(trace), hasEventBus, results, hasDiagnostics);
    }

    /** src/kernel_runtime.cpp:248-260 */
    method HandleDeferredEvents()
      requires Logged()
      modifies this`trace, this`cycle
      ensures Logged() && cycle == old(cycle) && States(trace) == States(old(trace))
      ensures Failures(trace) == Failures(old(trace))
      ensures trace == old(trace) + if hasEventBus then [DeferredEventsHandled] else []
    {
      if hasEventBus {
        Note(DeferredEventsHandled);
      }
    }

    method TearDownServices() returns (ok: bool)
      requires services.Valid()
      modifies services
      ensures ok && services.Valid() && services.phase == Closing
    {
      ok := services.BeginTeardown();
    }

    ghost method NoteClosing()
      requires Logged()
      modifies this`trace, this`cycle
      ensures Logged() && cycle == old(cycle) && States(trace) == States(old(trace))
      ensures Failures(trace) == Failures(old(trace))
      ensures trace == old(trace) + ClosingSteps(hasDiagnostics)
    {
      Note(ServicesTornDown);
      if hasDiagnostics {
        Note(DiagnosticsFlushed);
      }
    }

    /** src/kernel_runtime.cpp:224-280: best effort, in the documented order; `middle` is the trace
        when the modules are down. */
    method ExecuteShutdownSequence() returns (ok: bool, ghost middle: seq<Event>, ghost results: seq<bool>)
      requires Logged() && services.Valid()
      requires (startedModules == [] && Complete(cycle)) || (StartedMatches() && NothingDown())
      requires !hasLifecycleHandler ==> cycle.ups == []
      modifies this`trace, this`cycle, this`lastModuleShutdownOrder, this`startedModules, services
      ensures Logged() && services.Valid() && services.phase == Closing
      ensures Complete(cycle) && startedModules == []
      ensures cycle == old(cycle).(downs := cycle.downs, notified := cycle.notified)
      ensures States(trace) == States(old(trace))
      ensures |results| == platformSteps && old(trace) <= middle && Run(middle) == cycle
      ensures ok ==> forall i :: 0 <= i < |results| ==> results[i]
      ensures trace == middle + ShutdownTail(hasEventBus, results, hasDiagnostics)
      ensures Announces() && old(startedModules) != [] ==> cycle.notified == lastModuleShutdownOrder
      ensures ok <==> Failures(trace) == Failures(old(trace))
      ensures Mirrors(lastModuleShutdownOrder, old(startedModules), |old(startedModules)|)
    {
      ok := true;
      if startedModules == [] {
        lastModuleShutdownOrder := [];
      } else {
        ok := StopModules();
      }
      startedModules, middle := [], trace;
      var hostOk;
      hostOk, results := TearDownHost();
      ok := ok && hostOk;
    }

    /** src/kernel_runtime.cpp:107-130. A stop reaches Stopped exactly when no callback failed; at `middle`
        every module that was started is down, and then follow the deferred events, the platform, the services and
        the diagnostics. */
    method StopKernel() returns (ok: bool, ghost middle: seq<Event>, ghost results: seq<bool>)
      requires Valid()
      modifies this`trace, this`cycle, this`lastModuleShutdownOrder, this`startedModules, lifecycle, services
      ensures Valid()
      ensures old(trace) <= trace && old(lifecycle.history) <= lifecycle.history
      ensures ok <==> forall i :: |old(trace)| <= i < |trace| ==>
                             && trace[i] != StepRan(false) && (trace[i].Called? ==> trace[i].ok)
                             && (trace[i].StopNotified? ==> trace[i].ok) && (trace[i].PlatformTornDown? ==> trace[i].ok)
      ensures ok ==> forall i :: 0 <= i < |results| ==> results[i]
      ensures old(lifecycle.state) == Lifecycle.Stopped ==> ok && trace == old(trace)
      ensures old(lifecycle.state) != Lifecycle.Stopped ==>
                && lifecycle.state == (if ok then Lifecycle.Stopped else Lifecycle.Faulted)
                && |results| == platformSteps && old(trace) + [Entered(Lifecycle.Stopping)] <= middle
                && Complete(Run(middle))
                && (!hasLifecycleHandler && hasStopHandler && old(startedModules) != [] ==>
                      Run(middle).notified == lastModuleShutdownOrder)
                && trace == middle + ShutdownTail(hasEventBus, results, hasDiagnostics) + [Entered(lifecycle.state)]
                && Mirrors(lastModuleShutdownOrder, old(startedModules), |old(startedModules)|)
    {
      middle, results := trace, [];
      if lifecycle.state == Lifecycle.Stopped {
        return true, trace, [];
      }
      var stopping := Enter(Lifecycle.Stopping);
      ok, middle, results := StopFromStopping();
      HistoryIsKept(old(trace), trace);
      FailuresSince(old(trace), trace);
    }

    /** src/kernel_runtime.cpp:118-129 */
    method StopFromStopping() returns (ok: bool, ghost middle: seq<Event>, ghost results: seq<bool>)
      requires Tied() && lifecycle.state == Lifecycle.Stopping
      requires (startedModules == [] && Complete(cycle)) || (StartedMatches() && NothingDown())
      modifies this`trace, this`cycle, this`lastModuleShutdownOrder, this`startedModules, lifecycle, services
      ensures Tied() && Resting() && services.phase == if ok then Open else Closing
      ensures ok <==> Failures(trace) == Failures(old(trace))
      ensures lifecycle.state == (if ok then Lifecycle.Stopped else Lifecycle.Faulted)
      ensures |results| == platformSteps && old(trace) <= middle && Complete(Run(middle))
      ensures ok ==> forall i :: 0 <= i < |results| ==> results[i]
      ensures Announces() && old(startedModules) != [] ==> Run(middle).notified == lastModuleShutdownOrder
      ensures trace == middle + ShutdownTail(hasEventBus, results, hasDiagnostics) + [Entered(lifecycle.state)]
      ensures Mirrors(lastModuleShutdownOrder, old(startedModules), |old(startedModules)|)
    {
      ok, middle, results := ExecuteShutdownSequence();
      if !ok {
        Fault();
        return;
      }
      var stopped := Enter(Lifecycle.Stopped);
      var reset := services.ResetForNextStartCycle();
    }
  }

  // ---------- where the two loops are in the cycle ----------

  /** The first `i` modules are up and nothing else was called. */
  ghost predicate UpTo(c: Cycle, i: nat) {
    && |c.ups| == 2 * i && c.downs == [] && c.freezes == 1 && c.runs == 0
    && (i > 0 ==> c.ups[2 * i - 1].Called? && c.ups[2 * i - 1].ok)
  }

  lemma UpToCount(c: Cycle, i: nat)
    requires UpTo(c, i) && i <= |c.order|
    ensures StartedCount(c.ups) == i
  {
  }

  lemma UpToAll(c: Cycle)
    requires UpTo(c, |c.order|)
    ensures c.order[..StartedCount(c.ups)] == c.order
  {
  }

  lemma UpAllowed(c: Cycle, i: nat)
    requires UpTo(c, i) && i < |c.order|
    ensures forall ok :: Allowed(c, Called(c.order[i], Initialize, ok))
    ensures StartedCount(c.ups) == i
    ensures forall ok :: StartedCount(c.ups + [Called(c.order[i], Initialize, ok)]) == i
  {
  }

  lemma UpStartAllowed(c: Cycle, i: nat)
    requires |c.ups| == 2 * i + 1 && c.downs == [] && c.ups[2 * i].Called? && c.ups[2 * i].ok
    requires i < |c.order| && c.freezes == 1 && c.runs == 0
    ensures forall ok :: Allowed(c, Called(c.order[i], ModulePhase.Start, ok))
    ensures StartedCount(c.ups + [Called(c.order[i], ModulePhase.Start, false)]) == i
  {
  }

  /** The last `j` of the started modules are down. */
  ghost predicate DownTo(c: Cycle, j: nat) {
    StartedCount(c.ups) <= |c.order| && |c.downs| == 2 * j
  }

  ghost predicate DownId(c: Cycle, j: nat, id: string) {
    j < StartedCount(c.ups) <= |c.order| && id == c.order[StartedCount(c.ups) - 1 - j]
  }

  lemma DownAllowed(c: Cycle, j: nat, id: string)
    requires DownTo(c, j) && DownId(c, j, id)
    ensures forall ok :: Allowed(c, Called(id, Stop, ok))
  {
  }

  lemma DownTeardownAllowed(c: Cycle, j: nat, id: string)
    requires DownId(c, j, id) && |c.downs| == 2 * j + 1
    ensures forall ok :: Allowed(c, Called(id, Teardown, ok))
  {
  }

  lemma HistoryIsKept(t: seq<Event>, t': seq<Event>)
    requires t <= t'
    ensures [Lifecycle.Stopped] + States(t) <= [Lifecycle.Stopped] + States(t')
  {
    StatesMonotone(t, t');
  }

  lemma ShiftedHistory(h: seq<Lifecycle.State>, i: nat, j: nat)
    requires 0 < i < j && StopBetween(h, i - 1, j - 1)
    ensures StopBetween([Lifecycle.Stopped] + h, i, j)
  {
    var n :| i - 1 < n < j - 1 && 0 <= n < |h| && h[n] == Lifecycle.Stopped;
    assert ([Lifecycle.Stopped] + h)[n + 1] == Lifecycle.Stopped;
  }

  lemma RunningIndex(h: seq<Lifecycle.State>, i: nat)
    requires i <= |h| && ([Lifecycle.Stopped] + h)[i] == Lifecycle.Running
    ensures i > 0 && h[i - 1] == Lifecycle.Running
  {
  }

  lemma HistoryRunsAreSeparated(t: seq<Event>, h: seq<Lifecycle.State>, i: nat, j: nat)
    requires Safe(t) && h == States(t)
    requires 0 < i < j <= |h| && h[i - 1] == h[j - 1] == Lifecycle.Running
    ensures StopBetween([Lifecycle.Stopped] + h, i, j)
  {
    RunsAreSeparatedByStops(t, i - 1, j - 1);
    ShiftedHistory(h, i, j);
  }

  /** In the lifecycle history of every reachable kernel two entries into Running are separated by
      an entry into Stopped: the frozen service context is what keeps a faulted host from rerunning. */
  lemma RunsAreSeparated(k: KernelRuntime, i: nat, j: nat)
    requires k.Valid() && i < j < |k.lifecycle.history|
    requires k.lifecycle.history[i] == k.lifecycle.history[j] == Lifecycle.Running
    ensures StopBetween(k.lifecycle.history, i, j)
  {
    AcceptedIsSafe(k.trace);
    RunningIndex(States(k.trace), i);
    RunningIndex(States(k.trace), j);
    HistoryRunsAreSeparated(k.trace, States(k.trace), i, j);
  }

  /** Over the whole history of every reachable kernel, with whatever answers of its callbacks: every handler call
      belongs to a start that picked its modules; no module is initialized or started before each dependency that
      it declares among them has started; none is stopped unless it was started, nor before each of its started
      consumers is torn down; and the modules of the current cycle are those the kernel says it used. */
  lemma DeclaredOrderIsKept(k: KernelRuntime)
    requires k.Valid()
    ensures forall n :: 0 <= n < |k.trace| && k.trace[n].Called? ==> IsGoverned(k.trace, n)
    ensures forall g, n :: Governs(k.trace, g, n) && n < |k.trace| ==> RespectsDependencies(k.trace, g, n)
    ensures forall g :: Governs(k.trace, g, |k.trace|) ==>
              k.cycle.resolved && k.trace[g] == Resolved(k.cycle.modules, k.cycle.order)
  {
    AcceptedIsSafe(k.trace);
    HistoryRespectsDependencies(k.trace);
    assert k.trace[..|k.trace|] == k.trace;
    forall g | Governs(k.trace, g, |k.trace|)
      ensures k.cycle.resolved && k.trace[g] == Resolved(k.cycle.modules, k.cycle.order)
    {
      CurrentResolution(k.trace, g, k.cycle);
    }
  }

  /** Over the whole history of every reachable kernel: each callback of each module runs at most once between two
      entries into Stopped, and when Stopped is entered exactly the modules started in that cycle have been stopped
      and torn down. */
  lemma CyclesAreBalanced(k: KernelRuntime)
    requires k.Valid()
    ensures forall i, j, m, phase ::
              0 <= i < j < |k.trace| && IsCall(k.trace[i], m, phase) && IsCall(k.trace[j], m, phase) ==>
                StopEnteredBetween(k.trace, i, j)
    ensures forall n, m, phase ::
              0 <= n < |k.trace| && k.trace[n] == Entered(Lifecycle.Stopped) && phase in {Stop, Teardown} ==>
                (WasCalled(k.trace, n, m, phase) <==> HappenedBefore(k.trace, n, Called(m, ModulePhase.Start, true)))
  {
    AcceptedIsSafe(k.trace);
    HistoryIsBalanced(k.trace);
  }

  /** Between public calls a kernel is stopped with open services, running with frozen ones and nothing failed in
      bringing its modules up, or faulted; and each started module is still known. */
  lemma StatesBetweenCalls(k: KernelRuntime)
    requires k.Valid()
    ensures k.lifecycle.state in {Lifecycle.Stopped, Lifecycle.Running, Lifecycle.Faulted}
    ensures k.lifecycle.state == Lifecycle.Stopped ==> k.services.phase == Open && k.startedModules == []
    ensures k.lifecycle.state == Lifecycle.Running ==> k.services.phase == Frozen
    ensures k.services.phase == Frozen && k.hasLifecycleHandler ==>
              forall m :: m in k.startedModules <==>
                HappenedBefore(k.trace, |k.trace|, Called(m, ModulePhase.Start, true))
  {
    AcceptedIsSafe(k.trace);
    assert k.trace[..|k.trace|] == k.trace;
    if k.services.phase == Frozen && k.hasLifecycleHandler {
      forall m
        ensures m in k.startedModules <==> HappenedBefore(k.trace, |k.trace|, Called(m, ModulePhase.Start, true))
      {
        StartedIsKnown(k.trace, k.cycle, m);
      }
    }
  }

  lemma StartedIsKnown(t: seq<Event>, c: Cycle, m: string)
    requires Describes(c, CurrentCycle(t)) && c.downs == []
    ensures m in c.order[..StartedCount(c.ups)] <==> HappenedBefore(t, |t|, Called(m, ModulePhase.Start, true))
  {
    assert t[..|t|] == t;
    CycleMember(t, |t|, Called(m, ModulePhase.Start, true));
    FoldMembers(CurrentCycle(t), Called(m, ModulePhase.Start, true));
    StartedAmongCalls(c, CallsOf(CurrentCycle(t)), m);
  }

  lemma StartedAmongCalls(c: Cycle, calls: seq<Event>, m: string)
    requires Matches(c, calls)
    ensures m in c.order[..StartedCount(c.ups)] <==> Called(m, ModulePhase.Start, true) in calls
  {
    if Called(m, ModulePhase.Start, true) in calls {
      var a :| 0 <= a < |calls| && calls[a] == Called(m, ModulePhase.Start, true);
      StartsCount(c, calls, a);
      CallAt(c, calls, a);
      assert c.order[..StartedCount(c.ups)][a / 2] == m;
    }
    if m in c.order[..StartedCount(c.ups)] {
      var q :| 0 <= q < StartedCount(c.ups) && c.order[q] == m;
      StartedAt(c, calls, q);
    }
  }
}
