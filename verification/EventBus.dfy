/** The event bus (src/event_bus.cpp): three deferred queues, their bounded round-robin drain, and
    immediate dispatch. Handlers do not call back into the bus. */
module EventBus {
  datatype Priority = High | Normal | Low

  datatype OverflowPolicy = DropNewest | FailFast | BackpressureSignaling

  datatype DeferredEvent = DeferredEvent(eventType: string, priority: Priority, sequence: nat)

  datatype HandlerEntry = HandlerEntry(id: nat, monitor: bool, sequence: nat)

  datatype Queues = Queues(high: seq<DeferredEvent>, normal: seq<DeferredEvent>, low: seq<DeferredEvent>)

  /** PushDeferred throws in fail-fast mode. */
  datatype PushResult = Accepted | Refused | Threw

  function Rank(c: Priority): nat {
    match c case High => 0 case Normal => 1 case Low => 2
  }

  function QueueOf(q: Queues, c: Priority): seq<DeferredEvent> {
    match c case High => q.high case Normal => q.normal case Low => q.low
  }

  function Total(q: Queues): nat {
    |q.high| + |q.normal| + |q.low|
  }

  function ByClass(s: seq<DeferredEvent>, c: Priority): seq<DeferredEvent> {
    if s == [] then []
    else ByClass(s[..|s| - 1], c) + if s[|s| - 1].priority == c then [s[|s| - 1]] else []
  }

  // ---------- the drain order ----------

  function Front(s: seq<DeferredEvent>): seq<DeferredEvent> {
    if s == [] then [] else [s[0]]
  }

  function Rest(s: seq<DeferredEvent>): seq<DeferredEvent> {
    if s == [] then [] else s[1..]
  }

  function Round(q: Queues): seq<DeferredEvent> {
    Front(q.high) + Front(q.normal) + Front(q.low)
  }

  function AfterRound(q: Queues): Queues {
    Queues(Rest(q.high), Rest(q.normal), Rest(q.low))
  }

  /** Rounds of one high, one normal and one low event, as long as there are any. */
  function Interleave(q: Queues): (r: seq<DeferredEvent>)
    ensures |r| == Total(q)
    decreases Total(q)
  {
    if Total(q) == 0 then [] else Round(q) + Interleave(AfterRound(q))
  }

  function Min(a: nat, b: nat): nat {
    if a <= b then a else b
  }

  /** How many events come before the one at index `i` of class `c`: in each queue those at smaller
      indices, and those at the same index in a class of higher priority. */
  function PositionOf(q: Queues, c: Priority, i: nat): nat {
    Position(|q.high|, |q.normal|, |q.low|, Rank(c), i)
  }

  function Position(high: nat, normal: nat, low: nat, rank: nat, i: nat): nat {
    Min(high, i + if 0 < rank then 1 else 0) + Min(normal, i + if 1 < rank then 1 else 0) + Min(low, i)
  }

  ghost predicate Sorted(q: Queues) {
    && (forall e :: e in q.high ==> e.priority == High)
    && (forall e :: e in q.normal ==> e.priority == Normal)
    && (forall e :: e in q.low ==> e.priority == Low)
  }

  // ---------- dispatch ----------

  /** The handlers that run and whether the event ends up consumed; monitors cannot change that. */
  function Dispatch(entries: seq<HandlerEntry>, consumes: nat -> bool): (seq<nat>, bool) {
    if entries == [] then ([], false)
    else
      var (ran, consumed) := Dispatch(entries[..|entries| - 1], consumes);
      var e := entries[|entries| - 1];
      if consumed && !e.monitor then (ran, consumed)
      else (ran + [e.id], consumed || (!e.monitor && consumes(e.id)))
  }

  /** In registration order, all before `next`. */
  ghost predicate InOrder(entries: seq<HandlerEntry>, next: nat) {
    && (forall i :: 0 <= i < |entries| ==> entries[i].sequence < next)
    && (forall i, j :: 0 <= i < j < |entries| ==> entries[i].sequence < entries[j].sequence)
  }

  // ---------- removal log ----------

  /** A deferred event that left the queues, by dispatch or by discard. */
  datatype Removal = Removal(event: DeferredEvent, dispatched: bool)

  function Events(log: seq<Removal>): seq<DeferredEvent> {
    if log == [] then [] else Events(log[..|log| - 1]) + [log[|log| - 1].event]
  }

  function Mark(events: seq<DeferredEvent>, dispatched: bool): (log: seq<Removal>)
    ensures |log| == |events|
  {
    if events == [] then [] else Mark(events[..|events| - 1], dispatched) + [Removal(events[|events| - 1], dispatched)]
  }

  /** The queues hold, class by class and in order, what was accepted and has not left. */
  ghost predicate Accounts(accepted: seq<DeferredEvent>, removed: seq<Removal>, q: Queues) {
    && (forall c :: ByClass(accepted, c) == ByClass(Events(removed), c) + QueueOf(q, c))
    && |accepted| == |removed| + Total(q)
    && forall i :: 0 <= i < |accepted| ==> accepted[i].sequence == i + 1
  }

  class EventBus {
    var queues: Queues
    var nextDeferredSequence: nat
    var deferredCapacity: nat
    var droppedDeferredCount: nat
    var overflowPolicy: OverflowPolicy
    var handlers: map<string, seq<HandlerEntry>>
    var nextHandlerId: nat
    var nextHandlerSequence: nat
    /** every accepted event, every event that left, and the number pending when the capacity was last set */
    ghost var accepted: seq<DeferredEvent>
    ghost var removed: seq<Removal>
    ghost var pendingAtSet: nat

    ghost predicate QueuesAgree()
      reads this`accepted, this`removed, this`queues, this`nextDeferredSequence
    {
      && Accounts(accepted, removed, queues)
      && Sorted(queues)
      && nextDeferredSequence == |accepted| + 1
    }

    ghost predicate QueuesOk()
      reads this
    {
      && QueuesAgree()
      && (Total(queues) <= deferredCapacity || Total(queues) <= pendingAtSet)
    }

    ghost predicate HandlersOk()
      reads this
    {
      forall t :: t in handlers ==> InOrder(handlers[t], nextHandlerSequence)
    }

    ghost predicate Valid()
      reads this
    {
      QueuesOk() && HandlersOk()
    }

    constructor ()
      ensures Valid() && Total(queues) == 0 && deferredCapacity == 1024 && overflowPolicy == DropNewest
    {
      queues, nextDeferredSequence := Queues([], [], []), 1;
      deferredCapacity, droppedDeferredCount, overflowPolicy := 1024, 0, DropNewest;
      handlers, nextHandlerId, nextHandlerSequence := map[], 1, 1;
      accepted, removed, pendingAtSet := [], [], 0;
    }

    /** src/event_bus.cpp:172-200 */
    method PushDeferred(eventType: string, priority: Priority) returns (r: PushResult)
      requires QueuesOk()
      modifies this`queues, this`nextDeferredSequence, this`droppedDeferredCount, this`accepted
      ensures QueuesOk()
      ensures r == Accepted <==> old(Total(queues)) < deferredCapacity
      ensures r == Threw <==> old(Total(queues)) >= deferredCapacity && overflowPolicy == FailFast
      ensures accepted == if r == Accepted
                          then old(accepted) + [DeferredEvent(eventType, priority, old(nextDeferredSequence))]
                          else old(accepted)
      ensures r != Accepted ==> queues == old(queues) && nextDeferredSequence == old(nextDeferredSequence)
      ensures droppedDeferredCount
           == old(droppedDeferredCount) + if r == Refused && overflowPolicy == DropNewest then 1 else 0
    {
      if Total(queues) >= deferredCapacity {
        if overflowPolicy == FailFast {
          return Threw;
        }
        if overflowPolicy == DropNewest {
          droppedDeferredCount := droppedDeferredCount + 1;
        }
        return Refused;
      }
      var event := DeferredEvent(eventType, priority, nextDeferredSequence);
      nextDeferredSequence := nextDeferredSequence + 1;
      AccountsPush(accepted, removed, queues, event);
      match priority {
        case High => queues := queues.(high := queues.high + [event]);
        case Normal => queues := queues.(normal := queues.normal + [event]);
        case Low => queues := queues.(low := queues.low + [event]);
      }
      accepted := accepted + [event];
      r := Accepted;
    }

    /** src/event_bus.cpp:103-110 */
    method Pop(events0: seq<DeferredEvent>, c: Priority, maxEvents: nat) returns (events: seq<DeferredEvent>)
      requires |events0| < maxEvents
      modifies this`queues
      ensures events == events0 + Front(QueueOf(old(queues), c)) && queues == PopFront(old(queues), c)
    {
      var queue := QueueOf(queues, c);
      if queue == [] || |events0| >= maxEvents {
        return events0;
      }
      events, queues := events0 + [queue[0]], PopFront(queues, c);
    }

    /** src/event_bus.cpp:112-127, one turn of the loop; `popped` is what this turn takes. */
    method PopRound(events0: seq<DeferredEvent>, maxEvents: nat)
      returns (events: seq<DeferredEvent>, ghost popped: seq<DeferredEvent>)
      requires |events0| < maxEvents
      modifies this`queues
      ensures events == events0 + popped && |events| <= maxEvents
      ensures PopsInTurn(old(queues), popped, queues)
      ensures |events| == maxEvents || (popped == Round(old(queues)) && queues == AfterRound(old(queues)))
    {
      events := Pop(events0, High, maxEvents);
      popped := Front(old(queues).high);
      if |events| >= maxEvents {
        return;
      }
      events := Pop(events, Normal, maxEvents);
      popped := popped + Front(old(queues).normal);
      if |events| >= maxEvents {
        return;
      }
      events := Pop(events, Low, maxEvents);
      popped := popped + Front(old(queues).low);
    }

    /** src/event_bus.cpp:98-128 */
    method Extract(maxEvents: nat) returns (events: seq<DeferredEvent>)
      requires Sorted(queues)
      modifies this`queues
      ensures events == Interleave(old(queues))[..Min(maxEvents, Total(old(queues)))]
      ensures Leaves(old(queues), events, queues)
    {
      events := [];
      ghost var all := Interleave(queues);
      LeavesNothing(queues);
      while |events| < maxEvents
        invariant events <= all && |events| <= maxEvents && Sorted(queues)
        invariant |events| == maxEvents || all == events + Interleave(queues)
        invariant Leaves(old(queues), events, queues)
        decreases Total(queues)
      {
        var before := |events|;
        ghost var q, e := queues, events;
        ghost var popped;
        events, popped := PopRound(events, maxEvents);
        TurnLeaves(q, popped, queues);
        LeavesTwice(old(queues), e, q, popped, queues);
        InterleaveStep(q, e, popped, all);
        if |events| == before {
          break;
        }
      }
    }

    /** src/event_bus.cpp:97-135; `consumes` says which handlers consume which event, and `ran` which ones saw it. */
    method DrainDeferred(maxEvents: nat, consumes: DeferredEvent -> nat -> bool)
      returns (count: nat, ghost events: seq<DeferredEvent>, ghost ran: seq<seq<nat>>)
      requires QueuesOk()
      modifies this`queues, this`removed
      ensures QueuesOk()
      ensures count == Min(maxEvents, Total(old(queues))) && events == Interleave(old(queues))[..count]
      ensures Leaves(old(queues), events, queues)
      ensures removed == old(removed) + Mark(events, true)
      ensures DispatchedInTurn(events, consumes, ran)
    {
      var extracted := Extract(maxEvents);
      AccountsRemove(accepted, removed, old(queues), queues, extracted, true);
      removed, events := removed + Mark(extracted, true), extracted;
      ran := DispatchEach(extracted, consumes);
      count := |extracted|;
    }

    function HandlersOf(eventType: string): seq<HandlerEntry>
      reads this
    {
      if eventType in handlers then handlers[eventType] else []
    }

    /** Event after event, `ran` lists the handlers that saw it. */
    ghost predicate DispatchedInTurn(events: seq<DeferredEvent>, consumes: DeferredEvent -> nat -> bool,
                                     ran: seq<seq<nat>>)
      reads this
    {
      && |ran| == |events|
      && forall i :: 0 <= i < |events| ==> ran[i] == Dispatch(HandlersOf(events[i].eventType), consumes(events[i])).0
    }

    /** src/event_bus.cpp:130-132 */
    method DispatchEach(events: seq<DeferredEvent>, consumes: DeferredEvent -> nat -> bool) returns (ran: seq<seq<nat>>)
      ensures DispatchedInTurn(events, consumes, ran)
    {
      ran := [];
      for i := 0 to |events|
        invariant |ran| == i
        invariant forall j :: 0 <= j < i ==> ran[j] == Dispatch(HandlersOf(events[j].eventType), consumes(events[j])).0
      {
        var seen, consumed := DispatchImmediate(events[i].eventType, consumes(events[i]));
        ran := ran + [seen];
      }
    }

    /** src/event_bus.cpp:137-148 */
    method DiscardDeferred() returns (total: nat)
      requires QueuesOk()
      modifies this`queues, this`removed
      ensures QueuesOk() && Total(queues) == 0 && total == Total(old(queues))
      ensures removed == old(removed) + Mark(old(queues).high + old(queues).normal + old(queues).low, false)
    {
      total := |queues.high| + |queues.normal| + |queues.low|;
      AllLeave(queues);
      AccountsRemove(accepted, removed, queues, Queues([], [], []), queues.high + queues.normal + queues.low, false);
      removed := removed + Mark(queues.high + queues.normal + queues.low, false);
      queues := Queues([], [], []);
    }

    /** src/event_bus.cpp:150-153 */
    method SetDeferredCapacity(capacity: nat)
      requires QueuesOk()
      modifies this`deferredCapacity, this`pendingAtSet
      ensures QueuesOk() && deferredCapacity == capacity && pendingAtSet == Total(queues)
    {
      deferredCapacity, pendingAtSet := capacity, Total(queues);
    }

    /** src/event_bus.cpp:155-158 */
    method SetDeferredOverflowPolicy(policy: OverflowPolicy)
      requires QueuesOk()
      modifies this`overflowPolicy
      ensures QueuesOk() && overflowPolicy == policy
    {
      overflowPolicy := policy;
    }

    /** src/event_bus.cpp:8-29 */
    method Subscribe(eventType: string, hasHandler: bool, monitor: bool) returns (id: nat)
      requires HandlersOk()
      modifies this`handlers, this`nextHandlerId, this`nextHandlerSequence
      ensures HandlersOk()
      ensures !hasHandler ==> id == 0 && handlers == old(handlers)
      ensures hasHandler ==>
                && id == old(nextHandlerId) && nextHandlerId == id + 1
                && handlers == old(handlers)[eventType := old(HandlersOf(eventType))
                                                          + [HandlerEntry(id, monitor, old(nextHandlerSequence))]]
    {
      if !hasHandler {
        return 0;
      }
      id := nextHandlerId;
      handlers := handlers[eventType := HandlersOf(eventType) + [HandlerEntry(id, monitor, nextHandlerSequence)]];
      nextHandlerId, nextHandlerSequence := nextHandlerId + 1, nextHandlerSequence + 1;
    }

    /** src/event_bus.cpp:57-84. The handlers of a type are stored in registration order already. */
    method DispatchImmediate(eventType: string, consumes: nat -> bool) returns (ran: seq<nat>, consumed: bool)
      ensures (ran, consumed) == Dispatch(HandlersOf(eventType), consumes)
    {
      var entries := HandlersOf(eventType);
      ran, consumed := [], false;
      for i := 0 to |entries|
        invariant (ran, consumed) == Dispatch(entries[..i], consumes)
      {
        var entry := entries[i];
        assert entries[..i + 1][..i] == entries[..i];
        if consumed && !entry.monitor {
          continue;
        }
        ran := ran + [entry.id];
        if !entry.monitor && consumes(entry.id) {
          consumed := true;
        }
      }
      assert entries[..|entries|] == entries;
    }
  }

  function PopFront(q: Queues, c: Priority): Queues {
    match c
    case High => q.(high := Rest(q.high))
    case Normal => q.(normal := Rest(q.normal))
    case Low => q.(low := Rest(q.low))
  }

  /** `events` left `q` from the front, class by class, and `q'` is what stayed. */
  ghost predicate Leaves(q: Queues, events: seq<DeferredEvent>, q': Queues) {
    && Total(q) == |events| + Total(q')
    && (forall c :: QueueOf(q, c) == ByClass(events, c) + QueueOf(q', c))
    && (Sorted(q) ==> Sorted(q'))
  }

  // ---------- bookkeeping lemmas ----------

  lemma {:induction false} ByClassAppend(a: seq<DeferredEvent>, b: seq<DeferredEvent>, c: Priority)
    ensures ByClass(a + b, c) == ByClass(a, c) + ByClass(b, c)
  {
    if b == [] {
      assert a + b == a;
    } else {
      assert (a + b)[..|a + b| - 1] == a + b[..|b| - 1];
      ByClassAppend(a, b[..|b| - 1], c);
    }
  }

  lemma {:induction false} ByClassUniform(s: seq<DeferredEvent>, c: Priority, d: Priority)
    requires forall e :: e in s ==> e.priority == d
    ensures ByClass(s, c) == if c == d then s else []
  {
    if s != [] {
      var before := s[..|s| - 1];
      assert s == before + [s[|s| - 1]];
      assert forall e :: e in before ==> e in s;
      ByClassUniform(before, c, d);
    }
  }

  lemma {:induction false} EventsAppend(a: seq<Removal>, b: seq<Removal>)
    ensures Events(a + b) == Events(a) + Events(b)
  {
    if b == [] {
      assert a + b == a;
    } else {
      assert (a + b)[..|a + b| - 1] == a + b[..|b| - 1];
      EventsAppend(a, b[..|b| - 1]);
    }
  }

  lemma {:induction false} EventsOfMark(events: seq<DeferredEvent>, dispatched: bool)
    ensures Events(Mark(events, dispatched)) == events
  {
    if events != [] {
      var n := |events| - 1;
      EventsOfMark(events[..n], dispatched);
      assert Mark(events, dispatched)[..n] == Mark(events[..n], dispatched);
    }
  }

  lemma AccountsPush(accepted: seq<DeferredEvent>, removed: seq<Removal>, q: Queues, e: DeferredEvent)
    requires Accounts(accepted, removed, q) && e.sequence == |accepted| + 1
    ensures Accounts(accepted + [e], removed, Push(q, e))
  {
    forall c ensures ByClass(accepted + [e], c) == ByClass(Events(removed), c) + QueueOf(Push(q, e), c) {
      PushClass(accepted, Events(removed), q, e, c);
    }
    PushTotal(q, e);
  }

  lemma PushClass(accepted: seq<DeferredEvent>, left: seq<DeferredEvent>, q: Queues, e: DeferredEvent, c: Priority)
    requires ByClass(accepted, c) == ByClass(left, c) + QueueOf(q, c)
    ensures ByClass(accepted + [e], c) == ByClass(left, c) + QueueOf(Push(q, e), c)
  {
    ByClassSnoc(accepted, e, c);
    PushQueue(q, e, c);
  }

  lemma ByClassSnoc(s: seq<DeferredEvent>, e: DeferredEvent, c: Priority)
    ensures ByClass(s + [e], c) == ByClass(s, c) + if e.priority == c then [e] else []
  {
    assert (s + [e])[..|s|] == s;
  }

  lemma PushQueue(q: Queues, e: DeferredEvent, c: Priority)
    ensures QueueOf(Push(q, e), c) == QueueOf(q, c) + if e.priority == c then [e] else []
  {
  }

  lemma PushTotal(q: Queues, e: DeferredEvent)
    ensures Total(Push(q, e)) == Total(q) + 1
  {
  }

  function Push(q: Queues, e: DeferredEvent): Queues {
    match e.priority
    case High => q.(high := q.high + [e])
    case Normal => q.(normal := q.normal + [e])
    case Low => q.(low := q.low + [e])
  }

  lemma Regroup<T>(x: seq<T>, a: seq<T>, y: seq<T>, b: seq<T>, z: seq<T>)
    requires x == a + y && y == b + z
    ensures x == (a + b) + z
  {
  }

  lemma AccountsRemove(accepted: seq<DeferredEvent>, removed: seq<Removal>, q: Queues, q': Queues,
                       events: seq<DeferredEvent>, dispatched: bool)
    requires Accounts(accepted, removed, q) && Leaves(q, events, q')
    ensures Accounts(accepted, removed + Mark(events, dispatched), q')
  {
    EventsAppend(removed, Mark(events, dispatched));
    EventsOfMark(events, dispatched);
    forall c ensures ByClass(accepted, c) == ByClass(Events(removed) + events, c) + QueueOf(q', c) {
      ByClassAppend(Events(removed), events, c);
      Regroup(ByClass(accepted, c), ByClass(Events(removed), c), QueueOf(q, c), ByClass(events, c), QueueOf(q', c));
    }
  }

  lemma LeavesNothing(q: Queues)
    ensures Leaves(q, [], q)
  {
  }

  lemma LeavesTwice(q: Queues, a: seq<DeferredEvent>, q': Queues, b: seq<DeferredEvent>, q'': Queues)
    requires Leaves(q, a, q') && Leaves(q', b, q'')
    ensures Leaves(q, a + b, q'')
  {
    forall c ensures QueueOf(q, c) == ByClass(a + b, c) + QueueOf(q'', c) {
      ByClassAppend(a, b, c);
      Regroup(QueueOf(q, c), ByClass(a, c), QueueOf(q', c), ByClass(b, c), QueueOf(q'', c));
    }
  }

  lemma PopLeavesClass(q: Queues, c: Priority, d: Priority)
    requires Sorted(q)
    ensures QueueOf(q, d) == ByClass(Front(QueueOf(q, c)), d) + QueueOf(PopFront(q, c), d)
  {
    FrontIsOfClass(q, c);
    ByClassUniform(Front(QueueOf(q, c)), d, c);
    PopFrontQueue(q, c, d);
    FrontThenRest(QueueOf(q, c));
  }

  lemma FrontIsOfClass(q: Queues, c: Priority)
    requires Sorted(q)
    ensures forall e :: e in Front(QueueOf(q, c)) ==> e.priority == c
  {
    forall e | e in Front(QueueOf(q, c)) ensures e.priority == c {
      assert e in QueueOf(q, c);
    }
  }

  lemma PopFrontQueue(q: Queues, c: Priority, d: Priority)
    ensures QueueOf(PopFront(q, c), d) == if c == d then Rest(QueueOf(q, c)) else QueueOf(q, d)
  {
  }

  lemma FrontThenRest(s: seq<DeferredEvent>)
    ensures s == Front(s) + Rest(s)
  {
  }

  lemma PopLeaves(q: Queues, c: Priority)
    requires Sorted(q)
    ensures Leaves(q, Front(QueueOf(q, c)), PopFront(q, c))
  {
    forall d ensures QueueOf(q, d) == ByClass(Front(QueueOf(q, c)), d) + QueueOf(PopFront(q, c), d) {
      PopLeavesClass(q, c, d);
    }
  }

  lemma TwoPopsLeave(q: Queues)
    requires Sorted(q)
    ensures Leaves(q, Front(q.high) + Front(q.normal), PopFront(PopFront(q, High), Normal))
  {
    var q1 := PopFront(q, High);
    PopLeaves(q, High);
    PopLeaves(q1, Normal);
    LeavesTwice(q, Front(q.high), q1, Front(q.normal), PopFront(q1, Normal));
  }

  lemma RoundLeaves(q: Queues)
    requires Sorted(q)
    ensures Leaves(q, Round(q), AfterRound(q))
  {
    var q2 := PopFront(PopFront(q, High), Normal);
    TwoPopsLeave(q);
    PopLeaves(q2, Low);
    LeavesTwice(q, Front(q.high) + Front(q.normal), q2, Front(q.low), PopFront(q2, Low));
  }

  /** A turn may end after any of its three pops. */
  ghost predicate PopsInTurn(q: Queues, popped: seq<DeferredEvent>, q': Queues) {
    || (popped == Front(q.high) && q' == PopFront(q, High))
    || (popped == Front(q.high) + Front(q.normal) && q' == PopFront(PopFront(q, High), Normal))
    || (popped == Round(q) && q' == AfterRound(q))
  }

  lemma TurnLeaves(q: Queues, popped: seq<DeferredEvent>, q': Queues)
    requires Sorted(q) && PopsInTurn(q, popped, q')
    ensures popped <= Round(q) && Leaves(q, popped, q')
  {
    if popped == Front(q.high) && q' == PopFront(q, High) {
      PopLeaves(q, High);
    } else if popped == Front(q.high) + Front(q.normal) && q' == PopFront(PopFront(q, High), Normal) {
      TwoPopsLeave(q);
    } else {
      RoundLeaves(q);
    }
  }

  lemma AllLeaveClass(q: Queues, c: Priority)
    requires Sorted(q)
    ensures QueueOf(q, c) == ByClass(q.high + q.normal + q.low, c)
  {
    ByClassAppend(q.high + q.normal, q.low, c);
    ByClassAppend(q.high, q.normal, c);
    ByClassUniform(q.high, c, High);
    ByClassUniform(q.normal, c, Normal);
    ByClassUniform(q.low, c, Low);
  }

  lemma AllLeave(q: Queues)
    requires Sorted(q)
    ensures Leaves(q, q.high + q.normal + q.low, Queues([], [], []))
  {
    forall c ensures QueueOf(q, c) == ByClass(q.high + q.normal + q.low, c) {
      AllLeaveClass(q, c);
    }
  }

  /** One turn of the drain keeps to the interleaving. */
  lemma InterleaveStep(q: Queues, e: seq<DeferredEvent>, popped: seq<DeferredEvent>, all: seq<DeferredEvent>)
    requires all == e + Interleave(q) && popped <= Round(q)
    ensures e + popped <= all
    ensures popped == Round(q) ==> all == e + popped + Interleave(AfterRound(q))
  {
    InterleaveUnfolds(q);
    PrefixOfConcat(e, popped, Round(q), Interleave(AfterRound(q)));
  }

  lemma InterleaveUnfolds(q: Queues)
    ensures Interleave(q) == Round(q) + Interleave(AfterRound(q))
  {
  }

  lemma PrefixOfConcat<T>(e: seq<T>, p: seq<T>, r: seq<T>, t: seq<T>)
    requires p <= r
    ensures e + p <= e + (r + t)
    ensures p == r ==> e + (r + t) == e + p + t
  {
  }
}
