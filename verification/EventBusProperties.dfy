/** What the event bus promises: the exact place of each event in a drain, first-in first-out within a class,
    and who sees an immediately dispatched event. */
module EventBusProperties {
  import opened EventBus

  // ---------- the place of an event in a full drain ----------

  function Pred(n: nat): nat {
    if n > 0 then n - 1 else 0
  }

  lemma PositionShifts(high: nat, normal: nat, low: nat, rank: nat, i: nat)
    requires i > 0
    ensures Position(high, normal, low, rank, i)
         == Min(high, 1) + Min(normal, 1) + Min(low, 1)
            + Position(Pred(high), Pred(normal), Pred(low), rank, i - 1)
  {
  }

  lemma RestIndex(q: Queues, c: Priority, i: nat)
    requires 0 < i < |QueueOf(q, c)|
    ensures |QueueOf(AfterRound(q), c)| == |QueueOf(q, c)| - 1
    ensures QueueOf(AfterRound(q), c)[i - 1] == QueueOf(q, c)[i]
    ensures PositionOf(q, c, i) == |Round(q)| + PositionOf(AfterRound(q), c, i - 1)
  {
    PositionShifts(|q.high|, |q.normal|, |q.low|, Rank(c), i);
    assert |Round(q)| == Min(|q.high|, 1) + Min(|q.normal|, 1) + Min(|q.low|, 1);
  }

  lemma InFirstRound(q: Queues, c: Priority)
    requires QueueOf(q, c) != []
    ensures PositionOf(q, c, 0) < |Round(q)| && Round(q)[PositionOf(q, c, 0)] == QueueOf(q, c)[0]
  {
  }

  /** The event at index `i` of its queue leaves after exactly the events with a smaller index, and those with the
      same index and a higher priority. */
  lemma {:induction false} EventPosition(q: Queues, c: Priority, i: nat)
    requires i < |QueueOf(q, c)|
    ensures PositionOf(q, c, i) < Total(q) && Interleave(q)[PositionOf(q, c, i)] == QueueOf(q, c)[i]
    decreases i
  {
    InterleaveUnfolds(q);
    if i == 0 {
      InFirstRound(q, c);
    } else {
      RestIndex(q, c, i);
      EventPosition(AfterRound(q), c, i - 1);
    }
  }

  lemma RoundAt(q: Queues, n: nat) returns (c: Priority)
    requires n < |Round(q)|
    ensures QueueOf(q, c) != [] && PositionOf(q, c, 0) == n
  {
    c := if q.high != [] && n == 0 then High
         else if q.normal != [] && n == (if q.high != [] then 1 else 0) then Normal
         else Low;
  }

  lemma AfterRoundIndex(q: Queues, c: Priority, j: nat)
    requires j < |QueueOf(AfterRound(q), c)|
    ensures j + 1 < |QueueOf(q, c)|
  {
  }

  /** Every place of a drain belongs to one event. */
  lemma {:induction false} EventAt(q: Queues, n: nat) returns (c: Priority, i: nat)
    requires n < Total(q)
    ensures i < |QueueOf(q, c)| && PositionOf(q, c, i) == n && Interleave(q)[n] == QueueOf(q, c)[i]
    decreases Total(q)
  {
    var r := |Round(q)|;
    if n < r {
      c := RoundAt(q, n);
      i := 0;
    } else {
      var j;
      c, j := EventAt(AfterRound(q), n - r);
      i := j + 1;
      AfterRoundIndex(q, c, j);
      RestIndex(q, c, i);
    }
    EventPosition(q, c, i);
  }

  /** A drain serves events by (index, class): what has the smaller index, or the same index and
      the higher priority, leaves first. */
  lemma DrainOrder(q: Queues, c: Priority, i: nat, d: Priority, j: nat)
    requires i < |QueueOf(q, c)| && j < |QueueOf(q, d)|
    ensures PositionOf(q, c, i) < PositionOf(q, d, j) <==> i < j || (i == j && Rank(c) < Rank(d))
  {
  }

  /** A drain of 3 * (i + 1) events reaches index `i` of every queue, so no class is starved. */
  lemma NoClassIsStarved(q: Queues, c: Priority, i: nat, maxEvents: nat)
    requires i < |QueueOf(q, c)| && maxEvents >= 3 * (i + 1)
    ensures QueueOf(q, c)[i] in Interleave(q)[..Min(maxEvents, Total(q))]
  {
    EventPosition(q, c, i);
    var n := PositionOf(q, c, i);
    assert Interleave(q)[..Min(maxEvents, Total(q))][n] == QueueOf(q, c)[i];
  }

  // ---------- strict priority ----------

  ghost predicate ByPriority(s: seq<DeferredEvent>) {
    forall i, j :: 0 <= i < j < |s| ==> Rank(s[i].priority) <= Rank(s[j].priority)
  }

  /** The second event of class `c` leaves among the first `n`, after one of a lower class. */
  predicate Overtaken(q: Queues, c: Priority, n: nat) {
    && |QueueOf(q, c)| >= 2 && PositionOf(q, c, 1) < n
    && ((q.low != [] && c != Low) || (q.normal != [] && c == High))
  }

  /** docs/event-input-semantics.md promises that higher classes drain before lower ones. The code serves the
      classes in turn instead, and keeps that promise exactly when no class but the lowest pending one
      gets to its second event. */
  lemma DrainIsByPriorityExactlyWhen(q: Queues, n: nat)
    requires Sorted(q) && n <= Total(q)
    ensures ByPriority(Interleave(q)[..n]) <==> !Overtaken(q, High, n) && !Overtaken(q, Normal, n)
  {
    if Overtaken(q, High, n) {
      OvertakenBreaksPriority(q, High, n);
    }
    if Overtaken(q, Normal, n) {
      OvertakenBreaksPriority(q, Normal, n);
    }
    if !Overtaken(q, High, n) && !Overtaken(q, Normal, n) {
      forall a, b | 0 <= a < b < n ensures Rank(Interleave(q)[a].priority) <= Rank(Interleave(q)[b].priority) {
        NotOvertakenKeepsPriority(q, n, a, b);
      }
    }
  }

  lemma OvertakenBreaksPriority(q: Queues, c: Priority, n: nat)
    requires Sorted(q) && n <= Total(q) && Overtaken(q, c, n)
    ensures !ByPriority(Interleave(q)[..n])
  {
    var d := if q.low != [] then Low else Normal;
    EventPosition(q, c, 1);
    EventPosition(q, d, 0);
    DrainOrder(q, d, 0, c, 1);
    var s := Interleave(q)[..n];
    var a, b := PositionOf(q, d, 0), PositionOf(q, c, 1);
    ClassOf(q, d, 0);
    ClassOf(q, c, 1);
    assert s[a].priority == d && s[b].priority == c;
  }

  lemma ClassOf(q: Queues, c: Priority, i: nat)
    requires Sorted(q) && i < |QueueOf(q, c)|
    ensures QueueOf(q, c)[i].priority == c
  {
    assert QueueOf(q, c)[i] in QueueOf(q, c);
  }

  lemma NotOvertakenKeepsPriority(q: Queues, n: nat, a: nat, b: nat)
    requires Sorted(q) && n <= Total(q) && a < b < n
    requires !Overtaken(q, High, n) && !Overtaken(q, Normal, n)
    ensures Rank(Interleave(q)[a].priority) <= Rank(Interleave(q)[b].priority)
  {
    var c, i := EventAt(q, a);
    var d, j := EventAt(q, b);
    ClassOf(q, c, i);
    ClassOf(q, d, j);
    DrainOrder(q, c, i, d, j);
    if Rank(d) < Rank(c) {
      DrainOrder(q, d, 1, d, j);
    }
  }

  /** Two high events and one normal one: the normal event leaves in between. */
  lemma StrictPriorityFails(h1: DeferredEvent, h2: DeferredEvent, m: DeferredEvent)
    requires h1.priority == h2.priority == High && m.priority == Normal
    ensures Interleave(Queues([h1, h2], [m], [])) == [h1, m, h2]
    ensures !ByPriority(Interleave(Queues([h1, h2], [m], [])))
  {
    var q := Queues([h1, h2], [m], []);
    EventPosition(q, High, 0);
    EventPosition(q, Normal, 0);
    EventPosition(q, High, 1);
    assert Rank(Interleave(q)[1].priority) > Rank(Interleave(q)[2].priority);
  }

  // ---------- first in, first out ----------

  ghost predicate Ascending(s: seq<DeferredEvent>) {
    forall i, j :: 0 <= i < j < |s| ==> s[i].sequence < s[j].sequence
  }

  lemma {:induction false} ByClassMembers(s: seq<DeferredEvent>, c: Priority)
    ensures forall e :: e in ByClass(s, c) ==> e in s && e.priority == c
  {
    if s != [] {
      ByClassMembers(s[..|s| - 1], c);
      assert s == s[..|s| - 1] + [s[|s| - 1]];
    }
  }

  lemma AscendingSnoc(s: seq<DeferredEvent>, x: DeferredEvent)
    requires Ascending(s) && forall e :: e in s ==> e.sequence < x.sequence
    ensures Ascending(s + [x])
  {
    assert forall i :: 0 <= i < |s| ==> s[i] in s;
  }

  lemma {:induction false} ByClassAscends(s: seq<DeferredEvent>, c: Priority)
    requires Ascending(s)
    ensures Ascending(ByClass(s, c))
  {
    if s != [] {
      var before, last := s[..|s| - 1], s[|s| - 1];
      ByClassAscends(before, c);
      ByClassMembers(before, c);
      forall e | e in before ensures e.sequence < last.sequence {
        var i :| 0 <= i < |before| && before[i] == e;
        assert s[i] == e;
      }
      AscendingSnoc(ByClass(before, c), last);
    }
  }

  lemma SliceAscends(a: seq<DeferredEvent>, b: seq<DeferredEvent>)
    requires Ascending(a + b)
    ensures Ascending(a) && Ascending(b)
    ensures forall i, j :: 0 <= i < |a| && 0 <= j < |b| ==> a[i].sequence < b[j].sequence
  {
    var s := a + b;
    forall i, j | 0 <= i < j < |b| ensures b[i].sequence < b[j].sequence {
      assert s[|a| + i].sequence < s[|a| + j].sequence;
    }
    forall i, j | 0 <= i < |a| && 0 <= j < |b| ensures a[i].sequence < b[j].sequence {
      assert s[i].sequence < s[|a| + j].sequence;
    }
    forall i, j | 0 <= i < j < |a| ensures a[i].sequence < a[j].sequence {
      assert s[i].sequence < s[j].sequence;
    }
  }

  /** Whatever was enqueued, drained, discarded or reconfigured: each class leaves in acceptance order, what is still
      queued was accepted later than what left, each queue has rising sequence numbers below the next one,
      accepted events are dispatched, discarded or pending, and no more are pending than the larger of the
      capacity and what was pending when it was set. */
  lemma ClassesAreFifo(bus: EventBus, c: Priority)
    requires bus.QueuesOk()
    ensures var left, queued := ByClass(Events(bus.removed), c), QueueOf(bus.queues, c);
            && ByClass(bus.accepted, c) == left + queued
            && Ascending(left) && Ascending(queued)
            && (forall i, j :: 0 <= i < |left| && 0 <= j < |queued| ==> left[i].sequence < queued[j].sequence)
            && (forall e :: e in queued ==> e.sequence < bus.nextDeferredSequence)
    ensures |bus.accepted| == |bus.removed| + Total(bus.queues)
    ensures Total(bus.queues)
         <= if bus.deferredCapacity >= bus.pendingAtSet then bus.deferredCapacity else bus.pendingAtSet
  {
    var left, queued := ByClass(Events(bus.removed), c), QueueOf(bus.queues, c);
    assert Ascending(bus.accepted);
    ByClassAscends(bus.accepted, c);
    ByClassMembers(bus.accepted, c);
    assert ByClass(bus.accepted, c) == left + queued;
    SliceAscends(left, queued);
    forall e | e in queued ensures e.sequence < bus.nextDeferredSequence {
      assert e in left + queued;
      assert e in bus.accepted;
    }
  }

  // ---------- immediate dispatch ----------

  ghost predicate ConsumedBefore(entries: seq<HandlerEntry>, consumes: nat -> bool, n: nat) {
    exists k :: 0 <= k < n && k < |entries| && !entries[k].monitor && consumes(entries[k].id)
  }

  function Ran(entries: seq<HandlerEntry>, consumes: nat -> bool): seq<nat> {
    Dispatch(entries, consumes).0
  }

  /** The handler at position `n` is a monitor, or nobody before it consumed the event. */
  ghost predicate Sees(entries: seq<HandlerEntry>, consumes: nat -> bool, n: int)
    requires 0 <= n < |entries|
  {
    entries[n].monitor || !ConsumedBefore(entries, consumes, n)
  }

  ghost predicate Rising(s: seq<nat>) {
    forall i, j :: 0 <= i < j < |s| ==> s[i] < s[j]
  }

  /** `at` are, in order, the positions of the handlers that see the event. */
  ghost predicate SeenAt(entries: seq<HandlerEntry>, consumes: nat -> bool, at: seq<nat>) {
    && Rising(at)
    && forall n :: n in at <==> 0 <= n < |entries| && Sees(entries, consumes, n)
  }

  ghost predicate IdsAt(entries: seq<HandlerEntry>, at: seq<nat>, ids: seq<nat>) {
    && |ids| == |at|
    && forall k :: 0 <= k < |at| ==> at[k] < |entries| && ids[k] == entries[at[k]].id
  }

  lemma ConsumedPrefix(entries: seq<HandlerEntry>, consumes: nat -> bool, n: nat)
    requires entries != [] && n < |entries|
    ensures ConsumedBefore(entries[..|entries| - 1], consumes, n) <==> ConsumedBefore(entries, consumes, n)
  {
    var before := entries[..|entries| - 1];
    assert forall k :: 0 <= k < |before| ==> before[k] == entries[k];
  }

  /** The event ends up consumed exactly when some handler that is no monitor consumes it; and handlers run one after
      the other in registration order, monitors always, the others only as long as nobody consumed the event. */
  lemma {:induction false} WhoSeesAnEvent(entries: seq<HandlerEntry>, consumes: nat -> bool) returns (at: seq<nat>)
    ensures Dispatch(entries, consumes).1 <==> ConsumedBefore(entries, consumes, |entries|)
    ensures SeenAt(entries, consumes, at) && IdsAt(entries, at, Ran(entries, consumes))
  {
    if entries == [] {
      at := [];
    } else {
      var before, n := entries[..|entries| - 1], |entries| - 1;
      var earlier := WhoSeesAnEvent(before, consumes);
      ConsumedPrefix(entries, consumes, n);
      at := earlier + if Sees(entries, consumes, n) then [n] else [];
      SeenExtends(entries, consumes, earlier);
      IdsExtend(entries, earlier, Ran(before, consumes), n);
    }
  }

  lemma SeenExtends(entries: seq<HandlerEntry>, consumes: nat -> bool, earlier: seq<nat>)
    requires entries != [] && SeenAt(entries[..|entries| - 1], consumes, earlier)
    ensures var n := |entries| - 1;
            SeenAt(entries, consumes, earlier + if Sees(entries, consumes, n) then [n] else [])
  {
    var before, n := entries[..|entries| - 1], |entries| - 1;
    forall m | 0 <= m < n ensures Sees(before, consumes, m) <==> Sees(entries, consumes, m) {
      ConsumedPrefix(entries, consumes, m);
    }
    assert forall k :: 0 <= k < |earlier| ==> earlier[k] in earlier;
  }

  lemma IdsExtend(entries: seq<HandlerEntry>, at: seq<nat>, ids: seq<nat>, n: nat)
    requires n == |entries| - 1 && IdsAt(entries[..n], at, ids)
    ensures IdsAt(entries, at, ids) && IdsAt(entries, at + [n], ids + [entries[n].id])
  {
  }

  /** So a handler runs exactly when it is registered at a position that sees the event. */
  lemma RunsExactlyWhen(entries: seq<HandlerEntry>, consumes: nat -> bool, id: nat)
    ensures id in Ran(entries, consumes) <==>
              exists n :: 0 <= n < |entries| && entries[n].id == id && Sees(entries, consumes, n)
  {
    var at := WhoSeesAnEvent(entries, consumes);
    if n :| 0 <= n < |entries| && entries[n].id == id && Sees(entries, consumes, n) {
      assert n in at;
      var k :| 0 <= k < |at| && at[k] == n;
      assert Ran(entries, consumes)[k] == id;
    }
    if id in Ran(entries, consumes) {
      var k :| 0 <= k < |at| && Ran(entries, consumes)[k] == id;
      assert at[k] in at;
    }
  }
}
