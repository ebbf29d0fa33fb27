/** The keyed table behind both the service context (include/framekit/service/context.hpp:40-239) and the
    execution service registry (include/framekit/service/execution.hpp:273-461). Keys are of any type. */
module ServiceTable {
  import opened Sequences

  /** `Closing` stands for the context's teardown phase and for the registry's shutting-down phase. */
  datatype Phase = Open | Frozen | Closing

  datatype Ownership = ContextOwned | ExternalOwned

  datatype Entry = Entry(ownership: Ownership, sequence: nat)

  datatype Registration<K> = Registration(key: K, hasService: bool, ownership: Ownership, replaceExisting: bool)

  type Entries<K(==)> = map<K, Entry>

  // ---------- what a history of registrations amounts to ----------

  predicate Accepts<K(==)>(entries: Entries<K>, r: Registration<K>) {
    r.hasService && (r.key in entries ==> r.replaceExisting)
  }

  /** A replacement keeps the sequence number of the first registration. */
  function Add<K(==)>(entries: Entries<K>, next: nat, r: Registration<K>): Entries<K> {
    if !Accepts(entries, r) then entries
    else entries[r.key := Entry(r.ownership, if r.key in entries then entries[r.key].sequence else next)]
  }

  function AddAll<K(==)>(history: seq<Registration<K>>): Entries<K> {
    if history == [] then map[]
    else
      var before := history[..|history| - 1];
      Add(AddAll(before), |FirstRegistered(before)|, history[|history| - 1])
  }

  /** The keys in the order in which each was registered for the first time. */
  function FirstRegistered<K(==)>(history: seq<Registration<K>>): seq<K> {
    if history == [] then []
    else
      var before, r := FirstRegistered(history[..|history| - 1]), history[|history| - 1];
      if r.hasService && r.key !in before then before + [r.key] else before
  }

  function OwnedOnly<K(==)>(keys: seq<K>, entries: Entries<K>): seq<K> {
    if keys == [] then []
    else
      var before, k := OwnedOnly(keys[..|keys| - 1], entries), keys[|keys| - 1];
      if k in entries && entries[k].ownership == ContextOwned then before + [k] else before
  }

  // ---------- teardown order ----------

  ghost predicate DistinctSequences<K(!new)>(entries: Entries<K>, next: nat) {
    && (forall k :: k in entries ==> entries[k].sequence < next)
    && (forall k, l :: k in entries && l in entries && entries[k].sequence == entries[l].sequence ==> k == l)
  }

  ghost predicate Descending<K>(entries: Entries<K>, order: seq<K>) {
    && (forall i :: 0 <= i < |order| ==> order[i] in entries)
    && (forall i, j :: 0 <= i < j < |order| ==> entries[order[i]].sequence > entries[order[j]].sequence)
  }

  ghost function OwnedKeys<K>(entries: Entries<K>): set<K> {
    set k | k in entries && entries[k].ownership == ContextOwned
  }

  /** Each context-owned key once, latest first registration first. */
  ghost predicate IsTeardownOrder<K>(entries: Entries<K>, order: seq<K>) {
    Descending(entries, order) && Elements(order) == OwnedKeys(entries)
  }

  /** std::sort by falling sequence number */
  function SortDescending<K(==)>(entries: Entries<K>, keys: seq<K>): (r: seq<K>)
    requires forall k :: k in keys ==> k in entries
    ensures multiset(r) == multiset(keys)
  {
    if keys == [] then []
    else
      assert keys == [keys[0]] + keys[1..];
      Insert(entries, keys[0], SortDescending(entries, keys[1..]))
  }

  function Insert<K(==)>(entries: Entries<K>, k: K, sorted: seq<K>): (r: seq<K>)
    requires k in entries
    requires forall x :: x in multiset(sorted) ==> x in entries
    ensures multiset(r) == multiset(sorted) + multiset{k}
  {
    if sorted == [] then [k]
    else
      assert sorted == [sorted[0]] + sorted[1..];
      assert sorted[0] in multiset(sorted);
      if entries[k].sequence > entries[sorted[0]].sequence then [k] + sorted
      else [sorted[0]] + Insert(entries, k, sorted[1..])
  }

  lemma InsertMembers<K>(entries: Entries<K>, k: K, sorted: seq<K>)
    requires k in entries && forall x :: x in multiset(sorted) ==> x in entries
    ensures forall x :: x in Insert(entries, k, sorted) <==> x == k || x in sorted
  {
    forall x ensures x in Insert(entries, k, sorted) <==> x == k || x in sorted {
      assert x in Insert(entries, k, sorted) <==> x in multiset(Insert(entries, k, sorted));
      assert x in sorted <==> x in multiset(sorted);
    }
  }

  lemma DescendingTail<K>(entries: Entries<K>, k: K, rest: seq<K>)
    requires Descending(entries, [k] + rest)
    ensures k in entries && Descending(entries, rest)
    ensures forall x :: x in rest ==> x in entries && entries[k].sequence > entries[x].sequence
  {
    var s := [k] + rest;
    assert s[0] == k && forall i :: 0 <= i < |rest| ==> rest[i] == s[i + 1];
  }

  lemma DescendingCons<K>(entries: Entries<K>, k: K, rest: seq<K>)
    ensures Descending(entries, [k] + rest) <==>
            && k in entries && Descending(entries, rest)
            && forall x :: x in rest ==> entries[k].sequence > entries[x].sequence
  {
    if Descending(entries, [k] + rest) {
      DescendingTail(entries, k, rest);
    }
  }

  lemma {:induction false} InsertDescending<K(!new)>(entries: Entries<K>, next: nat, k: K, sorted: seq<K>)
    requires DistinctSequences(entries, next)
    requires k in entries && k !in sorted && Descending(entries, sorted)
    requires forall x :: x in multiset(sorted) ==> x in entries
    ensures Descending(entries, Insert(entries, k, sorted))
  {
    if sorted == [] {
    } else {
      var rest := sorted[1..];
      assert sorted == [sorted[0]] + rest;
      DescendingCons(entries, sorted[0], rest);
      if entries[k].sequence > entries[sorted[0]].sequence {
        DescendingCons(entries, k, sorted);
      } else {
        InsertDescending(entries, next, k, rest);
        InsertMembers(entries, k, rest);
        DescendingCons(entries, sorted[0], Insert(entries, k, rest));
      }
    }
  }

  lemma SortMember<K>(entries: Entries<K>, keys: seq<K>, x: K)
    requires forall k :: k in keys ==> k in entries
    ensures x in SortDescending(entries, keys) <==> x in keys
  {
    var r := SortDescending(entries, keys);
    assert multiset(r)[x] == multiset(keys)[x];
    assert x in r <==> multiset(r)[x] > 0;
    assert x in keys <==> multiset(keys)[x] > 0;
  }

  lemma SortMembers<K>(entries: Entries<K>, keys: seq<K>)
    requires forall k :: k in keys ==> k in entries
    ensures Elements(SortDescending(entries, keys)) == Elements(keys)
  {
    var r := SortDescending(entries, keys);
    forall x ensures x in r <==> x in keys {
      SortMember(entries, keys, x);
    }
    assert forall x :: x in Elements(r) <==> x in r;
    assert Elements(r) == Elements(keys);
  }

  lemma {:induction false} SortIsDescending<K(!new)>(entries: Entries<K>, next: nat, keys: seq<K>)
    requires DistinctSequences(entries, next) && NoDup(keys)
    requires forall k :: k in keys ==> k in entries
    ensures Descending(entries, SortDescending(entries, keys))
  {
    if keys != [] {
      var rest := keys[1..];
      SortIsDescending(entries, next, rest);
      SortMember(entries, rest, keys[0]);
      InsertDescending(entries, next, keys[0], SortDescending(entries, rest));
    }
  }

  /** The order is determined by the entries alone, in whatever order a hash map lists them. */
  lemma {:induction false} TeardownOrderIsUnique<K>(entries: Entries<K>, a: seq<K>, b: seq<K>)
    requires Descending(entries, a) && Descending(entries, b) && Elements(a) == Elements(b)
    ensures a == b
  {
    assert b != [] ==> b[0] in Elements(b);
    if a != [] {
      assert a[0] in Elements(a) && a[0] in Elements(b);
      assert b[0] in Elements(b) && b[0] in Elements(a);
      assert a == [a[0]] + a[1..] && b == [b[0]] + b[1..];
      DescendingCons(entries, a[0], a[1..]);
      DescendingCons(entries, b[0], b[1..]);
      assert a[0] == b[0];
      forall x ensures x in Elements(a[1..]) <==> x in Elements(b[1..]) {
        assert x in Elements(a) <==> x == a[0] || x in a[1..];
        assert x in Elements(b) <==> x == b[0] || x in b[1..];
      }
      TeardownOrderIsUnique(entries, a[1..], b[1..]);
    }
  }

  // ---------- histories ----------

  /** After any history the entries are those registered, numbered in first-registration order. */
  lemma {:induction false} HistoryInvariant<K(!new)>(history: seq<Registration<K>>)
    ensures NoDup(FirstRegistered(history))
    ensures AddAll(history).Keys == Elements(FirstRegistered(history))
    ensures forall i :: 0 <= i < |FirstRegistered(history)| ==>
              FirstRegistered(history)[i] in AddAll(history)
              && AddAll(history)[FirstRegistered(history)[i]].sequence == i
  {
    if history != [] {
      HistoryInvariant(history[..|history| - 1]);
    }
  }

  lemma HistoryExtends<K(!new)>(history: seq<Registration<K>>, r: Registration<K>)
    requires AddAll(history).Keys == Elements(FirstRegistered(history))
    ensures AddAll(history + [r]) == Add(AddAll(history), |FirstRegistered(history)|, r)
    ensures |FirstRegistered(history + [r])|
         == |FirstRegistered(history)| + if r.hasService && r.key !in AddAll(history) then 1 else 0
  {
    assert (history + [r])[..|history|] == history;
    assert r.key in AddAll(history) <==> r.key in Elements(FirstRegistered(history));
  }

  lemma HistoryIsDistinct<K(!new)>(history: seq<Registration<K>>)
    ensures DistinctSequences(AddAll(history), |FirstRegistered(history)|)
  {
    HistoryInvariant(history);
    var firsts, entries := FirstRegistered(history), AddAll(history);
    forall k | k in entries ensures 0 <= entries[k].sequence < |firsts| && firsts[entries[k].sequence] == k {
      assert k in Elements(firsts);
      var i :| 0 <= i < |firsts| && firsts[i] == k;
    }
  }

  lemma {:induction false} OwnedOnlyMembers<K>(keys: seq<K>, entries: Entries<K>)
    ensures forall k :: k in OwnedOnly(keys, entries) <==>
              k in keys && k in entries && entries[k].ownership == ContextOwned
  {
    if keys != [] {
      OwnedOnlyMembers(keys[..|keys| - 1], entries);
      assert keys == keys[..|keys| - 1] + [keys[|keys| - 1]];
    }
  }

  lemma {:induction false} OwnedReversedDescends<K>(keys: seq<K>, entries: Entries<K>)
    requires forall i :: 0 <= i < |keys| ==> keys[i] in entries && entries[keys[i]].sequence == i
    ensures Descending(entries, Reverse(OwnedOnly(keys, entries)))
  {
    if keys != [] {
      var before, k := keys[..|keys| - 1], keys[|keys| - 1];
      OwnedReversedDescends(before, entries);
      if entries[k].ownership == ContextOwned {
        var owned := OwnedOnly(before, entries);
        ReverseAppend(owned, k);
        OwnedOnlyMembers(before, entries);
        forall x | x in Reverse(owned) ensures x in entries && entries[k].sequence > entries[x].sequence {
          var j :| 0 <= j < |owned| && Reverse(owned)[j] == x;
          assert owned[|owned| - 1 - j] == x && x in owned && x in before;
        }
        DescendingCons(entries, k, Reverse(owned));
      }
    }
  }

  /** Whatever was registered and replaced before, teardown visits the context-owned keys
      in reverse order of their first registration. */
  lemma TeardownReversesFirstRegistration<K(!new)>(history: seq<Registration<K>>, order: seq<K>)
    requires IsTeardownOrder(AddAll(history), order)
    ensures order == Reverse(OwnedOnly(FirstRegistered(history), AddAll(history)))
  {
    var firsts, entries := FirstRegistered(history), AddAll(history);
    var expected := Reverse(OwnedOnly(firsts, entries));
    HistoryInvariant(history);
    OwnedReversedDescends(firsts, entries);
    OwnedOnlyMembers(firsts, entries);
    forall x ensures x in expected <==> x in OwnedKeys(entries) {
      ReverseMembers(OwnedOnly(firsts, entries), x);
      assert x in firsts <==> x in Elements(firsts);
    }
    TeardownOrderIsUnique(entries, order, expected);
  }

  lemma TeardownMembers<K>(entries: Entries<K>, order: seq<K>)
    requires IsTeardownOrder(entries, order)
    ensures NoDup(order)
    ensures forall k :: k in order <==> k in entries && entries[k].ownership == ContextOwned
  {
    assert forall k :: k in order <==> k in Elements(order);
  }

  lemma SortedIsTeardownOrder<K(!new)>(history: seq<Registration<K>>, keys: seq<K>)
    requires NoDup(keys) && Elements(keys) == OwnedKeys(AddAll(history))
    requires forall k :: k in keys ==> k in AddAll(history)
    ensures var order := SortDescending(AddAll(history), keys);
            && IsTeardownOrder(AddAll(history), order)
            && order == Reverse(OwnedOnly(FirstRegistered(history), AddAll(history)))
  {
    HistoryIsDistinct(history);
    SortIsDescending(AddAll(history), |FirstRegistered(history)|, keys);
    SortMembers(AddAll(history), keys);
    TeardownReversesFirstRegistration(history, SortDescending(AddAll(history), keys));
  }

  // ---------- histories, spelled out ----------

  predicate IsAttempt<K(==)>(history: seq<Registration<K>>, key: K, n: int) {
    0 <= n < |history| && history[n].key == key && history[n].hasService
  }

  /** At position `n` the key is registered for the first time. */
  ghost predicate FirstAttempt<K>(history: seq<Registration<K>>, key: K, n: int) {
    IsAttempt(history, key, n) && forall m :: 0 <= m < n ==> !IsAttempt(history, key, m)
  }

  /** The registration at `n` is let in: it is the first of its key, or may replace. */
  ghost predicate Takes<K>(history: seq<Registration<K>>, key: K, n: int) {
    IsAttempt(history, key, n) && (FirstAttempt(history, key, n) || history[n].replaceExisting)
  }

  lemma AttemptPrefix<K>(history: seq<Registration<K>>, key: K, n: int)
    requires history != [] && n < |history| - 1
    ensures IsAttempt(history[..|history| - 1], key, n) <==> IsAttempt(history, key, n)
    ensures FirstAttempt(history[..|history| - 1], key, n) <==> FirstAttempt(history, key, n)
    ensures Takes(history[..|history| - 1], key, n) <==> Takes(history, key, n)
  {
    var before := history[..|history| - 1];
    assert forall m :: m < |before| ==> (IsAttempt(before, key, m) <==> IsAttempt(history, key, m));
  }

  ghost predicate Attempted<K>(history: seq<Registration<K>>, key: K) {
    exists n :: IsAttempt(history, key, n)
  }

  lemma {:induction false} FirstRegisteredMembers<K>(history: seq<Registration<K>>, key: K)
    ensures key in FirstRegistered(history) <==> Attempted(history, key)
  {
    if history != [] {
      var before, last := history[..|history| - 1], |history| - 1;
      FirstRegisteredMembers(before, key);
      if n :| IsAttempt(before, key, n) {
        assert IsAttempt(history, key, n);
      }
      if n :| IsAttempt(history, key, n) {
        if n < last {
          assert IsAttempt(before, key, n);
        }
      }
      if history[last].key == key && history[last].hasService {
        assert IsAttempt(history, key, last);
      }
    }
  }

  /** Keys are listed by when each was registered for the first time. */
  lemma {:induction false} FirstRegisteredInOrder<K>(history: seq<Registration<K>>, i: nat, j: nat, m: nat, n: nat)
    requires i < j < |FirstRegistered(history)|
    requires FirstAttempt(history, FirstRegistered(history)[i], m)
    requires FirstAttempt(history, FirstRegistered(history)[j], n)
    ensures m < n
  {
    var before, last := history[..|history| - 1], |history| - 1;
    var firsts := FirstRegistered(before);
    var key := FirstRegistered(history)[i];
    assert key == firsts[i] && key in firsts;
    FirstRegisteredMembers(before, key);
    AttemptedBefore(history, key, m);
    if j < |firsts| {
      assert firsts[j] in firsts;
      FirstRegisteredMembers(before, firsts[j]);
      AttemptedBefore(history, firsts[j], n);
      FirstRegisteredInOrder(before, i, j, m, n);
    } else {
      FirstRegisteredMembers(before, history[last].key);
      FirstAttemptIsNew(history, history[last].key, n);
    }
  }

  lemma AttemptedBefore<K>(history: seq<Registration<K>>, key: K, m: nat)
    requires history != [] && FirstAttempt(history, key, m) && Attempted(history[..|history| - 1], key)
    ensures m < |history| - 1 && FirstAttempt(history[..|history| - 1], key, m)
  {
    var n :| IsAttempt(history[..|history| - 1], key, n);
    assert IsAttempt(history, key, n);
    AttemptPrefix(history, key, m);
  }

  lemma FirstAttemptIsNew<K>(history: seq<Registration<K>>, key: K, n: nat)
    requires FirstAttempt(history, key, n) && !Attempted(history[..|history| - 1], key)
    ensures n == |history| - 1
  {
    var before := history[..|history| - 1];
    assert IsAttempt(before, key, n) ==> Attempted(before, key);
    assert n < |before| ==> IsAttempt(before, key, n);
  }

  /** Teardown takes down what was registered for the first time later before what was registered earlier. */
  lemma TeardownGoesBackwards<K(!new)>(history: seq<Registration<K>>, order: seq<K>, i: nat, j: nat, m: nat, n: nat)
    requires IsTeardownOrder(AddAll(history), order) && i < j < |order|
    requires FirstAttempt(history, order[i], m) && FirstAttempt(history, order[j], n)
    ensures m > n
  {
    var firsts, entries := FirstRegistered(history), AddAll(history);
    HistoryInvariant(history);
    var a := SequenceOf(history, order[i]);
    var b := SequenceOf(history, order[j]);
    FirstRegisteredInOrder(history, b, a, n, m);
  }

  lemma SequenceOf<K(!new)>(history: seq<Registration<K>>, key: K) returns (i: nat)
    requires key in AddAll(history)
    ensures i < |FirstRegistered(history)| && FirstRegistered(history)[i] == key
    ensures AddAll(history)[key].sequence == i
  {
    HistoryInvariant(history);
    assert key in Elements(FirstRegistered(history));
    i :| 0 <= i < |FirstRegistered(history)| && FirstRegistered(history)[i] == key;
  }

  /** Who owns an entry is decided by the last registration of its key that was let in. */
  lemma {:induction false} LastTakenDecides<K(!new)>(history: seq<Registration<K>>, key: K, n: nat)
    requires Takes(history, key, n) && forall m :: n < m < |history| ==> !Takes(history, key, m)
    ensures key in AddAll(history) && AddAll(history)[key].ownership == history[n].ownership
  {
    var before, last := history[..|history| - 1], |history| - 1;
    KeysAreAttempted(before, history[last].key);
    if n < last {
      AttemptPrefix(history, key, n);
      forall m | n < m < |before| ensures !Takes(before, key, m) {
        AttemptPrefix(history, key, m);
      }
      LastTakenDecides(before, key, n);
      if history[last].key == key {
        assert IsAttempt(before, key, n);
        assert !Takes(history, key, last);
      }
    } else {
      LastTaken(history);
    }
  }

  lemma KeysAreAttempted<K(!new)>(history: seq<Registration<K>>, key: K)
    ensures key in AddAll(history) <==> Attempted(history, key)
  {
    HistoryInvariant(history);
    FirstRegisteredMembers(history, key);
    assert key in Elements(FirstRegistered(history)) <==> key in FirstRegistered(history);
  }

  lemma LastTaken<K(!new)>(history: seq<Registration<K>>)
    requires history != [] && Takes(history, history[|history| - 1].key, |history| - 1)
    ensures history[|history| - 1].key in AddAll(history)
    ensures AddAll(history)[history[|history| - 1].key].ownership == history[|history| - 1].ownership
  {
    var before, r := history[..|history| - 1], history[|history| - 1];
    KeysAreAttempted(before, r.key);
    if n :| IsAttempt(before, r.key, n) {
      assert IsAttempt(history, r.key, n);
    }
  }

  // ---------- the table ----------

  /** The loop of context.hpp:75-87 and execution.hpp:372-384; a hash map may list its entries in any order. */
  method SplitByOwnership<K(==, !new)>(entries: Entries<K>) returns (ordered: seq<K>, external: Entries<K>)
    ensures NoDup(ordered) && Elements(ordered) == OwnedKeys(entries)
    ensures forall k :: k in ordered ==> k in entries
    ensures external == map k | k in entries && entries[k].ownership == ExternalOwned :: entries[k]
  {
    ordered, external := [], map[];
    var todo := entries.Keys;
    while todo != {}
      invariant todo <= entries.Keys
      invariant NoDup(ordered)
      invariant forall k :: k in ordered <==> k in entries && k !in todo && entries[k].ownership == ContextOwned
      invariant external == map k | k in entries && k !in todo && entries[k].ownership == ExternalOwned :: entries[k]
      decreases todo
    {
      var k :| k in todo;
      if entries[k].ownership != ContextOwned {
        external := external[k := entries[k]];
      } else {
        ordered := ordered + [k];
      }
      todo := todo - {k};
    }
  }

  class Table<K(==, !new)> {
    var phase: Phase
    var freezeCount: nat
    var registrationSequence: nat
    var entries: Entries<K>
    var lastTeardownOrder: seq<K>
    /** the registrations attempted while open since the table was last emptied */
    ghost var history: seq<Registration<K>>

    ghost predicate Valid()
      reads this
    {
      if phase == Closing then forall k :: k in entries ==> entries[k].ownership == ExternalOwned
      else entries == AddAll(history) && registrationSequence == |FirstRegistered(history)|
    }

    constructor ()
      ensures Valid() && phase == Open && freezeCount == 0 && entries == map[] && history == []
    {
      phase, freezeCount, registrationSequence := Open, 0, 0;
      entries, lastTeardownOrder, history := map[], [], [];
    }

    /** context.hpp:42-51, execution.hpp:282-291 */
    method Freeze() returns (ok: bool)
      requires Valid()
      modifies this`phase, this`freezeCount
      ensures Valid()
      ensures ok <==> old(phase) == Open
      ensures phase == (if ok then Frozen else old(phase))
      ensures freezeCount == old(freezeCount) + if ok then 1 else 0
    {
      if phase != Open {
        return false;
      }
      phase, freezeCount := Frozen, freezeCount + 1;
      ok := true;
    }

    /** context.hpp:136-178, execution.hpp:298-335 */
    method Register(r: Registration<K>) returns (ok: bool)
      requires Valid()
      modifies this`entries, this`registrationSequence, this`history
      ensures Valid()
      ensures ok <==> phase == Open && r.hasService && (r.key in old(entries) ==> r.replaceExisting)
      ensures history == if phase == Open then old(history) + [r] else old(history)
      ensures entries ==
              if ok then
                old(entries)[r.key := Entry(r.ownership,
                                            if r.key in old(entries) then old(entries)[r.key].sequence
                                            else old(registrationSequence))]
              else old(entries)
      ensures registrationSequence == old(registrationSequence) + if ok && r.key !in old(entries) then 1 else 0
    {
      if !r.hasService {
        if phase == Open { RecordAttempt(r); }
        return false;
      }
      if phase != Open {
        return false;
      }
      RecordAttempt(r);
      if r.key in entries && !r.replaceExisting {
        return false;
      }
      var sequence := registrationSequence;
      if r.key !in entries {
        registrationSequence := registrationSequence + 1;
      } else {
        sequence := entries[r.key].sequence;
      }
      entries := entries[r.key := Entry(r.ownership, sequence)];
      ok := true;
    }

    ghost method RecordAttempt(r: Registration<K>)
      requires phase == Open && Valid()
      modifies this`history
      ensures history == old(history) + [r]
      ensures AddAll(history) == Add(entries, registrationSequence, r)
      ensures |FirstRegistered(history)|
           == registrationSequence + if r.hasService && r.key !in entries then 1 else 0
    {
      HistoryInvariant(history);
      HistoryExtends(history, r);
      history := history + [r];
    }

    /** context.hpp:53-107, execution.hpp:359-402 */
    method BeginTeardown() returns (ok: bool)
      requires Valid()
      modifies this`phase, this`entries, this`lastTeardownOrder
      ensures Valid() && ok && phase == Closing
      ensures old(phase) == Closing ==> entries == old(entries) && lastTeardownOrder == old(lastTeardownOrder)
      ensures old(phase) != Closing ==>
                && IsTeardownOrder(old(entries), lastTeardownOrder)
                && lastTeardownOrder == Reverse(OwnedOnly(FirstRegistered(history), AddAll(history)))
                && NoDup(lastTeardownOrder)
                && (forall k :: k in lastTeardownOrder <==>
                      k in old(entries) && old(entries)[k].ownership == ContextOwned)
                && entries == map k | k in old(entries) && old(entries)[k].ownership == ExternalOwned :: old(entries)[k]
    {
      if phase == Closing {
        return true;
      }
      phase := Closing;
      var ordered, external := SplitByOwnership(entries);
      SortedIsTeardownOrder(history, ordered);
      TeardownMembers(entries, SortDescending(entries, ordered));
      lastTeardownOrder := SortDescending(entries, ordered);
      entries := external;
      ok := true;
    }

    /** context.hpp:109-119, execution.hpp:418-428 */
    method ResetForNextStartCycle() returns (ok: bool)
      requires Valid()
      modifies this`phase, this`entries, this`registrationSequence, this`history
      ensures Valid()
      ensures ok <==> old(phase) != Frozen
      ensures ok ==> phase == Open && entries == map[] && history == []
      ensures !ok ==> phase == Frozen && entries == old(entries) && history == old(history)
    {
      if phase == Frozen {
        return false;
      }
      phase, entries, registrationSequence, history := Open, map[], 0, [];
      ok := true;
    }
  }

  datatype ServiceCall<K> = BeginCall(key: K) | AwaitCall(key: K)

  function BothCalls<K>(keys: seq<K>): seq<ServiceCall<K>> {
    if keys == [] then []
    else BothCalls(keys[..|keys| - 1]) + [BeginCall(keys[|keys| - 1]), AwaitCall(keys[|keys| - 1])]
  }

  /** execution.hpp:404-413: every listed service is told to shut down and awaited, even after one fails. */
  method ShutDownEach<K(==)>(ordered: seq<K>, begins: K -> bool, awaits: K -> bool)
    returns (ok: bool, ghost calls: seq<ServiceCall<K>>)
    ensures calls == BothCalls(ordered) && |calls| == 2 * |ordered|
    ensures forall i :: 0 <= i < |ordered| ==>
              calls[2 * i] == BeginCall(ordered[i]) && calls[2 * i + 1] == AwaitCall(ordered[i])
    ensures ok <==> forall k :: k in ordered ==> begins(k) && awaits(k)
  {
    ok, calls := true, [];
    for i := 0 to |ordered|
      invariant calls == BothCalls(ordered[..i])
      invariant ok <==> forall k :: k in ordered[..i] ==> begins(k) && awaits(k)
    {
      assert ordered[..i + 1] == ordered[..i] + [ordered[i]];
      ok := begins(ordered[i]) && ok;
      ok := awaits(ordered[i]) && ok;
      calls := calls + [BeginCall(ordered[i]), AwaitCall(ordered[i])];
    }
    assert ordered[..|ordered|] == ordered;
    BothCallsAt(ordered);
  }

  lemma {:induction false} BothCallsAt<K>(keys: seq<K>)
    ensures |BothCalls(keys)| == 2 * |keys|
    ensures forall i :: 0 <= i < |keys| ==>
              BothCalls(keys)[2 * i] == BeginCall(keys[i]) && BothCalls(keys)[2 * i + 1] == AwaitCall(keys[i])
  {
    if keys != [] {
      BothCallsAt(keys[..|keys| - 1]);
    }
  }

  /** execution.hpp:355-416 */
  method ShutDownRegistry<K(==, !new)>(table: Table<K>, begins: K -> bool, awaits: K -> bool)
    returns (ok: bool, ghost calls: seq<ServiceCall<K>>)
    requires table.Valid()
    modifies table
    ensures table.Valid() && table.phase == Closing
    ensures old(table.phase) == Closing ==> ok && calls == [] && table.entries == old(table.entries)
    ensures old(table.phase) != Closing ==>
              var order := Reverse(OwnedOnly(FirstRegistered(old(table.history)), AddAll(old(table.history))));
              && calls == BothCalls(order)
              && (ok <==> forall k :: k in order ==> begins(k) && awaits(k))
    ensures old(table.phase) != Closing ==>
              (ok <==> forall k :: k in old(table.entries) && old(table.entries)[k].ownership == ContextOwned ==>
                         begins(k) && awaits(k))
  {
    if table.phase == Closing {
      return true, [];
    }
    var begun := table.BeginTeardown();
    ok, calls := ShutDownEach(table.lastTeardownOrder, begins, awaits);
  }
}
