/** What multiplexed alarms promise over whole runs. */
module MuxAlarmProofs {
  import opened MuxAlarm

  // ----- the ledger -----

  /** An entry is removed or notified only while outstanding, so at most once
      per adding, and is never notified before it is due. */
  ghost predicate MayBook<Id(!new)>(open: set<Entry<Id>>, event: Event<Id>) {
    match event
    case Added(entry) => forall e | e in open :: e.id != entry.id
    case Removed(entry) => entry in open
    case Notified(entry, at) => entry in open && entry.due <= at
  }

  ghost function Book<Id(!new)>(open: set<Entry<Id>>, event: Event<Id>): set<Entry<Id>> {
    if event.Added? then open + {event.entry} else open - {event.entry}
  }

  /** The entries added and neither removed nor notified since. */
  ghost function Outstanding<Id(!new)>(log: seq<Event<Id>>): set<Entry<Id>> {
    if log == [] then {} else Book(Outstanding(log[..|log| - 1]), log[|log| - 1])
  }

  ghost predicate LedgerOk<Id(!new)>(log: seq<Event<Id>>) {
    forall i | 0 <= i < |log| :: MayBook(Outstanding(log[..i]), log[i])
  }

  ghost predicate Sorted<Id>(q: seq<Entry<Id>>) {
    forall i, j | 0 <= i < j < |q| :: q[i].due <= q[j].due
  }

  ghost predicate DistinctIds<Id>(q: seq<Entry<Id>>) {
    forall i, j | 0 <= i < j < |q| :: q[i].id != q[j].id
  }

  /** The order in which entries will be notified if nothing more happens. */
  ghost function Queue<Id>(m: Mux<Id>): seq<Entry<Id>> {
    m.firing + m.pending
  }

  ghost function Entries<Id(!new)>(q: seq<Entry<Id>>): set<Entry<Id>> {
    set e | e in q
  }

  ghost predicate Invariant<Id(!new)>(m: Mux<Id>) {
    && Sorted(m.pending)
    && Sorted(m.firing)
    && DistinctIds(Queue(m))
    && (forall e | e in m.firing :: e.due <= m.now)
    && LedgerOk(m.log)
    && Outstanding(m.log) == Entries(Queue(m))
  }

  // ----- list lemmas -----

  /** Where an inserted entry ends up: after all that are due no later, before
      all that are due later, everything else in its old order. */
  lemma {:induction false} InsertSplits<Id>(q: seq<Entry<Id>>, entry: Entry<Id>) returns (k: nat)
    requires Sorted(q)
    ensures k <= |q| && Insert(q, entry) == q[..k] + [entry] + q[k..]
    ensures forall i | 0 <= i < k :: q[i].due <= entry.due
    ensures forall i | k <= i < |q| :: entry.due < q[i].due
  {
    if q == [] || entry.due < q[0].due {
      k := 0;
    } else {
      var j := InsertSplits(q[1..], entry);
      k := j + 1;
      assert q[..k] == [q[0]] + q[1..][..j];
    }
  }

  lemma {:induction false} InsertSorted<Id>(q: seq<Entry<Id>>, entry: Entry<Id>)
    requires Sorted(q)
    ensures Sorted(Insert(q, entry))
  {
    var k := InsertSplits(q, entry);
  }

  lemma {:induction false} DueCountSplits<Id>(q: seq<Entry<Id>>, now: int)
    requires Sorted(q)
    ensures forall i | 0 <= i < |q| :: q[i].due <= now <==> i < DueCount(q, now)
  {
    if q != [] && q[0].due <= now {
      DueCountSplits(q[1..], now);
      forall i | 0 <= i < |q|
        ensures q[i].due <= now <==> i < DueCount(q, now)
      {
        if i > 0 {
          assert q[i] == q[1..][i - 1];
        }
      }
    }
  }

  lemma {:induction false} EntriesGrow<Id(!new)>(q: seq<Entry<Id>>, j: nat, entry: Entry<Id>)
    requires j <= |q| && DistinctIds(q) && entry.id !in Ids(q)
    ensures var r := q[..j] + [entry] + q[j..]; DistinctIds(r) && Entries(r) == Entries(q) + {entry}
    ensures forall e | e in q :: e.id != entry.id
  {
    forall i | 0 <= i < |q| ensures q[i].id != entry.id {
      assert Ids(q)[i] == q[i].id;
    }
    var r := q[..j] + [entry] + q[j..];
    assert forall i | 0 <= i < |r| :: r[i] == if i < j then q[i] else if i == j then entry else q[i - 1];
    assert forall e | e in q :: e in q[..j] || e in q[j..];
  }

  lemma {:induction false} EntryQueued<Id(!new)>(q: seq<Entry<Id>>, j: nat)
    requires j < |q|
    ensures q[j] in Entries(q)
  {
  }

  lemma {:induction false} EntriesShrink<Id(!new)>(q: seq<Entry<Id>>, j: nat)
    requires j < |q| && DistinctIds(q)
    ensures var r := q[..j] + q[j + 1..]; DistinctIds(r) && Entries(r) == Entries(q) - {q[j]}
  {
  }

  lemma {:induction false} SortedShrinks<Id>(q: seq<Entry<Id>>, k: nat)
    requires k <= |q| && Sorted(q)
    ensures Sorted(q[..k]) && Sorted(q[k..])
    ensures k < |q| ==> Sorted(q[..k] + q[k + 1..])
  {
  }

  /** Booking one more event. */
  lemma {:induction false} LedgerGrows<Id(!new)>(log: seq<Event<Id>>, event: Event<Id>)
    requires LedgerOk(log) && MayBook(Outstanding(log), event)
    ensures LedgerOk(log + [event])
    ensures Outstanding(log + [event]) == Book(Outstanding(log), event)
  {
    var l := log + [event];
    assert l[..|log|] == log;
    forall i | 0 <= i < |log| ensures l[..i] == log[..i] && l[i] == log[i] {
    }
  }

  /** Changing the pending list at `k` changes the queue at `|firing| + k`. */
  lemma {:induction false} QueueSplits<Id(!new)>(m: Mux<Id>, k: nat)
    requires k <= |m.pending|
    ensures var q, j := Queue(m), |m.firing| + k;
            && (forall entry :: m.firing + (m.pending[..k] + [entry] + m.pending[k..]) == q[..j] + [entry] + q[j..])
            && (k < |m.pending| ==>
                  m.firing + (m.pending[..k] + m.pending[k + 1..]) == q[..j] + q[j + 1..] && q[j] == m.pending[k])
  {
  }

  // ----- what every step keeps -----

  lemma {:induction false} StepInvariant<Id(!new)>(m: Mux<Id>, step: Step<Id>)
    requires Invariant(m) && Enabled(m, step)
    ensures Invariant(Apply(m, step))
  {
    match step
    case Advance(_) =>
    case Add(entry) => AddInvariant(m, entry);
    case Remove(id) => RemoveInvariant(m, id);
    case Collect => CollectInvariant(m);
    case Notify => NotifyInvariant(m);
  }

  lemma {:induction false} AddInvariant<Id(!new)>(m: Mux<Id>, entry: Entry<Id>)
    requires Invariant(m) && Enabled(m, Add(entry))
    ensures Invariant(Apply(m, Add(entry)))
  {
    hide LedgerOk, Outstanding, Insert, DistinctIds, Ids;
    var k := InsertSplits(m.pending, entry);
    QueueSplits(m, k);
    EntriesGrow(Queue(m), |m.firing| + k, entry);
    LedgerGrows(m.log, Added(entry));
  }

  lemma {:induction false} RemoveInvariant<Id(!new)>(m: Mux<Id>, id: Id)
    requires Invariant(m)
    ensures Invariant(Apply(m, Remove(id)))
  {
    hide LedgerOk, Outstanding, DistinctIds, Sorted, Entries;
    var k := Find(m.pending, id);
    if k < |m.pending| {
      SortedShrinks(m.pending, k);
      QueueSplits(m, k);
      var q, j := Queue(m), |m.firing| + k;
      EntriesShrink(q, j);
      EntryQueued(q, j);
      LedgerGrows(m.log, Removed(q[j]));
    }
  }

  /** Collecting moves the due prefix without changing the queue, and leaves no
      head that is due. */
  lemma {:induction false} CollectInvariant<Id(!new)>(m: Mux<Id>)
    requires Invariant(m) && Enabled(m, Collect)
    ensures Invariant(Apply(m, Collect)) && Queue(Apply(m, Collect)) == Queue(m)
    ensures forall e | e in Apply(m, Collect).pending :: m.now < e.due
  {
    hide LedgerOk, Outstanding, DistinctIds, Entries, Sorted;
    DueCountSplits(m.pending, m.now);
    var k := DueCount(m.pending, m.now);
    SortedShrinks(m.pending, k);
    assert m.pending == m.pending[..k] + m.pending[k..];
    assert Queue(Apply(m, Collect)) == Queue(m);
  }

  lemma {:induction false} NotifyInvariant<Id(!new)>(m: Mux<Id>)
    requires Invariant(m) && Enabled(m, Notify)
    ensures Invariant(Apply(m, Notify)) && Queue(Apply(m, Notify)) == Queue(m)[1..]
  {
    hide LedgerOk, Outstanding, DistinctIds;
    var q := Queue(m);
    EntriesShrink(q, 0);
    LedgerGrows(m.log, Notified(q[0], m.now));
    assert Queue(Apply(m, Notify)) == q[..0] + q[1..];
  }

  lemma {:induction false} RunInvariant<Id(!new)>(m: Mux<Id>, steps: seq<Step<Id>>)
    requires Invariant(m) && Runs(m, steps)
    ensures Invariant(After(m, steps))
    decreases |steps|
  {
    if steps != [] {
      StepInvariant(m, steps[0]);
      RunInvariant(Apply(m, steps[0]), steps[1..]);
    }
  }

  // ----- over whole runs -----

  /** From an empty shared alarm, every adding is at any time either waiting, or
      was settled exactly once: removed, or notified no earlier than it was due. */
  lemma {:induction false} EachAddingSettledOnce<Id(!new)>(m: Mux<Id>, steps: seq<Step<Id>>)
    requires m.pending == [] && m.firing == [] && m.log == [] && Runs(m, steps)
    ensures var n := After(m, steps);
            && LedgerOk(n.log)
            && Outstanding(n.log) == Entries(n.firing) + Entries(n.pending)
  {
    RunInvariant(m, steps);
    var n := After(m, steps);
    assert forall e | e in Queue(n) :: e in n.firing || e in n.pending;
  }

  ghost predicate Ahead<Id(!new)>(q: seq<Entry<Id>>, x: Entry<Id>, y: Entry<Id>) {
    exists i, j :: 0 <= i < j < |q| && q[i] == x && q[j] == y
  }

  ghost predicate NotifiedAt<Id(!new)>(log: seq<Event<Id>>, i: int, entry: Entry<Id>) {
    0 <= i < |log| && log[i].Notified? && log[i].entry == entry
  }

  lemma {:induction false} AheadAt<Id(!new)>(q: seq<Entry<Id>>, i: nat, j: nat)
    requires i < j < |q|
    ensures Ahead(q, q[i], q[j])
  {
  }

  /** Where an added alarm stands to another: behind those being notified, those due
      earlier, and those due at the same time, ahead of those due later. */
  lemma {:induction false} QueuedInOrder<Id(!new)>(m: Mux<Id>, entry: Entry<Id>, other: Entry<Id>)
    requires Invariant(m) && Enabled(m, Add(entry)) && other in Queue(m)
    ensures var q := Queue(Apply(m, Add(entry)));
            if other in m.firing || other.due <= entry.due then Ahead(q, other, entry) else Ahead(q, entry, other)
  {
    hide LedgerOk, Outstanding, Entries, Insert, Ahead, DistinctIds, Ids;
    var k := InsertSplits(m.pending, entry);
    var q, n := Queue(Apply(m, Add(entry))), |m.firing|;
    assert q == m.firing + (m.pending[..k] + [entry] + m.pending[k..]);
    assert q[n + k] == entry;
    if other in m.firing {
      var i :| 0 <= i < n && m.firing[i] == other;
      assert q[i] == other;
      AheadAt(q, i, n + k);
    } else {
      var i :| 0 <= i < |m.pending| && m.pending[i] == other;
      if i < k {
        assert q[n + i] == other;
        AheadAt(q, n + i, n + k);
      } else {
        assert q[n + i + 1] == other;
        AheadAt(q, n + k, n + i + 1);
      }
    }
  }

  lemma {:induction false} StepKeepsOrder<Id(!new)>(m: Mux<Id>, step: Step<Id>, x: Entry<Id>, y: Entry<Id>)
    requires Invariant(m) && Enabled(m, step) && Ahead(Queue(m), x, y)
    requires step != Remove(x.id) && step != Remove(y.id)
    requires step.Notify? ==> Queue(m)[0] != x
    ensures Ahead(Queue(Apply(m, step)), x, y)
  {
    hide LedgerOk, Outstanding, Entries, Insert, Ahead, Sorted, DistinctIds;
    match step
    case Advance(_) =>
    case Add(entry) =>
      var k := InsertSplits(m.pending, entry);
      QueueSplits(m, k);
      AheadGrows(Queue(m), |m.firing| + k, entry, x, y);
    case Remove(id) =>
      var k := Find(m.pending, id);
      if k < |m.pending| {
        QueueSplits(m, k);
        AheadShrinks(Queue(m), |m.firing| + k, x, y);
      }
    case Collect => CollectInvariant(m);
    case Notify =>
      NotifyInvariant(m);
      AheadDistinct(Queue(m), x, y);
      AheadShrinks(Queue(m), 0, x, y);
      assert Queue(m)[..0] + Queue(m)[1..] == Queue(m)[1..];
  }

  lemma {:induction false} AheadGrows<Id(!new)>(q: seq<Entry<Id>>, k: nat, entry: Entry<Id>, x: Entry<Id>, y: Entry<Id>)
    requires Ahead(q, x, y) && k <= |q|
    ensures Ahead(q[..k] + [entry] + q[k..], x, y)
  {
    var r := q[..k] + [entry] + q[k..];
    var i, j :| 0 <= i < j < |q| && q[i] == x && q[j] == y;
    assert r[if i < k then i else i + 1] == x && r[if j < k then j else j + 1] == y;
  }

  lemma {:induction false} AheadShrinks<Id(!new)>(q: seq<Entry<Id>>, k: nat, x: Entry<Id>, y: Entry<Id>)
    requires Ahead(q, x, y) && k < |q| && q[k] != x && q[k] != y
    ensures Ahead(q[..k] + q[k + 1..], x, y)
  {
    var r := q[..k] + q[k + 1..];
    var i, j :| 0 <= i < j < |q| && q[i] == x && q[j] == y;
    assert r[if i < k then i else i - 1] == x && r[if j < k then j else j - 1] == y;
  }

  lemma {:induction false} AheadDistinct<Id(!new)>(q: seq<Entry<Id>>, x: Entry<Id>, y: Entry<Id>)
    requires Ahead(q, x, y) && DistinctIds(q)
    ensures q[0] != y
  {
  }

  lemma {:induction false} LogExtends<Id(!new)>(m: Mux<Id>, steps: seq<Step<Id>>)
    requires Runs(m, steps)
    ensures m.log <= After(m, steps).log
    decreases |steps|
  {
    if steps != [] {
      LogExtends(Apply(m, steps[0]), steps[1..]);
    }
  }

  /** An entry that is ahead of another is notified before it, whatever happens
      in between short of removing one of them. */
  lemma {:induction false} NotifiedInQueueOrder<Id(!new)>(
      m: Mux<Id>, steps: seq<Step<Id>>, x: Entry<Id>, y: Entry<Id>, j: nat)
    requires Invariant(m) && Runs(m, steps) && Ahead(Queue(m), x, y)
    requires Remove(x.id) !in steps && Remove(y.id) !in steps
    requires |m.log| <= j && NotifiedAt(After(m, steps).log, j, y)
    ensures exists i :: |m.log| <= i < j && NotifiedAt(After(m, steps).log, i, x)
    decreases |steps|
  {
    hide LedgerOk, Outstanding, Entries, Insert, Find;
    if steps != [] {
      var step, rest := steps[0], steps[1..];
      var n := Apply(m, step);
      LogExtends(n, rest);
      StepInvariant(m, step);
      if step.Notify? {
        assert Queue(m)[0] == m.firing[0] && After(m, steps).log[|m.log|] == n.log[|m.log|];
      }
      if step.Notify? && Queue(m)[0] == x {
        assert NotifiedAt(After(m, steps).log, |m.log|, x);
      } else {
        StepKeepsOrder(m, step, x, y);
        assert n.log <= After(m, steps).log;
        AheadDistinct(Queue(m), x, y);
        assert j != |m.log| || |n.log| == |m.log|;
        NotifiedInQueueOrder(n, rest, x, y, j);
      }
    }
  }

  /** From an empty shared alarm: of two alarms that are pending at the same time,
      the one due earlier is notified first, unless one of them is removed. */
  lemma {:induction false} EarlierDueFirst<Id(!new)>(
      m: Mux<Id>, before: seq<Step<Id>>, steps: seq<Step<Id>>, x: Entry<Id>, y: Entry<Id>, j: nat)
    requires m.pending == [] && m.firing == [] && m.log == [] && Runs(m, before)
    requires var n := After(m, before); x in n.pending && y in n.pending && x.due < y.due && Runs(n, steps)
    requires Remove(x.id) !in steps && Remove(y.id) !in steps
    requires var n := After(m, before); |n.log| <= j && NotifiedAt(After(n, steps).log, j, y)
    ensures var n := After(m, before); exists i :: |n.log| <= i < j && NotifiedAt(After(n, steps).log, i, x)
  {
    EmptyInvariant(m);
    RunInvariant(m, before);
    var n := After(m, before);
    SortedAhead(n, x, y);
    hide *;
    NotifiedInQueueOrder(n, steps, x, y, j);
  }

  lemma {:induction false} EmptyInvariant<Id(!new)>(m: Mux<Id>)
    requires m.pending == [] && m.firing == [] && m.log == []
    ensures Invariant(m)
  {
  }

  lemma {:induction false} SortedAhead<Id(!new)>(m: Mux<Id>, x: Entry<Id>, y: Entry<Id>)
    requires Sorted(m.pending) && x in m.pending && y in m.pending && x.due < y.due
    ensures Ahead(Queue(m), x, y)
  {
    var i :| 0 <= i < |m.pending| && m.pending[i] == x;
    var j :| 0 <= j < |m.pending| && m.pending[j] == y;
    AheadAt(Queue(m), |m.firing| + i, |m.firing| + j);
  }

  /** Every pending alarm is notified once its time has passed and the callback runs:
      at a time no earlier than it is due, and no later than the callback. */
  lemma {:induction false} PendingIsNotified<Id(!new)>(m: Mux<Id>, i: nat, ticks: nat)
    requires Invariant(m) && m.firing == [] && i < |m.pending| && m.pending[i].due <= m.now + ticks
    ensures var steps := [Advance(ticks), Collect] + seq(i + 1, _ => Notify);
            && Runs(m, steps)
            && |After(m, steps).log| > |m.log| + i
            && After(m, steps).log[|m.log| + i] == Notified(m.pending[i], m.now + ticks)
  {
    hide LedgerOk, Outstanding, Entries, DistinctIds;
    var n := Apply(m, Advance(ticks));
    var o := Apply(n, Collect);
    DueCountSplits(n.pending, n.now);
    FiringIsNotified(o, i);
    NotifyingTakesNoTime(o, i);
    var rest: seq<Step<Id>> := seq(i + 1, _ => Notify);
    var steps := [Advance(ticks), Collect] + rest;
    assert steps[1..] == [Collect] + rest && steps[1..][1..] == rest;
    LogExtends(m, steps);
  }

  lemma {:induction false} NotifyingTakesNoTime<Id(!new)>(m: Mux<Id>, k: nat)
    requires k < |m.firing| && Runs(m, seq(k + 1, _ => Notify))
    ensures var n := After(m, seq(k + 1, _ => Notify));
            |n.log| == |m.log| + k + 1 && n.log[|m.log| + k] == Notified(m.firing[k], m.now)
    decreases k
  {
    var steps: seq<Step<Id>> := seq(k + 1, _ => Notify);
    if k > 0 {
      assert steps[1..] == seq(k, _ => Notify);
      NotifyingTakesNoTime(Apply(m, Notify), k - 1);
    } else {
      assert steps == [Notify] && steps[1..] == [];
    }
  }

  // ----- removing -----

  ghost predicate NeverAdds<Id(!new)>(steps: seq<Step<Id>>, id: Id) {
    forall step | step in steps && step.Add? :: step.entry.id != id
  }

  /** Nothing later notifies record `id`, unless it is added again. */
  ghost predicate StaysQuiet<Id(!new)>(m: Mux<Id>, id: Id) {
    forall steps | Runs(m, steps) && NeverAdds(steps, id) ::
      forall i | |m.log| <= i < |After(m, steps).log| ::
        After(m, steps).log[i].Notified? ==> After(m, steps).log[i].entry.id != id
  }

  lemma {:induction false} AbsentStaysQuiet<Id(!new)>(m: Mux<Id>, id: Id, steps: seq<Step<Id>>)
    requires Runs(m, steps) && NeverAdds(steps, id)
    requires forall e | e in Queue(m) :: e.id != id
    ensures forall i | |m.log| <= i < |After(m, steps).log| ::
              After(m, steps).log[i].Notified? ==> After(m, steps).log[i].entry.id != id
    decreases |steps|
  {
    if steps != [] {
      var n := Apply(m, steps[0]);
      LogExtends(n, steps[1..]);
      if steps[0].Add? {
        InsertMembers(m.pending, steps[0].entry);
      }
      assert forall e | e in Queue(n) :: e.id != id;
      AbsentStaysQuiet(n, id, steps[1..]);
      assert forall i | |m.log| <= i < |n.log| :: n.log[i].Notified? ==> n.log[i].entry in Queue(m);
    }
  }

  lemma {:induction false} InsertMembers<Id(!new)>(q: seq<Entry<Id>>, entry: Entry<Id>)
    ensures forall e :: e in Insert(q, entry) <==> e in q || e == entry
  {
    if q != [] && q[0].due <= entry.due {
      InsertMembers(q[1..], entry);
      assert q == [q[0]] + q[1..];
    }
  }

  /** Draining the callback: the entry at position `k` is notified at its turn. */
  lemma {:induction false} FiringIsNotified<Id(!new)>(m: Mux<Id>, k: nat)
    requires k < |m.firing|
    ensures var steps := seq(k + 1, _ => Notify);
            Runs(m, steps) && NotifiedAt(After(m, steps).log, |m.log| + k, m.firing[k])
    decreases k
  {
    var steps: seq<Step<Id>> := seq(k + 1, _ => Notify);
    var n := Apply(m, Notify);
    if k > 0 {
      FiringIsNotified(n, k - 1);
      assert steps[1..] == seq(k, _ => Notify);
    } else {
      assert steps == [Notify] && Runs(n, []) && After(n, []) == n && steps[1..] == [];
    }
  }

  /** "It is guaranteed that the removed alarm will not fire after this function
      has been invoked": true exactly when the record is not among those that a
      running callback has already taken off the list. */
  lemma {:induction false} RemoveSilencesUnlessFiring<Id(!new)>(m: Mux<Id>, id: Id)
    requires Invariant(m)
    ensures StaysQuiet(Apply(m, Remove(id)), id) <==> id !in Ids(m.firing)
  {
    var n := Apply(m, Remove(id));
    if id in Ids(m.firing) {
      var k :| 0 <= k < |m.firing| && Ids(m.firing)[k] == id;
      FiringIsNotified(n, k);
      var steps: seq<Step<Id>> := seq(k + 1, _ => Notify);
      assert NeverAdds(steps, id) && n.firing[k].id == id;
    } else {
      RemovedIsAbsent(m, id);
      forall steps | Runs(n, steps) && NeverAdds(steps, id)
        ensures forall i | |n.log| <= i < |After(n, steps).log| ::
                  After(n, steps).log[i].Notified? ==> After(n, steps).log[i].entry.id != id
      {
        AbsentStaysQuiet(n, id, steps);
      }
    }
  }

  lemma {:induction false} RemovedIsAbsent<Id(!new)>(m: Mux<Id>, id: Id)
    requires DistinctIds(Queue(m)) && id !in Ids(m.firing)
    ensures forall e | e in Queue(Apply(m, Remove(id))) :: e.id != id
  {
    var k := Find(m.pending, id);
    forall i | 0 <= i < |m.firing| ensures m.firing[i].id != id {
      assert Ids(m.firing)[i] == m.firing[i].id;
    }
    forall i | k < i < |m.pending| ensures m.pending[i].id != id {
      assert Queue(m)[|m.firing| + i] == m.pending[i] && Queue(m)[|m.firing| + k] == m.pending[k];
    }
  }
}
