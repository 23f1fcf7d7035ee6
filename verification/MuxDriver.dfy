/** The multiplexed-alarm code of `src/periph/timer.c`, over linked records. */
module MuxDriver {
  import opened Words
  import Lists
  import opened MuxAlarm
  import MuxAlarmProofs
  import TimerAlarm
  import TimerAlarmProofs
  import AlarmDriver

  /** `sBSP430timerMuxAlarm`. */
  class MuxRecord {
    var setting: int
    var next: MuxRecord?

    constructor (setting: int)
      ensures this.setting == setting && next == null
    {
      this.setting, this.next := setting, null;
    }
  }

  ghost function Records(q: seq<Entry<MuxRecord>>): set<MuxRecord> {
    set e | e in q :: e.id
  }

  ghost function HeadOf(q: seq<Entry<MuxRecord>>, i: nat): MuxRecord? {
    if i < |q| then q[i].id else null
  }

  /** The records linked from `head` are those of `q`, in its order, and each
      holds the low 32 bits of the time its entry is due. */
  ghost predicate Linked(head: MuxRecord?, q: seq<Entry<MuxRecord>>)
    reads Records(q)
  {
    && head == HeadOf(q, 0)
    && (forall i {:trigger q[i].id.next} | 0 <= i < |q| :: q[i].id.next == HeadOf(q, i + 1))
    && (forall i {:trigger q[i].id.setting} | 0 <= i < |q| :: q[i].id.setting == U32(q[i].due))
    && MuxAlarmProofs.DistinctIds(q)
  }

  ghost function IdAt(ids: seq<MuxRecord>, i: nat): MuxRecord? {
    if i < |ids| then ids[i] else null
  }

  /** The records linked from `head`, whatever lists they are meant to be on. */
  ghost predicate Follows(head: MuxRecord?, ids: seq<MuxRecord>)
    reads ids
  {
    head == IdAt(ids, 0) && forall i {:trigger ids[i].next} | 0 <= i < |ids| :: ids[i].next == IdAt(ids, i + 1)
  }

  /** Every entry is within half the clock's range of `now`, and stays so for
      `ticks` more. */
  ghost predicate InRange(q: seq<Entry<MuxRecord>>, now: int, ticks: nat) {
    forall i | 0 <= i < |q| :: -0x8000_0000 + ticks <= q[i].due - now < 0x8000_0000
  }

  /** `sBSP430timerMuxSharedAlarm`.  `fired` is the local list of the running
      callback; `pending` and `firing` are what the two lists hold. */
  class MuxShared {
    const dedicated: AlarmDriver.AlarmRecord
    var alarms: MuxRecord?
    var fired: MuxRecord?
    ghost var pending: seq<Entry<MuxRecord>>
    ghost var firing: seq<Entry<MuxRecord>>

    /** `hBSP430timerMuxAlarmStartup`. */
    constructor (timer: AlarmDriver.Timer, limit: TimerAlarm.Limit)
      requires timer.Valid() && TimerAlarm.Synchronized(timer.State()) && !timer.ccie
      modifies timer
      ensures Valid() && WaitsForHead() && pending == [] && firing == []
      ensures fresh(dedicated) && dedicated.timer == timer && dedicated.limit == limit
    {
      dedicated := new AlarmDriver.AlarmRecord(timer, limit);
      alarms, fired, pending, firing := null, null, [], [];
      new;
      dedicated.SetEnabled(true);
    }

    ghost predicate Valid()
      reads this, dedicated, dedicated.timer, Records(pending), Records(firing)
    {
      && Linked(alarms, pending)
      && Linked(fired, firing)
      && Records(pending) !! Records(firing)
      && MuxAlarmProofs.Sorted(pending)
      && DedicatedValid()
    }

    ghost predicate DedicatedValid()
      reads this, dedicated, dedicated.timer
    {
      dedicated.timer.Valid() && dedicated.enabled && TimerAlarmProofs.Invariant(dedicated.State())
    }

    /** The dedicated alarm waits for the first pending alarm. */
    ghost predicate WaitsForHead()
      reads this, dedicated
    {
      && (dedicated.isSet <==> pending != [])
      && (pending != [] ==> dedicated.due == pending[0].due)
    }

    /** Arranging the wakeup for the head of the list. */
    method SetDedicated(n0: nat, n1: nat, n2: nat) returns (rc: int)
      requires DedicatedValid() && !dedicated.isSet && pending != [] && Linked(alarms, pending)
      requires InRange(pending, dedicated.timer.now, 0)
      requires n0 <= 0x8000 && n0 + n1 + n2 <= dedicated.limit
      requires TimerAlarm.MayElapse(dedicated.timer.State(), n0 + n1 + n2)
      modifies dedicated, dedicated.timer
      ensures DedicatedValid() && WaitsForHead() && 0 <= rc
      ensures old(dedicated.timer.now) <= dedicated.timer.now <= old(dedicated.timer.now) + n0 + n1 + n2
      ensures TimerAlarm.Handled(dedicated.timer.State()) == old(TimerAlarm.Handled(dedicated.timer.State()))
    {
      hide U32, TimerAlarmProofs.Invariant;
      ghost var a := dedicated.State();
      SetDedicatedFacts(a, pending[0].due, n0, n1, n2);
      rc := dedicated.Set(alarms.setting, true, n0, n1, n2);
    }

    /** The walk to the place of a new alarm, after any alarm that should fire at
        or before its time. */
    method Place(alarm: MuxRecord, now_tck: int, ghost now: int, ghost due: int)
        returns (prev: MuxRecord?, np: MuxRecord?, ghost k: nat)
      requires Linked(alarms, pending) && alarm.setting == U32(due) && now_tck == U32(now)
      requires InRange(pending, now, 0) && -0x8000_0000 <= due - now < 0x8000_0000
      ensures k <= |pending| && np == HeadOf(pending, k)
      ensures prev == if k == 0 then null else pending[k - 1].id
      ensures Insert(pending, Entry(alarm, due)) == pending[..k] + [Entry(alarm, due)] + pending[k..]
    {
      hide S32, U32;
      SignedDistance(due, now);
      var delay_tck := S32(alarm.setting - now_tck);
      prev, np, k := null, alarms, 0;
      while np != null
        invariant k <= |pending| && np == HeadOf(pending, k)
        invariant prev == if k == 0 then null else pending[k - 1].id
        invariant forall i | 0 <= i < k :: pending[i].due <= due
        decreases |pending| - k
      {
        SignedDistance(pending[k].due, now);
        assert np.setting == pending[k].id.setting && np.next == pending[k].id.next;
        var next_delay_tck := S32(np.setting - now_tck);
        if next_delay_tck > delay_tck {
          break;
        }
        prev, np, k := np, np.next, k + 1;
      }
      InsertAt(pending, Entry(alarm, due), k);
    }

    /** The dedicated alarm cancelled, and the time after that. */
    method ReadWithCancelled(n: nat) returns (now_tck: int)
      requires DedicatedValid() && n <= 0x8000 && TimerAlarm.MayElapse(dedicated.timer.State(), n)
      modifies dedicated, dedicated.timer
      ensures DedicatedValid() && !dedicated.isSet && now_tck == U32(old(dedicated.timer.now))
      ensures dedicated.timer.now == old(dedicated.timer.now) + n
      ensures TimerAlarm.Handled(dedicated.timer.State()) == old(TimerAlarm.Handled(dedicated.timer.State()))
    {
      hide TimerAlarm.Ticks, TimerAlarm.Counter, U32, TimerAlarmProofs.Invariant;
      TimerAlarmProofs.CancelThenRead(dedicated.State(), n);
      var rc := dedicated.Cancel();
      now_tck := dedicated.timer.Counter(n);
    }

    /** `iBSP430timerMuxAlarmAdd_ni`, with `n` ticks inside its reading of the
        counter. */
    method Add(alarm: MuxRecord, ghost due: int, n: nat, n0: nat, n1: nat, n2: nat) returns (rc: int)
      requires Valid() && alarm !in Records(pending) + Records(firing) && alarm.setting == U32(due)
      requires n0 <= 0x8000 && n0 + n1 + n2 <= dedicated.limit && n <= 0x8000
      requires TimerAlarm.MayElapse(dedicated.timer.State(), n + n0 + n1 + n2)
      requires InRange(pending, dedicated.timer.now, n) && -0x8000_0000 + n <= due - dedicated.timer.now < 0x8000_0000
      modifies this`alarms, this`pending, dedicated, dedicated.timer, Records(pending), alarm
      ensures Valid() && WaitsForHead() && 0 <= rc
      ensures old(dedicated.timer.now) <= dedicated.timer.now <= old(dedicated.timer.now) + n + n0 + n1 + n2
      ensures TimerAlarm.Handled(dedicated.timer.State()) == old(TimerAlarm.Handled(dedicated.timer.State()))
      ensures Records(pending) == Records(old(pending)) + {alarm}
      ensures pending == Insert(old(pending), Entry(alarm, due)) && firing == old(firing)
    {
      hide U32, TimerAlarmProofs.Invariant, Insert, MuxAlarmProofs.Sorted, MuxAlarmProofs.DistinctIds, InRange, HeadOf;
      ghost var now, q, entry := dedicated.timer.now, pending, Entry(alarm, due);
      var now_tck := ReadWithCancelled(n);
      ghost var k;
      var prev, np;
      InRangeLater(q, now, n, n);
      InRangeLater(q, now, 0, n);
      prev, np, k := Place(alarm, now_tck, now, due);
      MuxAlarmProofs.InsertSorted(q, entry);
      LinkIn(alarm, due, prev, np, k);
      InRangeInserted(q, k, entry, now, n);
      rc := SetDedicated(n0, n1, n2);
    }

    /** The pointer surgery of adding. */
    method LinkIn(alarm: MuxRecord, ghost due: int, prev: MuxRecord?, np: MuxRecord?, ghost k: nat)
      requires Linked(alarms, pending) && alarm !in Records(pending) && alarm.setting == U32(due)
      requires k <= |pending| && np == HeadOf(pending, k)
      requires prev == if k == 0 then null else pending[k - 1].id
      modifies this`alarms, this`pending, Records(pending), alarm
      ensures Linked(alarms, pending) && pending == old(pending)[..k] + [Entry(alarm, due)] + old(pending)[k..]
      ensures Records(pending) == Records(old(pending)) + {alarm}
    {
      hide U32, Records;
      ghost var q, entry := pending, Entry(alarm, due);
      EntryInserted(q, k, entry);
      EachRecord(q);
      alarm.next := np;
      if prev == null {
        alarms := alarm;
      } else {
        prev.next := alarm;
      }
      pending := q[..k] + [entry] + q[k..];
      forall i | 0 <= i < |pending|
        ensures pending[i].id.next == HeadOf(pending, i + 1) && pending[i].id.setting == U32(pending[i].due)
      {
        var e := if i < k then q[i] else if i == k then entry else q[i - 1];
        assert pending[i] == e;
        assert HeadOf(pending, i + 1) ==
               if i + 1 < k then HeadOf(q, i + 1) else if i + 1 == k then alarm else HeadOf(q, i);
      }
    }

    /** `iBSP430timerMuxAlarmRemove_ni`. */
    method Remove(alarm: MuxRecord, n0: nat, n1: nat, n2: nat) returns (rc: int)
      requires Valid() && InRange(pending, dedicated.timer.now, 0)
      requires n0 <= 0x8000 && n0 + n1 + n2 <= dedicated.limit
      requires TimerAlarm.MayElapse(dedicated.timer.State(), n0 + n1 + n2)
      modifies this`alarms, this`pending, dedicated, dedicated.timer, Records(pending)
      ensures Valid() && WaitsForHead() && 0 <= rc
      ensures pending == Without(old(pending), alarm) && firing == old(firing)
      ensures Records(pending) <= Records(old(pending))
      ensures old(dedicated.timer.now) <= dedicated.timer.now <= old(dedicated.timer.now) + n0 + n1 + n2
      ensures TimerAlarm.Handled(dedicated.timer.State()) == old(TimerAlarm.Handled(dedicated.timer.State()))
    {
      hide U32, TimerAlarmProofs.Invariant, MuxAlarmProofs.Sorted, MuxAlarmProofs.DistinctIds, InRange, Without;
      ghost var now, q := dedicated.timer.now, pending;
      TimerAlarmProofs.StepInvariant(dedicated.State(), TimerAlarm.CancelAlarm);
      var _ := dedicated.Cancel();
      LinkOut(alarm);
      RemainsSorted(q, alarm, now);
      rc := 0;
      if alarms != null {
        assert pending != [];
        rc := SetDedicated(n0, n1, n2);
      }
    }

    /** The pointer assignments of adding, also for an alarm that the running
        callback has detached and not yet notified (removing it first changes
        nothing, as it is not on the shared list). */
    method LinkInAnyway(alarm: MuxRecord, ghost due: int, prev: MuxRecord?, np: MuxRecord?, ghost k: nat)
      requires Linked(alarms, pending) && alarm !in Records(pending) && alarm.setting == U32(due)
      requires Follows(fired, Ids(firing)) && Records(pending) !! Records(firing)
      requires k <= |pending| && np == HeadOf(pending, k)
      requires prev == if k == 0 then null else pending[k - 1].id
      modifies this`alarms, this`pending, Records(pending), alarm
      ensures Linked(alarms, pending) && pending == old(pending)[..k] + [Entry(alarm, due)] + old(pending)[k..]
      ensures Follows(fired, RunsOn(firing, pending, k, alarm))
    {
      hide U32, Records, Find;
      EachRecord(firing);
      ghost var q, f, j := pending, firing, Find(firing, alarm);
      assert forall i | 0 <= i < j :: f[i].id != alarm && f[i].id !in Records(q);
      assert forall i | 0 <= i < |f| :: Ids(f)[i] == f[i].id;
      LinkIn(alarm, due, prev, np, k);
      ghost var ids := RunsOn(f, pending, k, alarm);
      forall i | 0 <= i < |ids| ensures ids[i].next == IdAt(ids, i + 1) {
        if i < j {
          assert ids[i] == f[i].id && ids[i].next == IdAt(Ids(f), i + 1);
        } else {
          assert ids[i] == pending[k + i - j].id && ids[i].next == HeadOf(pending, k + i - j + 1);
        }
      }
    }

    /** The notification loop on whatever list it has got: it takes every record of
        that, due or not. */
    method NotifyAlong(ghost ids: seq<MuxRecord>) returns (notified: seq<MuxRecord>)
      requires Follows(fired, ids) && Lists.Distinct(ids)
      modifies this`fired, ids
      ensures notified == ids && fired == null
      ensures forall r | r in ids :: r.next == null
    {
      notified := [];
      ghost var k := 0;
      while fired != null
        invariant k <= |ids| && fired == IdAt(ids, k) && notified == ids[..k]
        invariant forall i {:trigger ids[i].next} | k <= i < |ids| :: ids[i].next == IdAt(ids, i + 1)
        invariant forall i {:trigger ids[i].next} | 0 <= i < k :: ids[i].next == null
        decreases |ids| - k
      {
        var notify := fired;
        assert notify.next == ids[k].next;
        fired := notify.next;
        notify.next := null;
        notified, k := notified + [notify], k + 1;
      }
    }

    /** Adding in a callback, and the notifications after it: the loop notifies just
        the detached alarms exactly if the added one is not among them, or is last
        on both lists.  Otherwise all that are behind its new place in the shared
        list are notified with it, and the detached ones behind it never; and the
        shared list ends with the alarm that was added, although it was notified. */
    method AddThenNotify(alarm: MuxRecord, ghost due: int, prev: MuxRecord?, np: MuxRecord?, ghost k: nat)
        returns (notified: seq<MuxRecord>)
      requires Linked(alarms, pending) && alarm !in Records(pending) && alarm.setting == U32(due)
      requires Follows(fired, Ids(firing)) && MuxAlarmProofs.DistinctIds(firing)
      requires Records(pending) !! Records(firing)
      requires k <= |pending| && np == HeadOf(pending, k)
      requires prev == if k == 0 then null else pending[k - 1].id
      modifies this`alarms, this`pending, this`fired, Records(pending), Records(firing), alarm
      ensures notified == Ids(firing)
              <==> alarm !in Records(firing) || (alarm == firing[|firing| - 1].id && np == null)
      ensures var j := Find(firing, alarm);
              && (j < |firing| ==> notified == Ids(firing[..j]) + [alarm] + Ids(old(pending)[k..]))
              && (j < |firing| ==> Follows(alarms, Ids(old(pending)[..k]) + [alarm]))
              && (forall i | j < i < |firing| ::
                    firing[i].id !in notified && firing[i].id !in Ids(old(pending)[..k]) + [alarm])
    {
      hide U32, Records, RunsOn, Find;
      ghost var p, f := pending, firing;
      LinkInAnyway(alarm, due, prev, np, k);
      ghost var ids := RunsOn(f, pending, k, alarm);
      RunsOnIs(f, p, k, alarm, due);
      RunsOnAsDetachedIff(f, p, k, alarm, due);
      label Adding: notified := NotifyAlong(ids);
      if Find(f, alarm) < |f| {
        ghost var rest := Ids(p[..k]) + [alarm];
        forall i | 0 <= i < |rest| ensures rest[i].next == IdAt(rest, i + 1) {
          if i < k {
            assert rest[i] == p[i].id && pending[i] == p[i];
            assert pending[i].id.next == old@Adding(pending[i].id.next);
            assert old@Adding(pending[i].id.next) == HeadOf(pending, i + 1);
          }
        }
      }
    }

    /** Unlinking the first node that is `alarm`, if there is one. */
    method LinkOut(alarm: MuxRecord)
      requires Linked(alarms, pending)
      modifies this`alarms, this`pending, Records(pending)
      ensures Linked(alarms, pending) && pending == Without(old(pending), alarm)
      ensures Records(pending) <= Records(old(pending))
    {
      hide U32, Records;
      ghost var q := pending;
      EachRecord(q);
      var prev: MuxRecord?, np := null, alarms;
      ghost var k := 0;
      while np != null && np != alarm
        invariant k <= |q| && np == HeadOf(q, k)
        invariant prev == if k == 0 then null else q[k - 1].id
        invariant k <= Find(q, alarm)
        decreases |q| - k
      {
        assert np.next == q[k].id.next;
        prev, np, k := np, np.next, k + 1;
      }
      if np != null {
        PointPast(prev, np, k);
      }
    }

    method PointPast(prev: MuxRecord?, np: MuxRecord, ghost k: nat)
      requires Linked(alarms, pending) && k < |pending| && np == pending[k].id
      requires prev == if k == 0 then null else pending[k - 1].id
      modifies this`alarms, this`pending, Records(pending)
      ensures Linked(alarms, pending) && pending == old(pending)[..k] + old(pending)[k + 1..]
      ensures Records(pending) <= Records(old(pending))
    {
      hide U32, Records;
      ghost var q := pending;
      EachRecord(q);
      assert np.next == q[k].id.next;
      if prev == null {
        alarms := np.next;
      } else {
        prev.next := np.next;
      }
      pending := q[..k] + q[k + 1..];
      EntryUnlinked(q, k);
      forall i | 0 <= i < |pending|
        ensures pending[i].id.next == HeadOf(pending, i + 1) && pending[i].id.setting == U32(pending[i].due)
      {
        assert pending[i] == if i < k then q[i] else q[i + 1];
        assert HeadOf(pending, i + 1) == if i + 1 < k then HeadOf(q, i + 1) else HeadOf(q, i + 2);
      }
    }

    /** Time passing between the operations. */
    method Elapse(n: nat)
      requires Valid() && TimerAlarm.MayElapse(dedicated.timer.State(), n)
      modifies dedicated.timer
      ensures Valid() && pending == old(pending) && firing == old(firing)
      ensures dedicated.timer.now == old(dedicated.timer.now) + n
      ensures TimerAlarm.Handled(dedicated.timer.State()) == old(TimerAlarm.Handled(dedicated.timer.State()))
      ensures WaitsForHead() <==> old(WaitsForHead())
    {
      hide TimerAlarm.Ticks, TimerAlarmProofs.Invariant;
      ElapseKeepsCount(dedicated.State(), n);
      TimerAlarmProofs.TicksInvariant(dedicated.State(), n);
      TimerAlarmProofs.TicksTakeTime(dedicated.timer.State(), n);
      dedicated.timer.Elapse(n);
    }

    /** The overflow interrupt between the operations. */
    method OverflowInterrupt(n1: nat, n2: nat)
      requires Valid() && TimerAlarm.Enabled(dedicated.State(), TimerAlarm.OverflowIsr(n1, n2))
      modifies dedicated, dedicated.timer
      ensures Valid() && pending == old(pending) && firing == old(firing)
      ensures dedicated.timer.now == old(dedicated.timer.now) + n1 + n2
      ensures WaitsForHead() <==> old(WaitsForHead())
    {
      hide TimerAlarm.OverflowInterrupt, TimerAlarmProofs.Invariant;
      TimerAlarmProofs.OverflowInvariant(dedicated.State(), n1, n2);
      TimerAlarmProofs.OverflowCounts(dedicated.State(), n1, n2);
      dedicated.OverflowInterrupt(n1, n2);
    }

    /** When the head's time has come and no overflow is waiting, the compare
        interrupt can run, and takes the head and all that is due with it off the
        list: no multiplexed alarm is missed. */
    method ServeDueHead(n: nat, n0: nat, n1: nat, n2: nat)
      requires Valid() && WaitsForHead() && firing == [] && pending != []
      requires pending[0].due <= dedicated.timer.now && !dedicated.timer.taifg
      requires n0 <= 0x8000 && n0 + n1 + n2 <= dedicated.limit && n <= 0x8000
      requires TimerAlarm.MayElapse(dedicated.timer.State(), n + n0 + n1 + n2)
      requires InRange(pending, dedicated.timer.now, n)
      modifies this, dedicated, dedicated.timer, Records(pending)
      ensures Valid() && WaitsForHead()
      ensures firing + pending == old(pending) && firing != [] && firing[0] == old(pending)[0]
      ensures forall e | e in firing :: e.due <= old(dedicated.timer.now)
      ensures forall e | e in pending :: old(dedicated.timer.now) < e.due
    {
      ghost var now, q := dedicated.timer.now, pending;
      HeadCanRun(dedicated.State());
      DueHeadTaken(q, now);
      hide *;
      Collect(n, n0, n1, n2);
      assert q == q[..DueCount(q, now)] + q[DueCount(q, now)..];
    }

    /** The compare interrupt of the dedicated alarm up to the notifications: the
        due records move from the shared list to the callback's own, and the
        dedicated alarm is set again for the new head. */
    method Collect(n: nat, n0: nat, n1: nat, n2: nat)
      requires Valid() && firing == [] && TimerAlarm.Enabled(dedicated.State(), TimerAlarm.CompareIsr)
      requires n0 <= 0x8000 && n0 + n1 + n2 <= dedicated.limit && n <= 0x8000
      requires TimerAlarm.MayElapse(dedicated.timer.State(), n + n0 + n1 + n2)
      requires InRange(pending, dedicated.timer.now, n)
      modifies this, dedicated, dedicated.timer, Records(pending)
      ensures Valid() && WaitsForHead()
      ensures var k := DueCount(old(pending), old(dedicated.timer.now));
              firing == old(pending)[..k] && pending == old(pending)[k..]
    {
      hide U32, TimerAlarmProofs.Invariant, MuxAlarmProofs.Sorted, InRange, DueCount, Records;
      ghost var now, q := dedicated.timer.now, pending;
      InRangeLater(q, now, n, n);
      InRangeLater(q, now, 0, n);
      var now_tck := ReadAfterCompare(n);
      DetachDue(now_tck, now);
      InRangeSuffix(q, DueCount(q, now), now + n);
      MuxAlarmProofs.SortedShrinks(q, DueCount(q, now));
      if alarms != null {
        var _ := SetDedicated(n0, n1, n2);
      }
    }

    /** The due records taken off the shared list. */
    method DetachDue(now_tck: int, ghost now: int)
      requires Linked(alarms, pending) && firing == [] && now_tck == U32(now) && InRange(pending, now, 0)
      modifies this`alarms, this`fired, this`pending, this`firing, Records(pending)
      ensures Linked(alarms, pending) && Linked(fired, firing) && Records(pending) !! Records(firing)
      ensures var k := DueCount(old(pending), now); firing == old(pending)[..k] && pending == old(pending)[k..]
      ensures Records(pending) <= Records(old(pending)) && Records(firing) <= Records(old(pending))
    {
      ghost var k;
      var prev, np;
      prev, np, k := WalkDue(now_tck, now);
      TakenIsDue(pending, now);
      hide *;
      Detach(prev, np, k);
    }

    /** The compare interrupt reaching the shared callback, and the time there. */
    method ReadAfterCompare(n: nat) returns (now_tck: int)
      requires DedicatedValid() && TimerAlarm.Enabled(dedicated.State(), TimerAlarm.CompareIsr)
      requires n <= 0x8000 && TimerAlarm.MayElapse(dedicated.timer.State(), n)
      modifies dedicated, dedicated.timer
      ensures DedicatedValid() && !dedicated.isSet && now_tck == U32(old(dedicated.timer.now))
      ensures dedicated.timer.now == old(dedicated.timer.now) + n
      ensures TimerAlarm.Handled(dedicated.timer.State()) == old(TimerAlarm.Handled(dedicated.timer.State()))
    {
      hide TimerAlarm.Ticks, TimerAlarm.Counter, U32, TimerAlarmProofs.Invariant;
      TimerAlarmProofs.CompareThenRead(dedicated.State(), n);
      var _ := dedicated.CompareInterrupt();
      now_tck := dedicated.timer.Counter(n);
    }

    /** The walk over the alarms that are due. */
    method WalkDue(now_tck: int, ghost now: int) returns (prev: MuxRecord?, np: MuxRecord?, ghost k: nat)
      requires Linked(alarms, pending) && now_tck == U32(now)
      ensures k == Taken(pending, now) && np == HeadOf(pending, k)
      ensures prev == if k == 0 then null else pending[k - 1].id
    {
      hide S32, U32;
      prev, np, k := null, alarms, 0;
      while np != null
        invariant k <= |pending| && np == HeadOf(pending, k)
        invariant prev == if k == 0 then null else pending[k - 1].id
        invariant forall i | 0 <= i < k :: Passes(pending[i].due, now)
        decreases |pending| - k
      {
        assert np.setting == pending[k].id.setting && np.next == pending[k].id.next;
        if 0 < S32(np.setting - now_tck) {
          break;
        }
        prev, np, k := np, np.next, k + 1;
      }
      TakenAt(pending, now, k);
    }

    /** Cutting the list after its `k` due records. */
    method Detach(prev: MuxRecord?, np: MuxRecord?, ghost k: nat)
      requires Linked(alarms, pending) && firing == [] && k <= |pending| && np == HeadOf(pending, k)
      requires prev == if k == 0 then null else pending[k - 1].id
      modifies this`alarms, this`fired, this`pending, this`firing, Records(pending)
      ensures Linked(alarms, pending) && Linked(fired, firing) && Records(pending) !! Records(firing)
      ensures firing == old(pending)[..k] && pending == old(pending)[k..]
      ensures Records(pending) <= Records(old(pending)) && Records(firing) <= Records(old(pending))
    {
      hide U32, Records;
      ghost var q := pending;
      EachRecord(q);
      EntriesCut(q, k);
      if prev == null {
        fired := null;
      } else {
        fired := alarms;
        prev.next := null;
      }
      alarms := np;
      pending, firing := q[k..], q[..k];
      forall i | 0 <= i < |pending|
        ensures pending[i].id.next == HeadOf(pending, i + 1) && pending[i].id.setting == U32(pending[i].due)
      {
        assert pending[i] == q[k + i] && HeadOf(pending, i + 1) == HeadOf(q, k + i + 1);
      }
      forall i | 0 <= i < |firing|
        ensures firing[i].id.next == HeadOf(firing, i + 1) && firing[i].id.setting == U32(firing[i].due)
      {
        assert firing[i] == q[i] && HeadOf(firing, i + 1) == if i + 1 < k then HeadOf(q, i + 1) else null;
      }
    }

    /** Ready for `budget` more ticks without an overflow interrupt. */
    ghost predicate Ready(budget: int)
      reads this, dedicated, dedicated.timer, Records(pending), Records(firing)
    {
      && 0 <= budget && Valid() && WaitsForHead()
      && InRange(pending, dedicated.timer.now, budget)
      && TimerAlarm.MayElapse(dedicated.timer.State(), budget)
    }

    /** One thing that a callback does. */
    method Perform(a: Action, ghost budget: nat, ghost pool: set<MuxRecord>)
      requires Ready(budget) && Cost(a) <= budget
      requires Acceptable(a, dedicated.timer.now, budget, dedicated.limit) && MayAct(pending, firing, [a])
      requires Records(pending) + Records(firing) + Touched(a) <= pool
      modifies this`alarms, this`pending, dedicated, dedicated.timer, pool
      ensures Ready(budget - Cost(a)) && pending == Effect(old(pending), a)
      ensures Records(pending) + Records(firing) <= pool
      ensures old(dedicated.timer.now) <= dedicated.timer.now <= old(dedicated.timer.now) + Cost(a)
    {
      match a
      case Pass(ticks) => PerformPass(ticks, budget);
      case AddRecord(record, due, n, n0, n1, n2) => PerformAdd(a, budget, pool);
      case RemoveRecord(record, n0, n1, n2) => PerformRemove(a, budget, pool);
    }

    /** The things that a callback does, in order. */
    method PerformAll(actions: seq<Action>, ghost budget: nat, ghost pool: set<MuxRecord>)
      requires Ready(budget) && CostAll(actions) <= budget
      requires AllAcceptable(actions, dedicated.timer.now, budget, dedicated.limit, pool)
      requires MayAct(pending, firing, actions) && Records(pending) + Records(firing) <= pool
      modifies this`alarms, this`pending, dedicated, dedicated.timer, pool
      ensures Ready(budget - CostAll(actions)) && pending == Effects(old(pending), actions)
      ensures Records(pending) + Records(firing) <= pool
      ensures old(dedicated.timer.now) <= dedicated.timer.now <= old(dedicated.timer.now) + CostAll(actions)
      decreases |actions|
    {
      hide *;
      if actions == [] {
        NoActions(pending);
      } else {
        ghost var now := dedicated.timer.now;
        var a, rest := actions[0], actions[1..];
        ActionsFirst(pending, firing, actions);
        AcceptableFirst(actions, now, budget, dedicated.limit, pool);
        Perform(a, budget, pool);
        AcceptableLater(rest, now, dedicated.timer.now, budget, Cost(a), dedicated.limit, pool);
        PerformAll(rest, budget - Cost(a), pool);
      }
    }

    /** The notification loop: each detached record is notified once, in order,
        whatever their callbacks add and remove meanwhile and however long that
        takes, as long as no overflow falls due. */
    method NotifyFiring(policy: MuxRecord -> seq<Action>, ghost budget: nat, ghost pool: set<MuxRecord>)
        returns (notified: seq<MuxRecord>)
      requires Ready(budget) && TotalCost(firing, policy) <= budget && MayNotify(pending, firing, policy)
      requires Agreeable(firing, policy, dedicated.timer.now, budget, dedicated.limit, pool)
      requires Records(pending) + Records(firing) <= pool
      modifies this, dedicated, dedicated.timer, pool
      ensures Ready(budget - TotalCost(old(firing), policy)) && firing == [] && fired == null
      ensures notified == Ids(old(firing))
      ensures pending == NotifyAll(old(pending), old(firing), policy)
    {
      hide Ready, Records, Ids, NotifyAll, MayNotify, TotalCost, Agreeable, Effects, CostAll;
      notified := [];
      ghost var left := budget;
      FiredIffFiring();
      while fired != null
        invariant 0 <= left && Ready(left) && (fired == null <==> firing == [])
        invariant left - TotalCost(firing, policy) == budget - TotalCost(old(firing), policy)
        invariant TotalCost(firing, policy) <= left
        invariant Agreeable(firing, policy, dedicated.timer.now, left, dedicated.limit, pool)
        invariant Records(pending) + Records(firing) <= pool && MayNotify(pending, firing, policy)
        invariant NotifyAll(pending, firing, policy) == NotifyAll(old(pending), old(firing), policy)
        invariant notified + Ids(firing) == Ids(old(firing))
        decreases |firing|
      {
        NotifyStep(pending, firing, policy);
        ghost var id := firing[0].id;
        var notify := NotifyOne(policy, left, pool);
        notified, left := notified + [notify], left - CostAll(policy(id));
        FiredIffFiring();
      }
      NotifyNothing(pending, policy);
    }

    lemma {:induction false} FiredIffFiring()
      requires Ready(0) || exists b :: Ready(b)
      ensures fired == null <==> firing == []
    {
    }

    /** One notification, and the callback of the record notified. */
    method NotifyOne(policy: MuxRecord -> seq<Action>, ghost budget: nat, ghost pool: set<MuxRecord>)
        returns (notify: MuxRecord)
      requires Ready(budget) && firing != [] && fired != null && CostAll(policy(firing[0].id)) <= budget
      requires MayAct(pending, firing[1..], policy(firing[0].id))
      requires Agreeable(firing, policy, dedicated.timer.now, budget, dedicated.limit, pool)
      requires Records(pending) + Records(firing) <= pool
      modifies this, dedicated, dedicated.timer, pool
      ensures notify == old(firing)[0].id && firing == old(firing)[1..]
      ensures Ready(budget - CostAll(policy(notify))) && pending == Effects(old(pending), policy(notify))
      ensures Records(pending) + Records(firing) <= pool
      ensures Agreeable(firing, policy, dedicated.timer.now, budget - CostAll(policy(notify)), dedicated.limit, pool)
    {
      hide *;
      ghost var f, now := firing, dedicated.timer.now;
      notify := Unhook(budget, pool);
      AgreeableSplits(f, policy, now, budget, dedicated.limit, pool);
      PerformAll(policy(notify), budget, pool);
      AgreeableLater(f[1..], policy, now, dedicated.timer.now, budget, CostAll(policy(notify)), dedicated.limit, pool);
    }

    method Unhook(ghost budget: nat, ghost pool: set<MuxRecord>) returns (notify: MuxRecord)
      requires Ready(budget) && firing != [] && fired != null && Records(pending) + Records(firing) <= pool
      modifies this`fired, this`firing, pool
      ensures Ready(budget) && dedicated.timer.now == old(dedicated.timer.now)
      ensures notify == old(firing)[0].id && firing == old(firing)[1..] && pending == old(pending)
      ensures Records(pending) + Records(firing) <= pool
    {
      hide U32, TimerAlarmProofs.Invariant, MuxAlarmProofs.Sorted, MuxAlarmProofs.DistinctIds, InRange;
      EntriesCut(firing, 1);
      EachRecord(firing);
      notify := NotifyNext();
    }

    method PerformPass(ticks: nat, ghost budget: nat)
      requires Ready(budget) && ticks <= budget
      modifies dedicated.timer
      ensures Ready(budget - ticks) && pending == old(pending) && firing == old(firing)
      ensures dedicated.timer.now == old(dedicated.timer.now) + ticks
    {
      hide TimerAlarm.Ticks, TimerAlarmProofs.Invariant, Linked, InRange, MuxAlarmProofs.Sorted;
      ghost var now := dedicated.timer.now;
      Elapse(ticks);
      InRangeSpent(pending, now, now + ticks, budget, ticks);
    }

    method PerformAdd(a: Action, ghost budget: nat, ghost pool: set<MuxRecord>)
      requires a.AddRecord? && Ready(budget) && Cost(a) <= budget
      requires Acceptable(a, dedicated.timer.now, budget, dedicated.limit) && MayAct(pending, firing, [a])
      requires Records(pending) + Records(firing) + Touched(a) <= pool
      modifies this`alarms, this`pending, dedicated, dedicated.timer, pool
      ensures Ready(budget - Cost(a)) && pending == Effect(old(pending), a)
      ensures Records(pending) + Records(firing) <= pool
      ensures old(dedicated.timer.now) <= dedicated.timer.now <= old(dedicated.timer.now) + Cost(a)
    {
      hide U32, TimerAlarmProofs.Invariant, Insert, InRange, MuxAlarmProofs.Sorted, MuxAlarmProofs.DistinctIds;
      ghost var now, q, entry := dedicated.timer.now, pending, Entry(a.record, a.due);
      InRangeLess(q, now, budget, a.n);
      a.record.setting := U32(a.due);
      var _ := Add(a.record, a.due, a.n, a.n0, a.n1, a.n2);
      ghost var k := MuxAlarmProofs.InsertSplits(q, entry);
      InRangeWith(q, k, entry, now, budget);
      InRangeSpent(pending, now, dedicated.timer.now, budget, Cost(a));
    }

    method PerformRemove(a: Action, ghost budget: nat, ghost pool: set<MuxRecord>)
      requires a.RemoveRecord? && Ready(budget) && Cost(a) <= budget
      requires Acceptable(a, dedicated.timer.now, budget, dedicated.limit)
      requires Records(pending) + Records(firing) + Touched(a) <= pool
      modifies this`alarms, this`pending, dedicated, dedicated.timer, pool
      ensures Ready(budget - Cost(a)) && pending == Effect(old(pending), a)
      ensures Records(pending) + Records(firing) <= pool
      ensures old(dedicated.timer.now) <= dedicated.timer.now <= old(dedicated.timer.now) + Cost(a)
    {
      hide U32, TimerAlarmProofs.Invariant, InRange, MuxAlarmProofs.Sorted, MuxAlarmProofs.DistinctIds, Linked;
      ghost var now, q := dedicated.timer.now, pending;
      InRangeLess(q, now, budget, 0);
      var _ := Remove(a.record, a.n0, a.n1, a.n2);
      InRangeWithout(q, a.record, now, budget);
      InRangeSpent(pending, now, dedicated.timer.now, budget, Cost(a));
    }

    /** One turn of the notification loop: the record is off every list before
        its callback is called. */
    method NotifyNext() returns (notify: MuxRecord)
      requires Valid() && fired != null
      modifies this`fired, this`firing, fired
      ensures Valid() && pending == old(pending) && firing == old(firing)[1..]
      ensures notify == old(firing)[0].id && notify.next == null
      ensures notify !in Records(pending) + Records(firing)
    {
      hide U32, Records, TimerAlarmProofs.Invariant;
      ghost var q := firing;
      EachRecord(q);
      EntriesCut(q, 1);
      notify := fired;
      assert notify.next == q[0].id.next;
      fired := notify.next;
      notify.next := null;
      firing := q[1..];
      assert notify in Records(q[..1]) by { EachRecord(q[..1]); }
      forall i | 0 <= i < |firing|
        ensures firing[i].id.next == HeadOf(firing, i + 1) && firing[i].id.setting == U32(firing[i].due)
      {
        assert firing[i] == q[i + 1] && HeadOf(firing, i + 1) == HeadOf(q, i + 2);
      }
    }
  }

  // ----- callbacks -----

  /** What a callback may do: let time pass, add a record for a time, remove one.
      The other numbers are the ticks inside those operations. */
  datatype Action =
    | Pass(ticks: nat)
    | AddRecord(record: MuxRecord, due: int, n: nat, n0: nat, n1: nat, n2: nat)
    | RemoveRecord(record: MuxRecord, n0: nat, n1: nat, n2: nat)

  function Cost(a: Action): nat {
    match a
    case Pass(ticks) => ticks
    case AddRecord(_, _, n, n0, n1, n2) => n + n0 + n1 + n2
    case RemoveRecord(_, n0, n1, n2) => n0 + n1 + n2
  }

  function CostAll(actions: seq<Action>): nat {
    if actions == [] then 0 else Cost(actions[0]) + CostAll(actions[1..])
  }

  function TotalCost(firing: seq<Entry<MuxRecord>>, policy: MuxRecord -> seq<Action>): nat {
    if firing == [] then 0 else CostAll(policy(firing[0].id)) + TotalCost(firing[1..], policy)
  }

  /** The operations take no longer than they may, and times that are added stay
      within half the clock's range for `budget` more ticks. */
  predicate Acceptable(a: Action, now: int, budget: int, limit: int) {
    match a
    case Pass(_) => true
    case AddRecord(_, due, n, n0, n1, n2) =>
      && n <= 0x8000 && n0 <= 0x8000 && n0 + n1 + n2 <= limit
      && -0x8000_0000 + budget <= due - now < 0x8000_0000
    case RemoveRecord(_, n0, n1, n2) => n0 <= 0x8000 && n0 + n1 + n2 <= limit
  }

  ghost function Touched(a: Action): set<MuxRecord> {
    if a.AddRecord? then {a.record} else {}
  }

  ghost predicate Agreeable(firing: seq<Entry<MuxRecord>>, policy: MuxRecord -> seq<Action>,
                            now: int, budget: int, limit: int, pool: set<MuxRecord>) {
    forall e | e in firing :: AllAcceptable(policy(e.id), now, budget, limit, pool)
  }

  ghost predicate AllAcceptable(actions: seq<Action>, now: int, budget: int, limit: int, pool: set<MuxRecord>) {
    forall a | a in actions :: Acceptable(a, now, budget, limit) && Touched(a) <= pool
  }

  /** What the actions make of the pending list. */
  ghost function Effect(pending: seq<Entry<MuxRecord>>, a: Action): seq<Entry<MuxRecord>> {
    match a
    case Pass(_) => pending
    case AddRecord(record, due, _, _, _, _) => Insert(pending, Entry(record, due))
    case RemoveRecord(record, _, _, _) => Without(pending, record)
  }

  ghost function Effects(pending: seq<Entry<MuxRecord>>, actions: seq<Action>): seq<Entry<MuxRecord>>
    decreases |actions|
  {
    if actions == [] then pending else Effects(Effect(pending, actions[0]), actions[1..])
  }

  /** No record is added that is on a list. */
  ghost predicate MayAct(pending: seq<Entry<MuxRecord>>, firing: seq<Entry<MuxRecord>>, actions: seq<Action>)
    decreases |actions|
  {
    actions == [] ||
    (&& (actions[0].AddRecord? ==> actions[0].record !in Records(pending) + Records(firing))
     && MayAct(Effect(pending, actions[0]), firing, actions[1..]))
  }

  /** What the notification loop makes of the pending list. */
  ghost function NotifyAll(pending: seq<Entry<MuxRecord>>, firing: seq<Entry<MuxRecord>>,
                           policy: MuxRecord -> seq<Action>): seq<Entry<MuxRecord>>
    decreases |firing|
  {
    if firing == [] then pending else NotifyAll(Effects(pending, policy(firing[0].id)), firing[1..], policy)
  }

  ghost predicate MayNotify(pending: seq<Entry<MuxRecord>>, firing: seq<Entry<MuxRecord>>,
                            policy: MuxRecord -> seq<Action>)
    decreases |firing|
  {
    firing == [] ||
    (&& MayAct(pending, firing[1..], policy(firing[0].id))
     && MayNotify(Effects(pending, policy(firing[0].id)), firing[1..], policy))
  }

  lemma {:induction false} NotifyStep(
      pending: seq<Entry<MuxRecord>>, firing: seq<Entry<MuxRecord>>, policy: MuxRecord -> seq<Action>)
    requires firing != []
    ensures var id := firing[0].id;
            && Ids(firing) == [id] + Ids(firing[1..])
            && TotalCost(firing, policy) == CostAll(policy(id)) + TotalCost(firing[1..], policy)
            && NotifyAll(pending, firing, policy) == NotifyAll(Effects(pending, policy(id)), firing[1..], policy)
            && (MayNotify(pending, firing, policy) ==>
                  && MayAct(pending, firing[1..], policy(id))
                  && MayNotify(Effects(pending, policy(id)), firing[1..], policy))
  {
  }

  lemma {:induction false} NotifyNothing(pending: seq<Entry<MuxRecord>>, policy: MuxRecord -> seq<Action>)
    ensures Ids<MuxRecord>([]) == [] && NotifyAll(pending, [], policy) == pending && TotalCost([], policy) == 0
  {
  }

  lemma {:induction false} NoActions(pending: seq<Entry<MuxRecord>>)
    ensures CostAll([]) == 0 && Effects(pending, []) == pending
  {
  }

  lemma {:induction false} ActionsFirst(
      pending: seq<Entry<MuxRecord>>, firing: seq<Entry<MuxRecord>>, actions: seq<Action>)
    requires actions != []
    ensures var a, rest := actions[0], actions[1..];
            && CostAll(actions) == Cost(a) + CostAll(rest)
            && Effects(pending, actions) == Effects(Effect(pending, a), rest)
            && (MayAct(pending, firing, actions) ==>
                  MayAct(pending, firing, [a]) && MayAct(Effect(pending, a), firing, rest))
  {
    hide Records, Effect;
    assert [actions[0]][1..] == [];
  }

  lemma {:induction false} AcceptableFirst(actions: seq<Action>, now: int, budget: nat, limit: int,
                                           pool: set<MuxRecord>)
    requires actions != [] && AllAcceptable(actions, now, budget, limit, pool)
    ensures Acceptable(actions[0], now, budget, limit) && Touched(actions[0]) <= pool
    ensures AllAcceptable(actions[1..], now, budget, limit, pool)
  {
    hide Acceptable, Touched;
  }

  /** While time passes at most as fast as the budget is used up. */
  lemma {:induction false} AcceptableLater(actions: seq<Action>, now: int, later: int, budget: nat, cost: nat,
                                           limit: int, pool: set<MuxRecord>)
    requires AllAcceptable(actions, now, budget, limit, pool) && now <= later <= now + cost
    ensures AllAcceptable(actions, later, budget - cost, limit, pool)
  {
  }

  lemma {:induction false} AgreeableLater(firing: seq<Entry<MuxRecord>>, policy: MuxRecord -> seq<Action>,
                                          now: int, later: int, budget: nat, cost: nat, limit: int,
                                          pool: set<MuxRecord>)
    requires Agreeable(firing, policy, now, budget, limit, pool) && now <= later <= now + cost
    ensures Agreeable(firing, policy, later, budget - cost, limit, pool)
  {
    hide AllAcceptable;
    forall e | e in firing ensures AllAcceptable(policy(e.id), later, budget - cost, limit, pool) {
      AcceptableLater(policy(e.id), now, later, budget, cost, limit, pool);
    }
  }

  lemma {:induction false} AgreeableSplits(firing: seq<Entry<MuxRecord>>, policy: MuxRecord -> seq<Action>,
                                           now: int, budget: nat, limit: int, pool: set<MuxRecord>)
    requires firing != [] && Agreeable(firing, policy, now, budget, limit, pool)
    ensures AllAcceptable(policy(firing[0].id), now, budget, limit, pool)
    ensures Agreeable(firing[1..], policy, now, budget, limit, pool)
  {
    hide AllAcceptable;
    assert firing[0] in firing && forall e | e in firing[1..] :: e in firing;
  }

  lemma {:induction false} ElapseKeepsCount(a: TimerAlarm.Alarm, n: nat)
    requires TimerAlarmProofs.Invariant(a) && TimerAlarm.MayElapse(a.hw, n)
    ensures TimerAlarm.Handled(TimerAlarm.Ticks(a.hw, n)) == TimerAlarm.Handled(a.hw)
  {
    TimerAlarmProofs.TicksSynchronized(a.hw, n);
  }

  /** The same callbacks as steps of module MuxAlarm. */
  function StepOf(a: Action): Step<MuxRecord> {
    match a
    case Pass(ticks) => Advance(ticks)
    case AddRecord(record, due, _, _, _, _) => Step.Add(Entry(record, due))
    case RemoveRecord(record, _, _, _) => Step.Remove(record)
  }

  function StepsOf(actions: seq<Action>): seq<Step<MuxRecord>> {
    if actions == [] then [] else [StepOf(actions[0])] + StepsOf(actions[1..])
  }

  function LoopSteps(firing: seq<Entry<MuxRecord>>, policy: MuxRecord -> seq<Action>): seq<Step<MuxRecord>> {
    if firing == [] then [] else [Notify] + StepsOf(policy(firing[0].id)) + LoopSteps(firing[1..], policy)
  }

  /** What the loop does is a run of module MuxAlarm, so that all that is proved of
      those runs holds of it. */
  lemma {:induction false} LoopIsRun(m: Mux<MuxRecord>, policy: MuxRecord -> seq<Action>)
    requires MayNotify(m.pending, m.firing, policy)
    ensures var steps := LoopSteps(m.firing, policy);
            && Runs(m, steps)
            && After(m, steps).firing == []
            && After(m, steps).pending == NotifyAll(m.pending, m.firing, policy)
    decreases |m.firing|
  {
    hide MayAct, Effects, StepsOf, Apply;
    if m.firing != [] {
      var actions, rest := policy(m.firing[0].id), LoopSteps(m.firing[1..], policy);
      var n := Apply(m, Notify);
      NotifyIs(m);
      ActionsAreRun(n, actions, rest);
      var o := After(n, StepsOf(actions));
      LoopIsRun(o, policy);
      var steps := [Notify] + StepsOf(actions) + rest;
      assert steps[0] == Notify && steps[1..] == StepsOf(actions) + rest;
    }
  }

  lemma {:induction false} NotifyIs(m: Mux<MuxRecord>)
    requires m.firing != []
    ensures Enabled(m, Notify)
    ensures var n := Apply(m, Notify); n.pending == m.pending && n.firing == m.firing[1..]
  {
  }

  /** The actions of one callback, and whatever comes after them. */
  lemma {:induction false} ActionsAreRun(m: Mux<MuxRecord>, actions: seq<Action>, more: seq<Step<MuxRecord>>)
    requires MayAct(m.pending, m.firing, actions)
    ensures Runs(m, StepsOf(actions))
    ensures var n := After(m, StepsOf(actions));
            && n.pending == Effects(m.pending, actions) && n.firing == m.firing
            && (Runs(n, more) ==>
                  Runs(m, StepsOf(actions) + more) && After(m, StepsOf(actions) + more) == After(n, more))
    decreases |actions|
  {
    hide Records, Effect, Apply, Enabled;
    if actions == [] {
      assert [] + more == more;
    } else {
      ActionIsStep(m, actions[0]);
      var n := Apply(m, StepOf(actions[0]));
      ActionsAreRun(n, actions[1..], more);
      var steps := StepsOf(actions);
      assert steps[1..] == StepsOf(actions[1..]);
      assert (steps + more)[0] == steps[0] && (steps + more)[1..] == steps[1..] + more;
    }
  }

  lemma {:induction false} ActionIsStep(m: Mux<MuxRecord>, a: Action)
    requires a.AddRecord? ==> a.record !in Records(m.pending) + Records(m.firing)
    ensures Enabled(m, StepOf(a))
    ensures var n := Apply(m, StepOf(a)); n.pending == Effect(m.pending, a) && n.firing == m.firing
  {
    var q := m.firing + m.pending;
    assert forall i | 0 <= i < |q| :: Ids(q)[i] == q[i].id && q[i].id in Records(m.firing) + Records(m.pending) by {
      EachRecord(m.firing);
      EachRecord(m.pending);
    }
  }

  // ----- adding what is to be notified -----

  /** The list that the notification loop has after `alarm` was added at place `k`
      of the pending list. */
  ghost function RunsOn(firing: seq<Entry<MuxRecord>>, pending: seq<Entry<MuxRecord>>, k: nat,
                        alarm: MuxRecord): seq<MuxRecord>
    requires k <= |pending|
  {
    var j := Find(firing, alarm);
    if j == |firing| then Ids(firing) else Ids(firing[..j]) + Ids(pending[k..])
  }

  ghost function Added(pending: seq<Entry<MuxRecord>>, k: nat, alarm: MuxRecord, due: int): seq<Entry<MuxRecord>>
    requires k <= |pending|
  {
    pending[..k] + [Entry(alarm, due)] + pending[k..]
  }

  lemma {:induction false} RunsOnAt(
      firing: seq<Entry<MuxRecord>>, pending: seq<Entry<MuxRecord>>, k: nat, alarm: MuxRecord, due: int)
    requires k <= |pending|
    ensures var j, ids := Find(firing, alarm), RunsOn(firing, Added(pending, k, alarm, due), k, alarm);
            && |ids| == (if j < |firing| then j + 1 + |pending| - k else j)
            && forall i | 0 <= i < |ids| ::
                 ids[i] == if i < j then firing[i].id else if i == j then alarm else pending[k + i - j - 1].id
    ensures Find(firing, alarm) < |firing| <==> alarm in Records(firing)
  {
    hide Find;
    EachRecord(firing);
  }

  lemma {:induction false} RunsOnIs(
      firing: seq<Entry<MuxRecord>>, pending: seq<Entry<MuxRecord>>, k: nat, alarm: MuxRecord, due: int)
    requires k <= |pending| && MuxAlarmProofs.DistinctIds(firing) && MuxAlarmProofs.DistinctIds(pending)
    requires Records(pending) !! Records(firing) && alarm !in Records(pending)
    ensures var j, ids := Find(firing, alarm), RunsOn(firing, Added(pending, k, alarm, due), k, alarm);
            && Lists.Distinct(ids)
            && (forall r | r in ids :: r in Records(pending) || r in Records(firing) || r == alarm)
            && (j < |firing| ==> ids == Ids(firing[..j]) + [alarm] + Ids(pending[k..]) && alarm in ids)
            && (forall i | j < i < |firing| ::
                  firing[i].id !in ids && firing[i].id !in Ids(pending[..k]) + [alarm])
            && (j < |firing| ==> forall i | 0 <= i < k :: pending[i].id !in ids)
  {
    hide Find, RunsOn;
    RunsOnAt(firing, pending, k, alarm, due);
    EachRecord(pending);
    EachRecord(firing);
    hide Records;
    var j := Find(firing, alarm);
    if j < |firing| {
      assert RunsOn(firing, Added(pending, k, alarm, due), k, alarm)[j] == alarm;
    }
  }

  /** The loop goes on as if nothing had been added exactly if the alarm is not one
      of those to be notified, or is the last of them and the last to be pending. */
  lemma {:induction false} RunsOnAsDetachedIff(
      firing: seq<Entry<MuxRecord>>, pending: seq<Entry<MuxRecord>>, k: nat, alarm: MuxRecord, due: int)
    requires k <= |pending| && MuxAlarmProofs.DistinctIds(firing)
    requires Records(pending) !! Records(firing) && alarm !in Records(pending)
    ensures RunsOn(firing, Added(pending, k, alarm, due), k, alarm) == Ids(firing)
            <==> alarm !in Records(firing) || (alarm == firing[|firing| - 1].id && k == |pending|)
  {
    hide Find, RunsOn;
    RunsOnAt(firing, pending, k, alarm, due);
    EachRecord(pending);
    EachRecord(firing);
    hide Records, Added;
    var ids, j := RunsOn(firing, Added(pending, k, alarm, due), k, alarm), Find(firing, alarm);
    if j + 1 < |firing| && j + 1 < |ids| {
      assert ids[j + 1] == pending[k].id && ids[j + 1] != Ids(firing)[j + 1];
    }
  }

  /** What is behind a place in the shared list after the callback has taken the due
      alarms off it is not due. */
  lemma {:induction false} BehindIsNotDue(q: seq<Entry<MuxRecord>>, now: int, k: nat)
    requires MuxAlarmProofs.Sorted(q) && DueCount(q, now) + k <= |q|
    ensures forall e | e in q[DueCount(q, now)..][k..] :: now < e.due
  {
    MuxAlarmProofs.DueCountSplits(q, now);
  }

  // ----- ranges and lists -----

  lemma {:induction false} InRangeSpent(q: seq<Entry<MuxRecord>>, now: int, later: int, budget: nat, cost: nat)
    requires InRange(q, now, budget) && now <= later <= now + cost && cost <= budget
    ensures InRange(q, later, budget - cost)
  {
  }

  lemma {:induction false} InRangeLess(q: seq<Entry<MuxRecord>>, now: int, budget: nat, less: nat)
    requires InRange(q, now, budget) && less <= budget
    ensures InRange(q, now, less)
  {
  }

  lemma {:induction false} InRangeWith(q: seq<Entry<MuxRecord>>, k: nat, entry: Entry<MuxRecord>, now: int, budget: nat)
    requires InRange(q, now, budget) && k <= |q| && -0x8000_0000 + budget <= entry.due - now < 0x8000_0000
    ensures InRange(q[..k] + [entry] + q[k..], now, budget)
  {
  }

  lemma {:induction false} InRangeWithout(q: seq<Entry<MuxRecord>>, alarm: MuxRecord, now: int, budget: nat)
    requires InRange(q, now, budget)
    ensures InRange(Without(q, alarm), now, budget)
  {
  }

  lemma {:induction false} InRangeLater(q: seq<Entry<MuxRecord>>, now: int, n: nat, ticks: nat)
    requires InRange(q, now, ticks) && n <= ticks
    ensures InRange(q, now + n, 0)
  {
  }

  lemma {:induction false} InRangeInserted(q: seq<Entry<MuxRecord>>, k: nat, entry: Entry<MuxRecord>, now: int, n: nat)
    requires InRange(q, now, n) && k <= |q| && -0x8000_0000 + n <= entry.due - now < 0x8000_0000
    ensures InRange(q[..k] + [entry] + q[k..], now + n, 0)
  {
  }

  lemma {:induction false} InRangeSuffix(q: seq<Entry<MuxRecord>>, k: nat, now: int)
    requires InRange(q, now, 0) && k <= |q|
    ensures InRange(q[k..], now, 0)
  {
  }

  lemma {:induction false} RemainsSorted(q: seq<Entry<MuxRecord>>, alarm: MuxRecord, now: int)
    requires MuxAlarmProofs.Sorted(q) && InRange(q, now, 0)
    ensures MuxAlarmProofs.Sorted(Without(q, alarm)) && InRange(Without(q, alarm), now, 0)
  {
  }

  lemma {:induction false} EntryUnlinked(q: seq<Entry<MuxRecord>>, k: nat)
    requires k < |q| && MuxAlarmProofs.DistinctIds(q)
    ensures var r := q[..k] + q[k + 1..]; MuxAlarmProofs.DistinctIds(r) && Records(r) <= Records(q)
  {
  }

  lemma {:induction false} EntriesCut(q: seq<Entry<MuxRecord>>, k: nat)
    requires k <= |q| && MuxAlarmProofs.DistinctIds(q)
    ensures Records(q[..k]) !! Records(q[k..])
    ensures Records(q[..k]) <= Records(q) && Records(q[k..]) <= Records(q)
    ensures MuxAlarmProofs.DistinctIds(q[..k]) && MuxAlarmProofs.DistinctIds(q[k..])
  {
  }

  /** How the callback compares a setting with the time. */
  ghost predicate Passes(due: int, now: int) {
    S32(U32(due) - U32(now)) <= 0
  }

  /** How many leading entries the callback takes off the list. */
  ghost function Taken<Id>(q: seq<Entry<Id>>, now: int): (k: nat)
    ensures k <= |q|
  {
    if q == [] || !Passes(q[0].due, now) then 0 else 1 + Taken(q[1..], now)
  }

  lemma {:induction false} TakenAt<Id>(q: seq<Entry<Id>>, now: int, k: nat)
    requires k <= |q|
    requires forall i | 0 <= i < k :: Passes(q[i].due, now)
    requires k < |q| ==> !Passes(q[k].due, now)
    ensures Taken(q, now) == k
  {
    hide Passes;
    if k > 0 {
      TakenAt(q[1..], now, k - 1);
    }
  }

  /** Within half the clock's range those are the entries that are due. */
  lemma {:induction false} TakenIsDue(q: seq<Entry<MuxRecord>>, now: int)
    requires InRange(q, now, 0)
    ensures Taken(q, now) == DueCount(q, now)
  {
    hide S32, U32;
    if q != [] {
      SignedDistance(q[0].due, now);
      TakenIsDue(q[1..], now);
    }
  }

  /** Exactly how late the head may be: it is taken off the list unless more than
      2^31 ticks, or that and whole ranges of the clock, have gone by since. */
  lemma {:induction false} HeadTakenIff<Id>(q: seq<Entry<Id>>, now: int)
    requires q != []
    ensures 1 <= Taken(q, now) <==> U32(now - q[0].due) <= 0x8000_0000
  {
  }

  lemma {:induction false} DueHeadTaken(q: seq<Entry<MuxRecord>>, now: int)
    requires q != [] && q[0].due <= now && MuxAlarmProofs.Sorted(q)
    ensures 1 <= DueCount(q, now)
    ensures forall e | e in q[..DueCount(q, now)] :: e.due <= now
    ensures forall e | e in q[DueCount(q, now)..] :: now < e.due
  {
    MuxAlarmProofs.DueCountSplits(q, now);
  }

  /** A due alarm within half the clock's range is not one that goes unnoticed. */
  lemma {:induction false} HeadCanRun(a: TimerAlarm.Alarm)
    requires TimerAlarmProofs.Invariant(a) && a.isSet && !a.hw.taifg
    requires a.due <= a.hw.now <= a.due + 0x8000_0000
    ensures TimerAlarm.Enabled(a, TimerAlarm.CompareIsr)
  {
    assert TimerAlarmProofs.NotMissed(a);
    SameCycle(TimerAlarmProofs.DueCycle(a), TimerAlarm.Handled(a.hw));
  }

  lemma {:induction false} EachRecord(q: seq<Entry<MuxRecord>>)
    ensures forall i {:trigger q[i].id} | 0 <= i < |q| :: q[i].id in Records(q)
  {
  }

  lemma {:induction false} EntryInserted(q: seq<Entry<MuxRecord>>, k: nat, entry: Entry<MuxRecord>)
    requires k <= |q| && MuxAlarmProofs.DistinctIds(q) && entry.id !in Records(q)
    ensures var r := q[..k] + [entry] + q[k..];
            && MuxAlarmProofs.DistinctIds(r)
            && Records(r) == Records(q) + {entry.id}
  {
  }

  lemma {:induction false} InsertAt<Id>(q: seq<Entry<Id>>, entry: Entry<Id>, k: nat)
    requires k <= |q|
    requires forall i | 0 <= i < k :: q[i].due <= entry.due
    requires k < |q| ==> entry.due < q[k].due
    ensures Insert(q, entry) == q[..k] + [entry] + q[k..]
  {
    if k > 0 {
      var p := q[1..];
      assert p[..k - 1] == q[1..k] && p[k - 1..] == q[k..];
      InsertAt(p, entry, k - 1);
      assert q[..k] == [q[0]] + q[1..k];
    }
  }

  lemma {:induction false} SetDedicatedFacts(a: TimerAlarm.Alarm, due: int, n0: nat, n1: nat, n2: nat)
    requires TimerAlarmProofs.Invariant(a) && a.enabled && !a.isSet
    requires n0 <= 0x8000 && n0 + n1 + n2 <= a.limit && TimerAlarm.MayElapse(a.hw, n0 + n1 + n2)
    requires -0x8000_0000 <= due - a.hw.now < 0x8000_0000
    ensures var (b, rv) := TimerAlarm.Set(a, U32(due), true, n0, n1, n2);
            && TimerAlarmProofs.Invariant(b) && b.enabled && b.isSet && b.due == due && 0 <= rv
            && a.hw.now <= b.hw.now <= a.hw.now + n0 + n1 + n2
            && TimerAlarm.Handled(b.hw) == TimerAlarm.Handled(a.hw)
  {
    hide TimerAlarm.Set;
    TimerAlarmProofs.SetKeepsCount(a, U32(due), true, n0, n1, n2);
    TimerAlarmProofs.SetTakesTime(a, U32(due), true, n0, n1, n2);
    TimerAlarmProofs.SetInvariant(a, U32(due), true, n0, n1, n2);
    TimerAlarmProofs.SetVerdict(a, due, true, n0, n1, n2);
  }
}
