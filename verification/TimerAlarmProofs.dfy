/** What alarms promise over every interleaving of ticks, interrupts and calls. */
module TimerAlarmProofs {
  import opened Words
  import opened TimerAlarm

  // ----- the counter -----

  /** How many times in (a, b] are congruent to `c`: none iff the two floors agree. */
  ghost predicate Meets(a: int, b: int, c: int) {
    (b - c) / 0x1_0000 > (a - c) / 0x1_0000
  }

  lemma {:induction false} TicksElapsed(h: Hardware, n: nat)
    requires 0 <= h.ccr < 0x1_0000
    ensures Ticks(h, n) == h.(now := h.now + n,
                              taifg := h.taifg || (h.now + n) / 0x1_0000 > h.now / 0x1_0000,
                              ccifg := h.ccifg || Meets(h.now, h.now + n, h.ccr))
  {
    if n > 0 {
      TicksElapsed(h, n - 1);
      var m := h.now + n - 1;
      NextTick(m, 0);
      NextTick(m, h.ccr);
    }
  }

  /** Time passing keeps the registers in step with the true time. */
  lemma {:induction false} TicksSynchronized(h: Hardware, n: nat)
    requires Synchronized(h) && MayElapse(h, n)
    ensures Synchronized(Ticks(h, n)) && Handled(Ticks(h, n)) == Handled(h)
    ensures Ticks(h, n).now == h.now + n && Ticks(h, n).ccr == h.ccr && Ticks(h, n).ccie == h.ccie
  {
    TicksElapsed(h, n);
  }

  /** The 32-bit counter is the true time of its first read, with `n` ticks before
      the overflow flag is read, exactly if an overflow was pending from the start,
      or the counter was in its upper half, or those ticks do not overflow it. */
  lemma {:induction false} CounterIsTrueTime(h: Hardware, n: nat)
    requires Synchronized(h)
    ensures Counter(h, n) == U32(h.now)
            <==> h.taifg || h.now % 0x1_0000 >= 0x8000 || h.now % 0x1_0000 + n < 0x1_0000
  {
    TicksElapsed(h, n);
    var q, r := h.now / 0x1_0000, h.now % 0x1_0000;
    CountOn(Handled(h));
    if h.taifg || r >= 0x8000 || r + n < 0x1_0000 {
      assert OverflowAdjusted(Ticks(h, n), r) == U32(q);
      Join(q, r);
    } else {
      assert OverflowAdjusted(Ticks(h, n), r) == U32(q + 1);
      Join(q + 1, r);
      assert (q + 1) * 0x1_0000 + r == h.now + 0x1_0000;
      NotSame(h.now);
    }
  }

  /** The capture handler of the GPS driver, `now + (int)(ccr - (unsigned int)now)`,
      finds the captured time exactly if at most 2^15 ticks have passed since; its
      own comment promises 65535. */
  lemma {:induction false} CaptureBySignExtension(captured: int, now: int)
    requires 0 <= now - captured <= 0xFFFF
    ensures U32(now + S16(U16(captured) - U16(now))) == U32(captured) <==> now - captured <= 0x8000
  {
    var e := now - captured;
    var k := now / 0x1_0000 - captured / 0x1_0000;
    assert U16(captured) - U16(now) == -e + 0x1_0000 * k;
    WholeCycles(-e, k);
    if e <= 0x8000 {
      assert U16(-e) == if e == 0 then 0 else 0x1_0000 - e;
    } else {
      assert U16(-e) == 0x1_0000 - e;
      assert now + S16(U16(captured) - U16(now)) == captured + 0x1_0000;
      NotSame(captured);
    }
  }

  lemma {:induction false} NotSame(t: int)
    ensures U32(t + 0x1_0000) != U32(t)
  {
  }

  /** `ulBSP430timerCaptureCounter_ni` on a capture made at most 2^15 ticks ago,
      which is all its documentation asks for: it is right exactly if no overflow
      was handled since. */
  lemma {:induction false} CaptureCounterIffNoOverflowHandled(h: Hardware, captured: int)
    requires Synchronized(h) && 0 <= captured && 0 <= h.now - captured <= 0x8000
    ensures U32(OverflowAdjusted(h, U16(captured)) * 0x1_0000 + U16(captured)) == U32(captured)
            <==> h.taifg || captured / 0x1_0000 == h.now / 0x1_0000
  {
    var q, r := captured / 0x1_0000, captured % 0x1_0000;
    CountOn(Handled(h));
    if h.taifg || q == h.now / 0x1_0000 {
      assert OverflowAdjusted(h, r) == U32(q);
      Join(q, r);
    } else {
      assert OverflowAdjusted(h, r) == U32(q + 1);
      Join(q + 1, r);
      assert (q + 1) * 0x1_0000 + r == captured + 0x1_0000;
      NotSame(captured);
    }
  }

  // ----- what every step keeps -----

  /** The overflow cycle in which the alarm is due. */
  function DueCycle(a: Alarm): int {
    a.due / 0x1_0000
  }

  /** The registers describe the alarm that was set. */
  ghost predicate Configured(a: Alarm) {
    && Synchronized(a.hw)
    && (a.isSet ==> a.enabled)
    && (a.hw.ccie ==> a.isSet)
    && (a.isSet ==>
          && a.setting == U32(a.due)
          && a.hw.ccr == U16(a.due)
          && a.due - a.hw.now < 0x8000_0000)
  }

  /** The compare interrupt is enabled no sooner than the cycle in which the
      alarm is due, except for an alarm forced because it is about to be due. */
  ghost predicate NotEarly(a: Alarm) {
    && (a.hw.ccie ==> DueCycle(a) <= Handled(a.hw) || a.due <= a.hw.now + a.early)
    && (a.hw.ccie && a.hw.ccifg ==> a.due <= a.hw.now + a.early)
  }

  /** Cycle numbers are compared in 16 bits.  In a later cycle with the number of
      the alarm's own, the overflow handler takes the alarm for one still to come,
      until the counter reaches the lower half of the setting. */
  ghost predicate Unnoticed(a: Alarm) {
    && DueCycle(a) < Handled(a.hw)
    && U16(Handled(a.hw)) == U16(DueCycle(a))
    && a.hw.now < MatchTime(a)
  }

  /** When the counter reaches the alarm's lower half in the current cycle. */
  ghost function MatchTime(a: Alarm): int {
    Handled(a.hw) * 0x1_0000 + U16(a.due)
  }

  /** From the cycle in which the alarm is due its compare interrupt is enabled,
      and once it is due that interrupt is pending, except where it is unnoticed. */
  ghost predicate NotMissed(a: Alarm) {
    a.isSet && DueCycle(a) <= Handled(a.hw) ==>
      a.hw.ccie && (a.due <= a.hw.now ==> (a.hw.ccifg <==> !Unnoticed(a)))
  }

  /** Every callback answers the setting just before it in the history, which
      it cannot answer twice, and comes no sooner than that setting allows. */
  ghost predicate HistoryOk(a: Alarm) {
    && (forall i | 0 <= i < |a.log| && a.log[i].Fired? ::
          && 0 < i
          && a.log[i - 1] == Armed(a.log[i].due, a.log[i].early)
          && a.log[i].early < a.limit
          && a.log[i].due <= a.log[i].at + a.log[i].early)
    && (a.isSet ==> a.early < a.limit)
    && (a.isSet ==> a.log != [] && a.log[|a.log| - 1] == Armed(a.due, a.early))
  }

  ghost predicate Invariant(a: Alarm) {
    Configured(a) && NotEarly(a) && NotMissed(a) && HistoryOk(a)
  }

  /** The compare flag rises at the due time, and from the cycle in which the
      alarm is due it rises no sooner. */
  lemma {:induction false} MeetsDue(a: int, b: int, due: int)
    requires a <= b
    ensures a < due <= b ==> Meets(a, b, U16(due))
    ensures due / 0x1_0000 <= a / 0x1_0000 && Meets(a, b, U16(due)) ==> due <= b
  {
  }

  lemma {:induction false} TicksInvariant(a: Alarm, n: nat)
    requires Invariant(a) && MayElapse(a.hw, n)
    ensures Invariant(a.(hw := Ticks(a.hw, n)))
  {
    TicksElapsed(a.hw, n);
    TicksSynchronized(a.hw, n);
    MeetsDue(a.hw.now, a.hw.now + n, a.due);
    MeetsDue(a.hw.now, a.hw.now + n, MatchTime(a));
    SameLowHalf(Handled(a.hw), a.due);
  }

  lemma {:induction false} SameLowHalf(c: int, due: int)
    ensures U16(c * 0x1_0000 + U16(due)) == U16(due)
    ensures (c * 0x1_0000 + U16(due)) / 0x1_0000 == c
  {
  }

  /** The 16-bit cycle numbers agree when the cycles do, or when the alarm is a
      whole range of cycles late. */
  lemma {:induction false} CycleMatches(a: Alarm)
    requires Configured(a) && a.isSet
    ensures U16(a.hw.overflow) == a.setting / 0x1_0000 <==> U16(Handled(a.hw)) == U16(DueCycle(a))
    ensures U16(a.hw.overflow) == a.setting / 0x1_0000 ==>
              DueCycle(a) == Handled(a.hw) || DueCycle(a) + 0x1_0000 <= Handled(a.hw)
  {
    UpperHalf(a.due);
    LowerHalf(Handled(a.hw));
    SameCycle(DueCycle(a), Handled(a.hw));
  }

  /** In a matching cycle the compare flag as `Configure` leaves it says whether
      the counter has reached the alarm's lower half. */
  lemma {:induction false} FlagTellsMatch(from: int, t: int, at: int, handled: int)
    requires from <= t && handled <= from / 0x1_0000 && at / 0x1_0000 == handled
    requires t <= at || t / 0x1_0000 == handled
    ensures Meets(from, t, U16(at)) || U16(t) >= U16(at) <==> at <= t
  {
  }

  /** The state in which `Configure` leaves the hardware in the matching cycle. */
  lemma {:induction false} ConfigureMatching(a: Alarm, n1: nat, n2: nat)
    requires Configured(a) && a.isSet && MayElapse(a.hw, n1 + n2)
    requires U16(a.hw.overflow) == a.setting / 0x1_0000
    ensures var t := a.hw.now + n1 + n2;
            Configure(a, n1, n2) == a.(hw := Ticks(a.hw, n1 + n2).(
              ccie := true,
              ccifg := Meets(a.hw.now + n1, t, U16(a.due)) || U16(t) >= U16(a.due)))
  {
    hide U32, Handled, MayElapse, Meets, Ticks;
    TicksElapsed(a.hw, n1 + n2);
    TicksElapsed(a.hw, n1);
    TicksElapsed(Ticks(a.hw, n1).(ccifg := false, ccie := true), n2);
    LowerHalf(a.due);
  }

  /** Configuring keeps the promises when the alarm cannot be passed over: in a
      matching cycle, the counter does not leave that cycle before it is read,
      unless it has not reached the alarm's lower half by then. */
  lemma {:induction false} ConfigureInvariant(a: Alarm, n1: nat, n2: nat)
    requires Configured(a) && HistoryOk(a) && a.isSet && MayElapse(a.hw, n1 + n2)
    requires NotEarly(a)
    requires U16(a.hw.overflow) != a.setting / 0x1_0000 ==> NotMissed(a)
    requires U16(a.hw.overflow) == a.setting / 0x1_0000 ==> InTime(a, n1 + n2)
    ensures Invariant(Configure(a, n1, n2))
  {
    if U16(a.hw.overflow) == a.setting / 0x1_0000 {
      ConfigureMatchingInvariant(a, n1, n2);
    } else {
      TicksInvariant(a, n1 + n2);
    }
  }

  ghost predicate InTime(a: Alarm, n: nat) {
    a.hw.now + n <= MatchTime(a) || (a.hw.now + n) / 0x1_0000 == Handled(a.hw)
  }

  lemma {:induction false} ConfigureMatchingInvariant(a: Alarm, n1: nat, n2: nat)
    requires Configured(a) && HistoryOk(a) && a.isSet && MayElapse(a.hw, n1 + n2)
    requires U16(a.hw.overflow) == a.setting / 0x1_0000 && InTime(a, n1 + n2)
    ensures Invariant(Configure(a, n1, n2))
  {
    hide Ticks, Meets, U16, U32, Configure;
    var t := a.hw.now + n1 + n2;
    CycleMatches(a);
    ConfigureMatching(a, n1, n2);
    TicksSynchronized(a.hw, n1 + n2);
    SameLowHalf(Handled(a.hw), a.due);
    SameLowHalf(DueCycle(a), a.due);
    FlagTellsMatch(a.hw.now + n1, t, MatchTime(a), Handled(a.hw));
    SplitDue(a);
  }

  lemma {:induction false} SplitDue(a: Alarm)
    ensures a.due == DueCycle(a) * 0x1_0000 + U16(a.due) && 0 <= U16(a.due) < 0x1_0000
  {
  }

  lemma {:induction false} OverflowInvariant(a: Alarm, n1: nat, n2: nat)
    requires Invariant(a) && Enabled(a, OverflowIsr(n1, n2))
    ensures Invariant(OverflowInterrupt(a, n1, n2))
  {
    var b := a.(hw := a.hw.(taifg := false, overflow := (a.hw.overflow + 1) % 0x1_0000_0000));
    assert Handled(b.hw) == Handled(a.hw) + 1;
    CountOn(Handled(a.hw));
    assert Synchronized(b.hw);
    if b.enabled && b.isSet {
      CycleMatches(b);
      LowerHalf(Handled(b.hw));
      UpperHalf(b.due);
      ConfigureInvariant(b, n1, n2);
    } else {
      TicksInvariant(b, n1 + n2);
    }
  }

  /** For limits of a whole cycle or more it does not even matter how long setting
      an alarm takes. */
  lemma {:induction false} SetInvariant(a: Alarm, setting: int, force: bool, n0: nat, n1: nat, n2: nat)
    requires Invariant(a) && 0 <= setting < 0x1_0000_0000 && n0 <= 0x8000 && MayElapse(a.hw, n0 + n1 + n2)
    requires n0 + n1 + n2 <= a.limit || 0x1_0000 <= a.limit
    ensures Invariant(Set(a, setting, force, n0, n1, n2).0)
  {
    hide Ticks, U16, U32, S32, Configure, Counter;
    CounterIsTrueTime(a.hw, n0);
    TicksInvariant(a, n0);
    TicksSynchronized(a.hw, n0);
    var delay := S32(setting - Counter(a.hw, n0));
    var rv := Judge(a, delay);
    if rv == 0 || (rv > 0 && force) {
      ArmInvariant(a, setting, rv, n0);
      var b := Arm(a, Ticks(a.hw, n0), setting, delay, rv);
      CycleMatches(b);
      SplitDue(b);
      if rv == 0 {
        ConfigureInvariant(b, n1, n2);
      }
    }
  }

  /** Arming records what the setting means, and nothing can go off yet. */
  lemma {:induction false} ArmInvariant(a: Alarm, setting: int, rv: int, n0: nat)
    requires Invariant(a) && 0 <= setting < 0x1_0000_0000
    requires MayElapse(a.hw, n0) && n0 <= 0x8000
    requires rv >= 0 && rv == Judge(a, S32(setting - U32(a.hw.now)))
    ensures var b := Arm(a, Ticks(a.hw, n0), setting, S32(setting - U32(a.hw.now)), rv);
            && Configured(b) && HistoryOk(b) && !b.hw.ccie
            && Handled(b.hw) == Handled(a.hw)
            && -0x8000_0000 <= b.due - a.hw.now
            && (rv == 0 ==> a.hw.now + a.limit <= b.due)
            && (rv > 0 ==> b.due <= a.hw.now + b.early)
  {
    TicksSynchronized(a.hw, n0);
    MeantTime(a.hw.now, setting);
  }

  lemma {:induction false} StepInvariant(a: Alarm, step: Step)
    requires Invariant(a) && Enabled(a, step)
    ensures Invariant(Apply(a, step))
  {
    match step
    case Elapse(n) => TicksInvariant(a, n);
    case OverflowIsr(n1, n2) => OverflowInvariant(a, n1, n2);
    case SetAlarm(setting, force, n0, n1, n2) => SetInvariant(a, setting, force, n0, n1, n2);
    case _ =>
  }

  /** Reading the counter after a cancellation. */
  lemma {:induction false} CancelThenRead(a: Alarm, n: nat)
    requires Invariant(a) && MayElapse(a.hw, n) && n <= 0x8000
    ensures var b := Cancel(a).0;
            && Invariant(b.(hw := Ticks(b.hw, n)))
            && Counter(b.hw, n) == U32(a.hw.now)
            && Ticks(b.hw, n).now == a.hw.now + n
            && Handled(Ticks(b.hw, n)) == Handled(a.hw)
  {
    hide Ticks, Counter, U32;
    var b := Cancel(a).0;
    StepInvariant(a, CancelAlarm);
    TicksInvariant(b, n);
    TicksSynchronized(b.hw, n);
    CounterIsTrueTime(b.hw, n);
  }

  /** Reading the counter in the callback of the compare interrupt. */
  lemma {:induction false} CompareThenRead(a: Alarm, n: nat)
    requires Invariant(a) && Enabled(a, CompareIsr) && MayElapse(a.hw, n) && n <= 0x8000
    ensures var b := CompareInterrupt(a);
            && !b.isSet && b.enabled
            && Invariant(b.(hw := Ticks(b.hw, n)))
            && Counter(b.hw, n) == U32(a.hw.now)
            && Ticks(b.hw, n).now == a.hw.now + n
            && Handled(Ticks(b.hw, n)) == Handled(a.hw)
  {
    hide Ticks, Counter, U32;
    var b := CompareInterrupt(a);
    StepInvariant(a, CompareIsr);
    TicksInvariant(b, n);
    TicksSynchronized(b.hw, n);
    CounterIsTrueTime(b.hw, n);
  }

  lemma {:induction false} RunInvariant(a: Alarm, steps: seq<Step>)
    requires Invariant(a) && Runs(a, steps)
    ensures Invariant(After(a, steps))
    decreases |steps|
  {
    if steps != [] {
      StepInvariant(a, steps[0]);
      RunInvariant(Apply(a, steps[0]), steps[1..]);
    }
  }

  // ----- over whole runs -----

  /** At most one callback per setting, and none before its time, but for an alarm
      that was forced when it was less than `limit` ticks ahead. */
  lemma {:induction false} CallbacksAnswerSettings(a: Alarm, steps: seq<Step>)
    requires Initial(a) && Runs(a, steps)
    ensures var b := After(a, steps);
            forall i | 0 <= i < |b.log| && b.log[i].Fired? ::
              && 0 < i && b.log[i - 1] == Armed(b.log[i].due, b.log[i].early)
              && b.log[i].due <= b.log[i].at + b.log[i].early
              && b.log[i].early < b.limit
  {
    RunInvariant(a, steps);
  }

  ghost predicate Unforced(steps: seq<Step>) {
    forall step | step in steps && step.SetAlarm? :: !step.force
  }

  /** No setting so far was forced. */
  ghost predicate OnTime(a: Alarm) {
    && (a.isSet ==> a.early == 0)
    && (forall i | 0 <= i < |a.log| && a.log[i].Fired? :: a.log[i].early == 0)
  }

  lemma {:induction false} StepOnTime(a: Alarm, step: Step)
    requires OnTime(a) && (step.SetAlarm? ==> !step.force)
    ensures OnTime(Apply(a, step))
  {
  }

  lemma {:induction false} RunOnTime(a: Alarm, steps: seq<Step>)
    requires OnTime(a) && Unforced(steps)
    ensures OnTime(After(a, steps))
    decreases |steps|
  {
    if steps != [] {
      StepOnTime(a, steps[0]);
      RunOnTime(Apply(a, steps[0]), steps[1..]);
    }
  }

  /** Without forcing, no alarm ever calls back before it is due. */
  lemma {:induction false} NeverEarlyUnlessForced(a: Alarm, steps: seq<Step>)
    requires Initial(a) && Runs(a, steps) && Unforced(steps)
    ensures var log := After(a, steps).log;
            forall i | 0 <= i < |log| && log[i].Fired? :: log[i].due <= log[i].at
  {
    CallbacksAnswerSettings(a, steps);
    RunOnTime(a, steps);
  }

  /** When a set alarm's time has come and no overflow is waiting, its compare
      interrupt can run, and running it calls back: exactly unless 2^16 cycles or a
      multiple of that have gone by and the counter is below the setting again. */
  lemma {:induction false} DueAlarmFires(a: Alarm, steps: seq<Step>)
    requires Initial(a) && Runs(a, steps)
    requires var b := After(a, steps); b.isSet && !b.hw.taifg && b.due <= b.hw.now
    ensures var b := After(a, steps);
            var cycle, own := b.hw.now / 0x1_0000, b.due / 0x1_0000;
            && (Enabled(b, CompareIsr) <==>
                  !(own < cycle && U16(own) == U16(cycle) && b.hw.now % 0x1_0000 < b.due % 0x1_0000))
            && (Enabled(b, CompareIsr) ==>
                  && !Apply(b, CompareIsr).isSet
                  && Apply(b, CompareIsr).log == b.log + [Fired(b.due, b.early, b.hw.now)])
  {
    hide After;
    RunInvariant(a, steps);
    var b := After(a, steps);
    assert NotMissed(b) && MatchTime(b) == b.hw.now / 0x1_0000 * 0x1_0000 + b.due % 0x1_0000;
  }

  /** A cycle goes by with the compare interrupt held off. */
  lemma {:induction false} CycleGoesBy(a: Alarm)
    requires Invariant(a) && a.isSet && !a.hw.taifg && a.hw.now % 0x1_0000 < 0x8000
    ensures var b := Apply(a, Elapse(0x1_0000));
            var c := Apply(b, OverflowIsr(0, 0));
            && Enabled(a, Elapse(0x1_0000)) && Enabled(b, OverflowIsr(0, 0))
            && Invariant(c) && c.isSet && !c.hw.taifg && c.due == a.due && c.hw.now == a.hw.now + 0x1_0000
  {
    hide Invariant;
    ConfiguredOf(a);
    var b := Apply(a, Elapse(0x1_0000));
    TicksElapsed(a.hw, 0x1_0000);
    StepInvariant(a, Elapse(0x1_0000));
    StepInvariant(b, OverflowIsr(0, 0));
    TicksTakeTime(b.hw, 0);
    NoTicks(b.hw.(taifg := false, overflow := (b.hw.overflow + 1) % 0x1_0000_0000));
  }

  lemma {:induction false} ConfiguredOf(a: Alarm)
    requires Invariant(a)
    ensures Configured(a)
  {
  }

  lemma {:induction false} CyclesGoBy(a: Alarm, k: nat) returns (steps: seq<Step>)
    requires Invariant(a) && a.isSet && !a.hw.taifg && a.hw.now % 0x1_0000 < 0x8000
    ensures Runs(a, steps)
    ensures var b := After(a, steps);
            b.isSet && !b.hw.taifg && b.due == a.due && b.hw.now == a.hw.now + k * 0x1_0000
    decreases k
  {
    hide Invariant, Apply, Enabled;
    if k == 0 {
      steps := [];
    } else {
      var elapse, overflow := Elapse(0x1_0000), OverflowIsr(0, 0);
      CycleGoesBy(a);
      var b := Apply(a, elapse);
      var c := Apply(b, overflow);
      var rest := CyclesGoBy(c, k - 1);
      StepsFirst(a, elapse, overflow, rest);
      steps := [elapse, overflow] + rest;
    }
  }

  /** Two steps and then a run. */
  lemma {:induction false} StepsFirst(a: Alarm, x: Step, y: Step, rest: seq<Step>)
    requires Enabled(a, x) && Enabled(Apply(a, x), y) && Runs(Apply(Apply(a, x), y), rest)
    ensures Runs(a, [x, y] + rest) && After(a, [x, y] + rest) == After(Apply(Apply(a, x), y), rest)
  {
  }

  /** The exception above is real: a run in which a due alarm cannot fire. */
  lemma {:induction false} DueAlarmUnnoticed(a: Alarm) returns (steps: seq<Step>)
    requires a == Alarm(Hardware(0, 0, false, 0, false, false), 3, false, false, 0, 0, 0, [])
    ensures Initial(a) && Runs(a, steps)
    ensures var b := After(a, steps);
            b.isSet && !b.hw.taifg && b.due < b.hw.now && !Enabled(b, CompareIsr)
  {
    hide Invariant, Enabled, After, Runs, Apply;
    var enable, arm := EnableAlarm(true), SetAlarm(5, false, 0, 0, 0);
    var c := Apply(Apply(a, enable), arm);
    SetOnce(a);
    var rest := CyclesGoBy(c, 0x1_0000);
    StepsFirst(a, enable, arm, rest);
    steps := [enable, arm] + rest;
    LateAlarmUnnoticed(a, steps);
  }

  lemma {:induction false} LateAlarmUnnoticed(a: Alarm, steps: seq<Step>)
    requires Initial(a) && Runs(a, steps)
    requires var b := After(a, steps);
             b.isSet && !b.hw.taifg && b.due == 5 && b.hw.now == 0x1_0000_0000
    ensures !Enabled(After(a, steps), CompareIsr)
  {
    hide After, Runs, Initial;
    DueAlarmFires(a, steps);
  }

  lemma {:induction false} SetOnce(a: Alarm)
    requires a == Alarm(Hardware(0, 0, false, 0, false, false), 3, false, false, 0, 0, 0, [])
    ensures var enable, arm := EnableAlarm(true), SetAlarm(5, false, 0, 0, 0);
            var b := Apply(a, enable);
            var c := Apply(b, arm);
            && Enabled(a, enable) && Enabled(b, arm) && Invariant(c)
            && c.isSet && !c.hw.taifg && c.due == 5 && c.hw.now == 0
  {
    hide Set, Ticks, Configure, NotMissed, HistoryOk;
    var b := Apply(a, EnableAlarm(true));
    assert Invariant(a) by { EmptyInvariant(a); }
    StepInvariant(a, EnableAlarm(true));
    StepInvariant(b, SetAlarm(5, false, 0, 0, 0));
    SetVerdict(b, 5, false, 0, 0, 0);
    SetTakesTime(b, 5, false, 0, 0, 0);
  }

  lemma {:induction false} EmptyInvariant(a: Alarm)
    requires Initial(a)
    ensures Invariant(a)
  {
  }

  lemma {:induction false} NoTicks(h: Hardware)
    ensures Ticks(h, 0) == h
  {
  }

  /** The timers give compare interrupts priority: the overflow interrupt is served
      only when this one cannot run. */
  ghost predicate Prioritized(a: Alarm, steps: seq<Step>)
    decreases |steps|
  {
    steps == [] || (&& (steps[0].OverflowIsr? ==> !Enabled(a, CompareIsr))
                    && Prioritized(Apply(a, steps[0]), steps[1..]))
  }

  /** An alarm of an earlier cycle is about to call back. */
  ghost predicate Prompt(a: Alarm) {
    a.isSet && DueCycle(a) < Handled(a.hw) ==> Enabled(a, CompareIsr)
  }

  lemma {:induction false} StepPrompt(a: Alarm, step: Step)
    requires Invariant(a) && Prompt(a) && Enabled(a, step)
    requires step.OverflowIsr? ==> !Enabled(a, CompareIsr)
    ensures Prompt(Apply(a, step))
  {
    hide HistoryOk;
    StepInvariant(a, step);
    match step
    case Elapse(n) => TicksElapsed(a.hw, n);
    case SetAlarm(setting, force, n0, n1, n2) => SetPrompt(a, setting, force, n0, n1, n2);
    case OverflowIsr(n1, n2) =>
      assert a.isSet ==> Handled(a.hw) < DueCycle(a);
      OverflowCounts(a, n1, n2);
    case _ =>
  }

  lemma {:induction false} OverflowCounts(a: Alarm, n1: nat, n2: nat)
    requires Invariant(a) && Enabled(a, OverflowIsr(n1, n2))
    ensures var b := OverflowInterrupt(a, n1, n2);
            && Handled(b.hw) == Handled(a.hw) + 1 && b.hw.now == a.hw.now + n1 + n2
            && b.enabled == a.enabled && b.isSet == a.isSet && b.due == a.due
  {
    var h := a.hw.(taifg := false, overflow := (a.hw.overflow + 1) % 0x1_0000_0000);
    TicksElapsed(h, n1 + n2);
    TicksElapsed(h, n1);
    TicksElapsed(Ticks(h, n1).(ccifg := false, ccie := true), n2);
  }

  lemma {:induction false} SetPrompt(a: Alarm, setting: int, force: bool, n0: nat, n1: nat, n2: nat)
    requires Invariant(a) && Prompt(a) && Enabled(a, SetAlarm(setting, force, n0, n1, n2))
    ensures Prompt(Set(a, setting, force, n0, n1, n2).0)
  {
    hide Ticks, U16, U32, S32, Configure, Counter, HistoryOk;
    CounterIsTrueTime(a.hw, n0);
    TicksElapsed(a.hw, n0);
    TicksSynchronized(a.hw, n0);
    var delay := S32(setting - Counter(a.hw, n0));
    var rv := Judge(a, delay);
    if rv == 0 {
      ArmInvariant(a, setting, rv, n0);
      ConfigureKeepsCount(Arm(a, Ticks(a.hw, n0), setting, delay, rv), n1, n2);
    }
  }

  lemma {:induction false} ConfigureKeepsCount(a: Alarm, n1: nat, n2: nat)
    requires Configured(a) && MayElapse(a.hw, n1 + n2)
    ensures var b := Configure(a, n1, n2);
            Handled(b.hw) == Handled(a.hw) && b.isSet == a.isSet && b.due == a.due
  {
    TicksElapsed(a.hw, n1 + n2);
    TicksElapsed(a.hw, n1);
    TicksElapsed(Ticks(a.hw, n1).(ccifg := false, ccie := true), n2);
  }

  /** Setting an alarm counts no overflow. */
  lemma {:induction false} SetKeepsCount(a: Alarm, setting: int, force: bool, n0: nat, n1: nat, n2: nat)
    requires Invariant(a) && 0 <= setting < 0x1_0000_0000 && n0 <= 0x8000 && MayElapse(a.hw, n0 + n1 + n2)
    ensures Handled(Set(a, setting, force, n0, n1, n2).0.hw) == Handled(a.hw)
  {
    hide Ticks, U16, U32, S32, Configure, Counter, HistoryOk;
    CounterIsTrueTime(a.hw, n0);
    TicksElapsed(a.hw, n0);
    TicksSynchronized(a.hw, n0);
    var delay := S32(setting - Counter(a.hw, n0));
    var rv := Judge(a, delay);
    if rv == 0 {
      ArmInvariant(a, setting, rv, n0);
      ConfigureKeepsCount(Arm(a, Ticks(a.hw, n0), setting, delay, rv), n1, n2);
    }
  }

  lemma {:induction false} RunPrompt(a: Alarm, steps: seq<Step>)
    requires Invariant(a) && Prompt(a) && Runs(a, steps) && Prioritized(a, steps)
    ensures Prompt(After(a, steps))
    decreases |steps|
  {
    hide Prompt;
    if steps != [] {
      StepPrompt(a, steps[0]);
      StepInvariant(a, steps[0]);
      RunPrompt(Apply(a, steps[0]), steps[1..]);
    }
  }

  /** With that priority no alarm is ever missed, however long it has been due. */
  lemma {:induction false} PriorityNeverMisses(a: Alarm, steps: seq<Step>)
    requires Initial(a) && Runs(a, steps) && Prioritized(a, steps)
    requires var b := After(a, steps); b.isSet && !b.hw.taifg && b.due <= b.hw.now
    ensures var b := After(a, steps);
            && Enabled(b, CompareIsr)
            && Apply(b, CompareIsr).log == b.log + [Fired(b.due, b.early, b.hw.now)]
  {
    hide After;
    RunPrompt(a, steps);
    DueAlarmFires(a, steps);
  }

  // ----- cancelling and disabling -----

  /** What cancelling does and answers. */
  lemma {:induction false} CancelVerdict(a: Alarm)
    ensures var (b, rv) := Cancel(a);
            && (rv == 1 <==> a.enabled && a.isSet)
            && (rv == 0 <==> a.enabled && !a.isSet)
            && (rv == -1 <==> !a.enabled)
            && (rv != 1 ==> b == a)
            && (rv == 1 ==>
                  && !b.isSet && !b.hw.ccie && !b.hw.ccifg && b.log == a.log + [Cancelled] && b.enabled
                  && b.hw.now == a.hw.now && b.hw.taifg == a.hw.taifg && b.hw.overflow == a.hw.overflow)
  {
  }

  /** What enabling and disabling do: a disabled alarm is not set, and cannot call
      back; one that was set has been cancelled. */
  lemma {:induction false} EnableVerdict(a: Alarm, enable: bool)
    requires Invariant(a)
    ensures var b := SetEnabled(a, enable);
            && b.enabled == enable
            && b.hw.now == a.hw.now && b.hw.taifg == a.hw.taifg && b.hw.overflow == a.hw.overflow
            && (enable ==> b.(enabled := a.enabled) == a)
            && (!enable ==>
                  && !b.isSet && !b.hw.ccie && !Enabled(b, CompareIsr)
                  && b.log == if a.isSet then a.log + [Cancelled] else a.log)
  {
  }

  /** What the compare interrupt does: the flag that called it is down; a set alarm
      is called back and unset, and otherwise nothing happens. */
  lemma {:induction false} CompareVerdict(a: Alarm)
    requires Invariant(a)
    ensures var b := CompareInterrupt(a);
            && !b.hw.ccifg && !b.isSet && b.enabled == a.enabled
            && b.hw.now == a.hw.now && b.hw.taifg == a.hw.taifg && b.hw.overflow == a.hw.overflow
            && b.log == (if a.isSet then a.log + [Fired(a.due, a.early, a.hw.now)] else a.log)
            && (a.isSet ==> !b.hw.ccie)
  {
  }

  ghost predicate NoSetting(steps: seq<Step>) {
    forall step | step in steps :: !step.SetAlarm?
  }

  /** An alarm that is not set stays so, and calls back for nobody, until it is set. */
  lemma {:induction false} UnsetStaysSilent(a: Alarm, steps: seq<Step>)
    requires !a.isSet && NoSetting(steps)
    ensures var b := After(a, steps);
            !b.isSet && a.log <= b.log && forall i | |a.log| <= i < |b.log| :: !b.log[i].Fired?
    decreases |steps|
  {
    if steps != [] {
      UnsetStaysSilent(Apply(a, steps[0]), steps[1..]);
    }
  }

  /** Over any run: after a cancellation, or after disabling, there is no callback
      until the alarm is set again. */
  lemma {:induction false} SilentUntilSetAgain(a: Alarm, before: seq<Step>, step: Step, after: seq<Step>)
    requires Initial(a) && Runs(a, before) && (step == CancelAlarm || step == EnableAlarm(false)) && NoSetting(after)
    ensures var b := Apply(After(a, before), step);
            var c := After(b, after);
            !c.isSet && b.log <= c.log && forall i | |b.log| <= i < |c.log| :: !c.log[i].Fired?
  {
    hide After, NoSetting;
    RunInvariant(a, before);
    CancelVerdict(After(a, before));
    EnableVerdict(After(a, before), false);
    UnsetStaysSilent(Apply(After(a, before), step), after);
  }

  /** What `timerAlarmSet_ni` answers, in true time: the alarm is scheduled iff
      it is enabled, not yet set and at least a.limit ticks ahead; otherwise 2 for
      the past, 1 for too near, -1 for a disabled alarm, -2 for one already set. */
  lemma {:induction false} SetVerdict(a: Alarm, due: int, force: bool, n0: nat, n1: nat, n2: nat)
    requires Synchronized(a.hw) && n0 <= 0x8000 && MayElapse(a.hw, n0)
    requires -0x8000_0000 <= due - a.hw.now < 0x8000_0000
    ensures var (b, rv) := Set(a, U32(due), force, n0, n1, n2);
            && (rv == 0 <==> a.enabled && !a.isSet && a.hw.now + a.limit <= due)
            && (rv == 2 <==> a.enabled && !a.isSet && due < a.hw.now)
            && (rv == 1 <==> a.enabled && !a.isSet && a.hw.now <= due < a.hw.now + a.limit)
            && (rv == -1 <==> !a.enabled)
            && (rv == -2 <==> a.enabled && a.isSet)
            && (rv == 0 || (force && rv > 0) ==> b.isSet && b.due == due)
            && (rv < 0 || (!force && rv > 0) ==> b == a.(hw := Ticks(a.hw, n0)))
  {
    CounterIsTrueTime(a.hw, n0);
    SignedDistance(due, a.hw.now);
    assert S32(U32(due) - U32(a.hw.now)) == due - a.hw.now;
  }

  /** Setting an alarm takes no more than the ticks allotted to it. */
  lemma {:induction false} SetTakesTime(a: Alarm, setting: int, force: bool, n0: nat, n1: nat, n2: nat)
    ensures var b := Set(a, setting, force, n0, n1, n2).0;
            a.hw.now <= b.hw.now <= a.hw.now + n0 + n1 + n2
  {
    TicksTakeTime(a.hw, n0);
    var h := Ticks(a.hw, n0).(ccr := U16(setting));
    TicksTakeTime(h, n1);
    TicksTakeTime(h, n1 + n2);
    TicksTakeTime(Ticks(h, n1).(ccifg := false, ccie := true), n2);
  }

  lemma {:induction false} TicksTakeTime(h: Hardware, n: nat)
    ensures Ticks(h, n).now == h.now + n
  {
    if n > 0 {
      TicksTakeTime(h, n - 1);
    }
  }

  /** The limit is exactly the time that setting an alarm may take: whatever limit
      of less than a cycle is chosen, with one tick more a run leads to an alarm at
      the end of a cycle that is passed over. */
  lemma {:induction false} SlowSetMissesAlarm(limit: Limit)
    requires limit < 0x1_0000
    ensures var a := Alarm(Hardware(0, 0, false, 0, false, false), limit, false, false, 0, 0, 0, []);
            var steps := [Elapse(0xFFFF - limit), EnableAlarm(true)];
            var (b, rv) := Set(After(a, steps), 0xFFFF, false, 0, limit + 1, 0);
            var c := OverflowInterrupt(b, 0, 0);
            && Initial(a) && Runs(a, steps)
            && rv == 0 && c.isSet && c.due < c.hw.now && !c.hw.taifg && !Enabled(c, CompareIsr)
  {
    var a := Alarm(Hardware(0, 0, false, 0, false, false), limit, false, false, 0, 0, 0, []);
    var elapse, enable := Elapse(0xFFFF - limit), EnableAlarm(true);
    TicksElapsed(a.hw, 0xFFFF - limit);
    StepsFirst(a, elapse, enable, []);
    assert [elapse, enable] + [] == [elapse, enable];
    hide After, Runs, Set, OverflowInterrupt, Ticks;
    PassedOver(Apply(Apply(a, elapse), enable));
  }

  lemma {:induction false} PassedOver(e: Alarm)
    requires e.limit < 0x1_0000 && e.enabled && !e.isSet
    requires e.hw.now == 0xFFFF - e.limit && e.hw.overflow == 0 && !e.hw.taifg && 0 <= e.hw.ccr < 0x1_0000
    ensures var (b, rv) := Set(e, 0xFFFF, false, 0, e.limit + 1, 0);
            var c := OverflowInterrupt(b, 0, 0);
            rv == 0 && c.isSet && c.due < c.hw.now && !c.hw.taifg && !Enabled(c, CompareIsr)
  {
    assert Ticks(e.hw, 0) == e.hw && Counter(e.hw, 0) == 0xFFFF - e.limit;
    var armed := Arm(e, e.hw, 0xFFFF, e.limit, 0);
    var h := Ticks(armed.hw, e.limit + 1);
    TicksElapsed(armed.hw, e.limit + 1);
    assert h.now == 0x1_0000 && h.taifg;
    assert Configure(armed, e.limit + 1, 0) == armed.(hw := h.(ccifg := false, ccie := true)) by {
      assert forall g: Hardware :: Ticks(g, 0) == g;
    }
  }
}
