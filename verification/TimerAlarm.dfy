/** Alarms on a free-running 16-bit timer (`src/periph/timer.c`): the state of
    one timer with one capture/compare block and the alarm that uses it, and
    what each operation does to that state.  The history fields `now`, `due`,
    `early` and `log` record true, unbounded times beside the wrapped
    registers; no operation decides anything by them. */
module TimerAlarm {
  import opened Words

  /** BSP430_TIMER_ALARM_FUTURE_LIMIT, which a build may choose (3 unless it does):
      settings fewer than this many ticks ahead are too near to schedule. */
  type Limit = n: int | 0 < n witness 3

  const SET_NOW := 1
  const SET_PAST := 2
  const SET_ALREADY := -2

  /** The timer peripheral.  `now` is the true time; the 16-bit counter
      register reads `now % 0x1_0000`. */
  datatype Hardware = Hardware(
    now: nat,
    overflow: int,
    taifg: bool,
    ccr: int,
    ccie: bool,
    ccifg: bool)

  /** What an observer of one alarm sees.  `early` is how many ticks before
      `due` a forced alarm may run; it is 0 for an alarm that was scheduled. */
  datatype Event =
    | Armed(due: int, early: nat)
    | Fired(due: int, early: nat, at: int)
    | Cancelled

  datatype Alarm = Alarm(
    hw: Hardware,
    limit: Limit,
    enabled: bool,
    isSet: bool,
    setting: int,
    due: int,
    early: nat,
    log: seq<Event>)

  // ----- the counter -----

  /** One clock tick: the counter wraps with an overflow flag, and reaching
      the compare value raises the compare flag. */
  function Tick(h: Hardware): Hardware {
    var r := (h.now + 1) % 0x1_0000;
    h.(now := h.now + 1, taifg := h.taifg || r == 0, ccifg := h.ccifg || r == h.ccr)
  }

  function Ticks(h: Hardware, n: nat): Hardware {
    if n == 0 then h else Tick(Ticks(h, n - 1))
  }

  /** How many overflows the interrupt handler has counted. */
  function Handled(h: Hardware): int {
    h.now / 0x1_0000 - if h.taifg then 1 else 0
  }

  /** The registers agree with the true time: the 32-bit overflow count is the
      number of handled overflows, and a pending overflow is recent. */
  ghost predicate Synchronized(h: Hardware) {
    && 0 <= Handled(h)
    && h.overflow == Handled(h) % 0x1_0000_0000
    && (h.taifg ==> h.now % 0x1_0000 < 0x8000)
    && 0 <= h.ccr < 0x1_0000
  }

  /** `n` more ticks may pass before the next overflow has to be handled:
      each overflow is handled within half a cycle. */
  ghost predicate MayElapse(h: Hardware, n: nat) {
    h.now + n - Handled(h) * 0x1_0000 < 0x1_0000 + 0x8000
  }

  /** `timerOverflowAdjusted_ni`: the overflow count that goes with counter
      value `ctr`. */
  function OverflowAdjusted(h: Hardware, ctr: int): int {
    if S16(ctr) >= 0 && h.taifg then (h.overflow + 1) % 0x1_0000_0000 else h.overflow
  }

  /** `ulBSP430timerCounter_ni`, with `n` ticks between the two reads. */
  function Counter(h: Hardware, n: nat): int {
    var r := h.now % 0x1_0000;
    U32(OverflowAdjusted(Ticks(h, n), r) * 0x1_0000 + r)
  }

  // ----- the alarm -----

  /** `alarmConfigureInterrupts_ni`, with `n1` ticks before the compare flag is
      cleared and `n2` more before the counter is read. */
  function Configure(a: Alarm, n1: nat, n2: nat): Alarm {
    if U16(a.hw.overflow) == a.setting / 0x1_0000 then
      var h1 := Ticks(a.hw, n1);
      var h2 := Ticks(h1.(ccifg := false, ccie := true), n2);
      a.(hw := h2.(ccifg := h2.ccifg || h2.now % 0x1_0000 >= U16(a.setting)))
    else
      a.(hw := Ticks(a.hw, n1 + n2))
  }

  /** How `timerAlarmSet_ni` judges a requested delay. */
  function Judge(a: Alarm, delay: int): int {
    if !a.enabled then -1
    else if a.isSet then SET_ALREADY
    else if delay < 0 then SET_PAST
    else if delay < a.limit then SET_NOW
    else 0
  }

  /** The alarm recorded as set for `setting`, before the compare interrupt is
      arranged. */
  function Arm(a: Alarm, h: Hardware, setting: int, delay: int, rv: int): Alarm {
    var due := a.hw.now + delay;
    var early := if rv == 0 then 0 else a.limit - 1;
    a.(hw := h.(ccr := U16(setting)), isSet := true, setting := setting,
       due := due, early := early, log := a.log + [Armed(due, early)])
  }

  /** `timerAlarmSet_ni`, with `n0` ticks inside the counter read, `n1` before
      the compare flag is cleared and `n2` before the counter is read again. */
  function Set(a: Alarm, setting: int, force: bool, n0: nat, n1: nat, n2: nat): (Alarm, int) {
    var delay := S32(setting - Counter(a.hw, n0));
    var h := Ticks(a.hw, n0);
    var rv := Judge(a, delay);
    if rv == 0 then
      (Configure(Arm(a, h, setting, delay, rv), n1, n2), rv)
    else if rv > 0 && force then
      var b := Arm(a, h, setting, delay, rv);
      (b.(hw := b.hw.(ccie := true, ccifg := true)), rv)
    else
      (a.(hw := h), rv)
  }

  /** `iBSP430timerAlarmCancel_ni`. */
  function Cancel(a: Alarm): (Alarm, int) {
    if !a.enabled then (a, -1)
    else if !a.isSet then (a, 0)
    else (a.(isSet := false, hw := a.hw.(ccie := false, ccifg := false), log := a.log + [Cancelled]), 1)
  }

  /** `iBSP430timerAlarmSetEnabled_ni`: membership of both callback chains. */
  function SetEnabled(a: Alarm, enable: bool): Alarm {
    if enable then a.(enabled := true)
    else if a.enabled then (if a.isSet then Cancel(a).0 else a).(enabled := false)
    else a
  }

  /** The overflow interrupt: count the overflow, then let the alarm's overflow
      callback look at the new cycle. */
  function OverflowInterrupt(a: Alarm, n1: nat, n2: nat): Alarm {
    var b := a.(hw := a.hw.(taifg := false, overflow := (a.hw.overflow + 1) % 0x1_0000_0000));
    if b.enabled && b.isSet then Configure(b, n1, n2) else b.(hw := Ticks(b.hw, n1 + n2))
  }

  /** The compare interrupt: a set alarm becomes unset and is called back. */
  function CompareInterrupt(a: Alarm): Alarm {
    var b := a.(hw := a.hw.(ccifg := false));
    if b.enabled && b.isSet then
      b.(isSet := false, hw := b.hw.(ccie := false), log := b.log + [Fired(b.due, b.early, b.hw.now)])
    else b
  }

  // ----- steps -----

  datatype Step =
    | Elapse(n: nat)
    | OverflowIsr(n1: nat, n2: nat)
    | CompareIsr
    | SetAlarm(setting: int, force: bool, n0: nat, n1: nat, n2: nat)
    | CancelAlarm
    | EnableAlarm(enable: bool)

  /** What the hardware and the caller promise.  An interrupt runs only when
      its flag is up; overflows are handled within half a cycle; the overflow
      handler itself does not outlast the cycle; setting an alarm takes at
      most `limit` ticks, and reading the counter in it at most half a cycle. */
  ghost predicate Enabled(a: Alarm, step: Step) {
    match step
    case Elapse(n) => MayElapse(a.hw, n)
    case OverflowIsr(n1, n2) => a.hw.taifg && a.hw.now % 0x1_0000 + n1 + n2 < 0x1_0000
    case CompareIsr => a.hw.ccie && a.hw.ccifg
    case SetAlarm(setting, force, n0, n1, n2) =>
      0 <= setting < 0x1_0000_0000 && n0 <= 0x8000 && n0 + n1 + n2 <= a.limit && MayElapse(a.hw, n0 + n1 + n2)
    case CancelAlarm => true
    case EnableAlarm(_) => true
  }

  function Apply(a: Alarm, step: Step): Alarm {
    match step
    case Elapse(n) => a.(hw := Ticks(a.hw, n))
    case OverflowIsr(n1, n2) => OverflowInterrupt(a, n1, n2)
    case CompareIsr => CompareInterrupt(a)
    case SetAlarm(setting, force, n0, n1, n2) => Set(a, setting, force, n0, n1, n2).0
    case CancelAlarm => Cancel(a).0
    case EnableAlarm(enable) => SetEnabled(a, enable)
  }

  ghost predicate Runs(a: Alarm, steps: seq<Step>)
    decreases |steps|
  {
    steps == [] || (Enabled(a, steps[0]) && Runs(Apply(a, steps[0]), steps[1..]))
  }

  function After(a: Alarm, steps: seq<Step>): Alarm
    decreases |steps|
  {
    if steps == [] then a else After(Apply(a, steps[0]), steps[1..])
  }

  /** After `hBSP430timerAlarmInitialize` on a timer that has been running. */
  ghost predicate Initial(a: Alarm) {
    Synchronized(a.hw) && !a.hw.ccie && !a.enabled && !a.isSet && a.log == []
  }
}
