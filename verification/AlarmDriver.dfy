/** The alarm code of `src/periph/timer.c`, register by register, proved to do
    what module TimerAlarm says.  Parameters `n0`, `n1`, `n2` are the ticks that
    pass between one register access and the next. */
module AlarmDriver {
  import opened Words
  import TimerAlarm

  /** One timer and one of its capture/compare blocks. */
  class Timer {
    var r: int
    var taifg: bool
    var ccr: int
    var ccie: bool
    var ccifg: bool
    var overflowCount: int
    ghost var now: nat

    ghost predicate Valid()
      reads this
    {
      r == now % 0x1_0000
    }

    ghost function State(): TimerAlarm.Hardware
      reads this
    {
      TimerAlarm.Hardware(now, overflowCount, taifg, ccr, ccie, ccifg)
    }

    /** The clock: not code of the driver, but what runs beside it. */
    method Tick()
      requires Valid()
      modifies this
      ensures Valid() && State() == TimerAlarm.Tick(old(State()))
    {
      r, now := U16(r + 1), now + 1;
      taifg := taifg || r == 0;
      ccifg := ccifg || r == ccr;
    }

    method Elapse(n: nat)
      requires Valid()
      modifies this
      ensures Valid() && State() == TimerAlarm.Ticks(old(State()), n)
    {
      for i := 0 to n
        invariant Valid() && State() == TimerAlarm.Ticks(old(State()), i)
      {
        Tick();
      }
    }

    method Counter(n: nat) returns (tck: int)
      requires Valid()
      modifies this
      ensures Valid() && State() == TimerAlarm.Ticks(old(State()), n)
      ensures tck == TimerAlarm.Counter(old(State()), n)
    {
      var ctr := r;
      Elapse(n);
      var overflow := overflowCount;
      if 0 <= S16(ctr) && taifg {
        overflow := U32(overflow + 1);
      }
      tck := U32(overflow * 0x1_0000 + ctr);
    }
  }

  /** `sBSP430timerAlarm`. */
  class AlarmRecord {
    const timer: Timer
    const limit: TimerAlarm.Limit
    var enabled: bool
    var isSet: bool
    var setting: int
    ghost var due: int
    ghost var early: nat
    ghost var log: seq<TimerAlarm.Event>

    /** `hBSP430timerAlarmInitialize`. */
    constructor (timer: Timer, limit: TimerAlarm.Limit)
      ensures this.timer == timer && this.limit == limit && !enabled && !isSet && log == []
    {
      this.timer, this.limit := timer, limit;
      enabled, isSet, setting := false, false, 0;
      due, early, log := 0, 0, [];
    }

    ghost function State(): TimerAlarm.Alarm
      reads this, timer
    {
      TimerAlarm.Alarm(timer.State(), limit, enabled, isSet, setting, due, early, log)
    }

    method ConfigureInterrupts(n1: nat, n2: nat)
      requires timer.Valid()
      modifies timer
      ensures timer.Valid() && State() == TimerAlarm.Configure(old(State()), n1, n2)
    {
      var chi := U16(timer.overflowCount);
      var shi := setting / 0x1_0000;
      var slo := U16(setting);
      if chi == shi {
        timer.Elapse(n1);
        timer.ccifg := false;
        timer.ccie := true;
        timer.Elapse(n2);
        if timer.r >= slo {
          timer.ccifg := true;
        }
      } else {
        timer.Elapse(n1 + n2);
      }
    }

    method Set(setting_tck: int, force: bool, n0: nat, n1: nat, n2: nat) returns (rv: int)
      requires timer.Valid()
      modifies this, timer
      ensures timer.Valid()
      ensures (State(), rv) == TimerAlarm.Set(old(State()), setting_tck, force, n0, n1, n2)
    {
      hide TimerAlarm.Ticks, TimerAlarm.Counter, TimerAlarm.Configure, S32, U16;
      ghost var start := timer.now;
      var now_tck := timer.Counter(n0);
      var delay_tck := S32(setting_tck - now_tck);
      if !enabled {
        rv := -1;
      } else if isSet {
        rv := TimerAlarm.SET_ALREADY;
      } else if 0 > delay_tck {
        rv := TimerAlarm.SET_PAST;
      } else if limit > delay_tck {
        rv := TimerAlarm.SET_NOW;
      } else {
        rv := 0;
      }
      if rv == 0 || (0 < rv && force) {
        setting := setting_tck;
        isSet := true;
        due, early := start + delay_tck, if rv == 0 then 0 else limit - 1;
        log := log + [TimerAlarm.Armed(due, early)];
        timer.ccr := U16(setting_tck);
        if 0 < rv {
          timer.ccie, timer.ccifg := true, true;
        } else {
          ConfigureInterrupts(n1, n2);
        }
      }
    }

    method Cancel() returns (rv: int)
      modifies this, timer
      ensures old(timer.Valid()) ==> timer.Valid()
      ensures (State(), rv) == TimerAlarm.Cancel(old(State()))
    {
      if !enabled {
        return -1;
      }
      if !isSet {
        return 0;
      }
      isSet := false;
      timer.ccie, timer.ccifg := false, false;
      log := log + [TimerAlarm.Cancelled];
      return 1;
    }

    method SetEnabled(enablep: bool)
      modifies this, timer
      ensures old(timer.Valid()) ==> timer.Valid()
      ensures State() == TimerAlarm.SetEnabled(old(State()), enablep)
    {
      if enablep {
        if !enabled {
          enabled := true;
        }
      } else {
        if enabled {
          if isSet {
            var _ := Cancel();
          }
          enabled := false;
        }
      }
    }

    /** The overflow branch of the timer interrupt, whose chain holds the
        overflow callback of the alarm while it is enabled. */
    method OverflowInterrupt(n1: nat, n2: nat)
      requires timer.Valid()
      modifies this, timer
      ensures timer.Valid() && State() == TimerAlarm.OverflowInterrupt(old(State()), n1, n2)
    {
      timer.taifg := false;
      timer.overflowCount := U32(timer.overflowCount + 1);
      if enabled && isSet {
        ConfigureInterrupts(n1, n2);
      } else {
        timer.Elapse(n1 + n2);
      }
    }

    /** The compare branch of the timer interrupt up to the user callback;
        `called` says whether that callback is due. */
    method CompareInterrupt() returns (called: bool)
      requires timer.Valid()
      modifies this, timer
      ensures timer.Valid() && State() == TimerAlarm.CompareInterrupt(old(State()))
      ensures called == old(enabled && isSet)
    {
      timer.ccifg := false;
      called := false;
      if enabled {
        if !isSet {
          return;
        }
        isSet := false;
        timer.ccie := false;
        log := log + [TimerAlarm.Fired(due, early, timer.now)];
        called := true;
      }
    }
  }
}
