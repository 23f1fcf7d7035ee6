/** The epoch code of `src/utility/uptime.c`, on its static variables. */
module UptimeDriver {
  import opened Words
  import opened Uptime

  /** BSP430_UPTIME_BYPASS_EPOCH_NTP. */
  const BYPASS_EPOCH_NTP := (POSIX_EPOCH_NTPIS + 1388534400) * 0x1_0000_0000

  class Clock {
    var epochIsValid: bool
    var epochNtp: int
    var epochUpdatedUtt: int
    var epochSec: int
    var epochUsec: int
    var conversionFrequencyHz: int

    constructor (frequencyHz: int)
      requires 0 < frequencyHz
      ensures Valid() && !epochIsValid && conversionFrequencyHz == frequencyHz
    {
      epochIsValid, epochNtp, epochUpdatedUtt, epochSec, epochUsec := false, 0, 0, 0, 0;
      conversionFrequencyHz := frequencyHz;
    }

    ghost predicate Valid()
      reads this
    {
      0 < conversionFrequencyHz && 0 <= epochUsec < US_PER_S
    }

    ghost function State(): Epoch
      reads this
    {
      Epoch(epochIsValid, epochNtp, epochUpdatedUtt, epochSec, epochUsec, conversionFrequencyHz)
    }

    method EpochEra(utt: int) returns (era: int)
      ensures era == Uptime.EpochEra(State(), utt)
    {
      if !epochIsValid {
        return -1;
      }
      var delta := U32(epochUpdatedUtt - utt);
      if delta < 0x8000_0000 {
        if delta >= VALID_OFFSET {
          return -1;
        }
        if utt > epochUpdatedUtt {
          return 0;
        }
      } else {
        if U32(-delta) >= VALID_OFFSET {
          return -1;
        }
        if utt < epochUpdatedUtt {
          return 2;
        }
      }
      return 1;
    }

    method SetEpochFromNtp(ntp: int, now: int)
      requires Valid() && 0 <= ntp < 0x1_0000_0000_0000_0000
      modifies this
      ensures Valid() && State() == Uptime.SetEpochFromNtp(old(State()), ntp, now)
    {
      epochNtp := ntp;
      epochSec := S32(ntp / 0x1_0000_0000 - POSIX_EPOCH_NTPIS);
      epochUsec := US_PER_S * (ntp % 0x1_0000_0000) / 0x1_0000_0000;
      epochUpdatedUtt := now;
      epochIsValid := true;
    }

    method SetEpochFromTimeval(sec: int, usec: int, when: int, now: int)
      requires Valid()
      modifies this
      ensures Valid() && State() == Uptime.SetEpochFromTimeval(old(State()), sec, usec, when, now)
    {
      hide RelativeNtp;
      var ntp := U64((POSIX_EPOCH_NTPIS + sec) * 0x1_0000_0000);
      ntp := U64(ntp + usec * 0x1_0000_0000 / US_PER_S);
      ntp := U64(ntp - RelativeNtp(when, conversionFrequencyHz));
      Accumulated((POSIX_EPOCH_NTPIS + sec) * 0x1_0000_0000, usec * 0x1_0000_0000 / US_PER_S,
                  -RelativeNtp(when, conversionFrequencyHz));
      SetEpochFromNtp(ntp, now);
    }

    /** `iBSP430uptimeAsTimeval`: a time outside the epoch's reach invalidates the
        epoch; any other is returned normalised, with its seconds cut to the 32 bits
        of `tv_sec`. */
    method AsTimeval(utt: int) returns (rv: int, sec: int, usec: int)
      requires Valid() && 0 <= utt < 0x1_0000_0000
      modifies this`epochIsValid
      ensures Valid() && (rv == 0 <==> Uptime.EpochEra(old(State()), utt) != -1) && rv <= 0
      ensures epochIsValid == (rv == 0)
      ensures rv == 0 ==> var us := AsMicroseconds(old(State()), utt);
                          usec == us % US_PER_S && sec == S32(us / US_PER_S)
    {
      hide RelativeTimeval, Uptime.EpochEra, AsMicroseconds, S32;
      ghost var e := State();
      MicrosecondsByEra(e, utt);
      var relative := RelativeTimeval(utt, conversionFrequencyHz);
      ghost var exact := relative.0;
      sec, usec := S32(relative.0), relative.1;
      var era := EpochEra(utt);
      EraInRange(e, utt);
      if 0 > era {
        epochIsValid := false;
        return -1, sec, usec;
      }
      era := era - 1;
      SignedSum(exact, epochSec);
      sec, usec, exact := S32(sec + epochSec), usec + epochUsec, exact + epochSec;
      if 0 != era {
        var duration := RelativeTimeval(0x1_0000_0000, conversionFrequencyHz);
        var durationSec := S32(duration.0);
        SignedDifference(exact, duration.0);
        SignedTotal(exact, duration.0);
        if 0 > era {
          sec, usec, exact := S32(sec - durationSec), usec - duration.1, exact - duration.0;
        } else {
          sec, usec, exact := S32(sec + durationSec), usec + duration.1, exact + duration.0;
        }
      }
      assert exact * US_PER_S + usec == AsMicroseconds(e, utt);
      Carried(exact, usec);
      sec, usec := Normalize(sec, usec, exact);
      rv := 0;
    }

    /** Carrying whole seconds out of, or borrowing them into, the microseconds. */
    static method Normalize(sec0: int, usec0: int, ghost exact: int) returns (sec: int, usec: int)
      requires sec0 == S32(exact)
      ensures usec == usec0 % US_PER_S && sec == S32(exact + usec0 / US_PER_S)
    {
      hide S32;
      sec, usec := sec0, usec0;
      ghost var q := 0;
      while 0 > usec
        invariant q * US_PER_S + usec == usec0 && sec == S32(exact + q)
      {
        SignedSum(exact + q, -1);
        sec, usec, q := S32(sec - 1), usec + US_PER_S, q - 1;
      }
      while US_PER_S <= usec
        invariant 0 <= usec && q * US_PER_S + usec == usec0 && sec == S32(exact + q)
      {
        SignedSum(exact + q, 1);
        sec, usec, q := S32(sec + 1), usec - US_PER_S, q + 1;
      }
    }

    /** `iBSP430uptimeAsNTP`. */
    method AsNtp(utt: int, bypassValidation: bool) returns (rv: int, ntp: int)
      requires Valid() && 0 <= utt < 0x1_0000_0000
      modifies this`epochIsValid
      ensures var covered := Uptime.EpochEra(old(State()), utt) != -1;
              && rv == (if covered || bypassValidation then 0 else -1)
              && epochIsValid == (old(epochIsValid) && rv == 0)
              && (covered ==> ntp == Uptime.AsNtp(old(State()), utt))
              && (!covered && bypassValidation ==>
                    ntp == U64(RelativeNtp(utt, conversionFrequencyHz) + BYPASS_EPOCH_NTP))
    {
      hide RelativeNtp, Uptime.EpochEra, Uptime.AsNtp, U64;
      ghost var e := State();
      AsNtpByEra(e, utt);
      ntp := RelativeNtp(utt, conversionFrequencyHz);
      var era := EpochEra(utt);
      EraInRange(e, utt);
      if 0 > era {
        if !bypassValidation {
          epochIsValid := false;
          return -1, ntp;
        }
        era := 0;
        ntp := U64(ntp + BYPASS_EPOCH_NTP);
      } else {
        era := era - 1;
        ntp := U64(ntp + epochNtp);
      }
      if 0 != era {
        var eraNtp := RelativeNtp(0x1_0000_0000, conversionFrequencyHz);
        if 0 > era {
          ntp := U64(ntp - eraNtp);
        } else {
          ntp := U64(ntp + eraNtp);
        }
      }
      rv := 0;
    }
  }

  lemma {:induction false} SignedSum(a: int, b: int)
    ensures S32(S32(a) + b) == S32(a + b)
  {
  }

  lemma {:induction false} SignedTotal(a: int, b: int)
    ensures S32(S32(a) + S32(b)) == S32(a + b)
  {
    SignedSum(a, S32(b));
    SignedSum(b, a);
  }

  lemma {:induction false} SignedDifference(a: int, b: int)
    ensures S32(S32(a) - S32(b)) == S32(a - b)
  {
    SignedSum(a, -S32(b));
    var k := SignedRanges(b);
    WholeRanges(a - b, -k);
  }

  lemma {:induction false} Carried(sec: int, usec: int)
    ensures (sec * US_PER_S + usec) / US_PER_S == sec + usec / US_PER_S
    ensures (sec * US_PER_S + usec) % US_PER_S == usec % US_PER_S
  {
  }

  /** `AsMicroseconds`, era by era. */
  lemma {:induction false} MicrosecondsByEra(e: Epoch, utt: int)
    requires e.freq > 0
    ensures var (r, d) := (RelativeTimeval(utt, e.freq), RelativeTimeval(0x1_0000_0000, e.freq));
            var us := (r.0 + e.sec) * US_PER_S + r.1 + e.usec;
            var duration := d.0 * US_PER_S + d.1;
            var era := Uptime.EpochEra(e, utt);
            && (era == 1 ==> AsMicroseconds(e, utt) == us)
            && (era == 0 ==> AsMicroseconds(e, utt) == us - duration)
            && (era == 2 ==> AsMicroseconds(e, utt) == us + duration)
  {
  }

  /** `AsNtp`, wrapped at every step. */
  lemma {:induction false} AsNtpByEra(e: Epoch, utt: int)
    requires e.freq > 0
    ensures var era := Uptime.EpochEra(e, utt);
            var base, duration := U64(RelativeNtp(utt, e.freq) + e.ntp), RelativeNtp(0x1_0000_0000, e.freq);
            && (era == 1 ==> Uptime.AsNtp(e, utt) == base)
            && (era == 0 ==> Uptime.AsNtp(e, utt) == U64(base - duration))
            && (era == 2 ==> Uptime.AsNtp(e, utt) == U64(base + duration))
  {
    hide RelativeNtp, Uptime.EpochEra;
    var duration := RelativeNtp(0x1_0000_0000, e.freq);
    Accumulated(RelativeNtp(utt, e.freq) + e.ntp, duration, 0);
    Accumulated(RelativeNtp(utt, e.freq) + e.ntp, -duration, 0);
  }

  lemma {:induction false} EraInRange(e: Epoch, utt: int)
    ensures -1 <= Uptime.EpochEra(e, utt) <= 2
    ensures !e.valid ==> Uptime.EpochEra(e, utt) == -1
  {
  }

  /** Wrapping at every step is wrapping at the end. */
  lemma {:induction false} Accumulated(x: int, y: int, z: int)
    ensures U64(U64(x) + y) == U64(x + y)
    ensures U64(U64(U64(x) + y) + z) == U64(x + y + z)
  {
  }
}
