/** What the wall clock promises. */
module UptimeProofs {
  import opened Arithmetic
  import opened Words
  import opened Uptime

  // ----- eras -----

  /** For true times less than half an era apart the era is exact, and the epoch
      is refused exactly if it is invalid, and from VALID_OFFSET ticks on. */
  lemma {:induction false} EraIsExact(e: Epoch, update: int, time: int)
    requires e.updated == U32(update) && -0x8000_0000 <= time - update <= 0x8000_0000
    ensures EpochEra(e, U32(time)) == -1 <==>
              !e.valid || time - update >= VALID_OFFSET || update - time >= VALID_OFFSET
    ensures EpochEra(e, U32(time)) != -1 ==>
              EpochEra(e, U32(time)) - 1 == time / 0x1_0000_0000 - update / 0x1_0000_0000
  {
    var k := time / 0x1_0000_0000 - update / 0x1_0000_0000;
    var d := update - time;
    assert e.updated - U32(time) == d + 0x1_0000_0000 * k;
    WholeRanges(d, k);
    assert d == U32(update) - U32(time) - 0x1_0000_0000 * k;
    if 0 <= d < 0x8000_0000 {
      assert U32(d) == d;
      assert k == 0 || k == -1;
    } else if d < 0 {
      assert U32(d) == d + 0x1_0000_0000;
      assert U32(-(d + 0x1_0000_0000)) == -d by { WholeRanges(-d, -1); }
      assert k == 0 || k == 1;
    }
  }

  // ----- time of day -----

  /** Splitting a duration into seconds and microseconds loses nothing but the
      fraction of a microsecond. */
  lemma {:induction false} RelativeIsFloor(utt: int, freq: int)
    requires freq > 0 && utt >= 0
    ensures var (s, u) := RelativeTimeval(utt, freq);
            s * US_PER_S + u == US_PER_S * utt / freq && 0 <= u < US_PER_S
  {
    var q, r := utt / freq, utt % freq;
    var p, t := US_PER_S * r / freq, US_PER_S * r % freq;
    assert utt == q * freq + r;
    assert US_PER_S * r == p * freq + t;
    assert US_PER_S * utt == (q * US_PER_S + p) * freq + t by {
      assert US_PER_S * (q * freq) == (q * US_PER_S) * freq;
      assert (q * US_PER_S + p) * freq == (q * US_PER_S) * freq + p * freq;
    }
    DivModUnique(US_PER_S * utt, q * US_PER_S + p, t, freq);
    assert US_PER_S * r < US_PER_S * freq;
    QuotientBound(US_PER_S * r, US_PER_S, freq);
    QuotientBound(US_PER_S * r, 0, freq);
  }

  /** The epoch in microseconds. */
  function EpochUs(e: Epoch): int {
    e.sec * US_PER_S + e.usec
  }

  /** The true uptime since the counter was zero in the era of the update. */
  function SinceEpoch(update: int, time: int): int {
    time - update / 0x1_0000_0000 * 0x1_0000_0000
  }

  /** The exact linear clock, rounded down. */
  function LinearUs(e: Epoch, update: int, time: int): int
    requires e.freq > 0
  {
    EpochUs(e) + US_PER_S * SinceEpoch(update, time) / e.freq
  }

  /** True times that the epoch covers. */
  ghost predicate Covered(e: Epoch, update: int, time: int) {
    e.valid && e.freq > 0 && e.updated == U32(update) && -VALID_OFFSET < time - update < VALID_OFFSET
  }

  /** What `AsMicroseconds` computes, in true time. */
  lemma {:induction false} AsMicrosecondsIs(e: Epoch, update: int, time: int)
    requires Covered(e, update, time)
    ensures var k := time / 0x1_0000_0000 - update / 0x1_0000_0000;
            && (k == -1 || k == 0 || k == 1)
            && AsMicroseconds(e, U32(time)) == EpochUs(e) + US_PER_S * U32(time) / e.freq
                                               + k * (US_PER_S * 0x1_0000_0000 / e.freq)
            && SinceEpoch(update, time) == U32(time) + k * 0x1_0000_0000
  {
    EraIsExact(e, update, time);
    RelativeIsFloor(U32(time), e.freq);
    RelativeIsFloor(0x1_0000_0000, e.freq);
  }

  /** The wall clock is within one microsecond of the exact clock rounded down, in
      all three eras. */
  lemma {:induction false} WithinOneMicrosecond(e: Epoch, update: int, time: int)
    requires Covered(e, update, time)
    ensures -1 <= AsMicroseconds(e, U32(time)) - LinearUs(e, update, time) <= 1
    ensures time / 0x1_0000_0000 == update / 0x1_0000_0000 ==>
              AsMicroseconds(e, U32(time)) == LinearUs(e, update, time)
  {
    AsMicrosecondsIs(e, update, time);
    var k := time / 0x1_0000_0000 - update / 0x1_0000_0000;
    ErasRounded(US_PER_S * U32(time), US_PER_S * 0x1_0000_0000, k, e.freq);
    assert US_PER_S * SinceEpoch(update, time) == US_PER_S * U32(time) + k * (US_PER_S * 0x1_0000_0000);
    hide *;
    assert LinearUs(e, update, time) == EpochUs(e) + US_PER_S * SinceEpoch(update, time) / e.freq by {
      LinearUsIs(e, update, time);
    }
  }

  lemma {:induction false} LinearUsIs(e: Epoch, update: int, time: int)
    requires e.freq > 0
    ensures LinearUs(e, update, time) == EpochUs(e) + US_PER_S * SinceEpoch(update, time) / e.freq
  {
  }

  /** Adding or taking away an era before or after dividing. */
  lemma {:induction false} ErasRounded(x: int, era: int, k: int, freq: int)
    requires freq > 0 && (k == -1 || k == 0 || k == 1)
    ensures -1 <= x / freq + k * (era / freq) - (x + k * era) / freq <= 1
    ensures k == 0 ==> x / freq + k * (era / freq) == (x + k * era) / freq
  {
    QuotientSum(x, era, freq);
    QuotientSum(x - era, era, freq);
  }

  /** The wall clock never goes back, also where the counter wraps. */
  lemma {:induction false} WallClockMonotone(e: Epoch, update: int, early: int, late: int)
    requires Covered(e, update, early) && Covered(e, update, late) && early <= late
    ensures AsMicroseconds(e, U32(early)) <= AsMicroseconds(e, U32(late))
  {
    hide AsMicroseconds;
    AsMicrosecondsIs(e, update, early);
    AsMicrosecondsIs(e, update, late);
    var u, v, era := US_PER_S * U32(early), US_PER_S * U32(late), US_PER_S * 0x1_0000_0000;
    QuotientBound(v, 0, e.freq);
    QuotientMonotone(u, era, e.freq);
    if early / 0x1_0000_0000 == late / 0x1_0000_0000 {
      QuotientMonotone(u, v, e.freq);
    }
  }

  // ----- setting the epoch -----

  /** The time at uptime zero fits the 32-bit time_t, so that the epoch is what was
      asked for and not that time wrapped. */
  predicate EpochFits(sec: int, when: int, freq: int)
    requires freq > 0
  {
    -0x8000_0000 <= sec - when / freq - 1 && sec < 0x8000_0000
  }

  /** The epoch that `SetEpochFromTimeval` stores, before it is wrapped. */
  function EpochNtp(sec: int, usec: int, when: int, freq: int): int
    requires freq > 0
  {
    (POSIX_EPOCH_NTPIS + sec) * 0x1_0000_0000 + usec * 0x1_0000_0000 / US_PER_S - when * 0x1_0000_0000 / freq
  }

  lemma {:induction false} U64Bits(x: int)
    ensures U32(U64(x) / 0x1_0000_0000) == U32(x / 0x1_0000_0000)
    ensures U64(x) % 0x1_0000_0000 == x % 0x1_0000_0000
  {
    var k := x / 0x1_0000_0000_0000_0000;
    assert U64(x) == x + 0x1_0000_0000 * (-k * 0x1_0000_0000);
    WholeRanges(x, -k * 0x1_0000_0000);
    assert U64(x) / 0x1_0000_0000 == x / 0x1_0000_0000 + 0x1_0000_0000 * -k;
    WholeRanges(x / 0x1_0000_0000, -k);
  }

  /** A timestamp split into seconds and microseconds is its floor in microseconds. */
  lemma {:induction false} NtpToMicroseconds(x: int)
    ensures x / 0x1_0000_0000 * US_PER_S + US_PER_S * (x % 0x1_0000_0000) / 0x1_0000_0000
            == US_PER_S * x / 0x1_0000_0000
  {
  }

  lemma {:induction false} SetEpochIs(e: Epoch, sec: int, usec: int, when: int, now: int)
    requires e.freq > 0 && 0 <= usec < US_PER_S && 0 <= when < 0x1_0000_0000
    requires EpochFits(sec, when, e.freq)
    ensures var f := SetEpochFromTimeval(e, sec, usec, when, now);
            && EpochUs(f) == US_PER_S * EpochNtp(sec, usec, when, e.freq) / 0x1_0000_0000 - POSIX_EPOCH_NTPIS * US_PER_S
            && 0 <= f.usec < US_PER_S
  {
    var x := EpochNtp(sec, usec, when, e.freq);
    hide U64, S32, RelativeNtp;
    InOneEraExact(when, e.freq);
    assert SetEpochFromTimeval(e, sec, usec, when, now) == SetEpochFromNtp(e, U64(x), now);
    hide EpochNtp, SetEpochFromTimeval;
    EpochSecondsFit(sec, usec, when, e.freq);
    StoredEpoch(x);
    EpochMicroseconds(U64(x));
  }

  lemma {:induction false} InOneEraExact(when: int, freq: int)
    requires freq > 0 && 0 <= when < 0x1_0000_0000
    ensures RelativeNtp(when, freq) == when * 0x1_0000_0000 / freq
  {
  }

  lemma {:induction false} EpochMicroseconds(ntp: int)
    ensures 0 <= US_PER_S * (ntp % 0x1_0000_0000) / 0x1_0000_0000 < US_PER_S
  {
  }

  /** What is stored of the timestamp `x` once its 64 bits are split. */
  lemma {:induction false} StoredEpoch(x: int)
    requires -0x8000_0000 <= x / 0x1_0000_0000 - POSIX_EPOCH_NTPIS < 0x8000_0000
    ensures S32(U64(x) / 0x1_0000_0000 - POSIX_EPOCH_NTPIS) * US_PER_S
              + US_PER_S * (U64(x) % 0x1_0000_0000) / 0x1_0000_0000
            == US_PER_S * x / 0x1_0000_0000 - POSIX_EPOCH_NTPIS * US_PER_S
  {
    hide U64, S32;
    U64Bits(x);
    NtpToMicroseconds(x);
    SignedOfCongruent(U64(x) / 0x1_0000_0000, x / 0x1_0000_0000);
  }

  lemma {:induction false} SignedOfCongruent(a: int, b: int)
    requires U32(a) == U32(b) && -0x8000_0000 <= b - POSIX_EPOCH_NTPIS < 0x8000_0000
    ensures S32(a - POSIX_EPOCH_NTPIS) == b - POSIX_EPOCH_NTPIS
  {
  }

  lemma {:induction false} EpochSecondsFit(sec: int, usec: int, when: int, freq: int)
    requires freq > 0 && 0 <= usec < US_PER_S && 0 <= when < 0x1_0000_0000 && EpochFits(sec, when, freq)
    ensures -0x8000_0000 <= EpochNtp(sec, usec, when, freq) / 0x1_0000_0000 - POSIX_EPOCH_NTPIS < 0x8000_0000
  {
    var q, r, y := when / freq, when % freq, when * 0x1_0000_0000 / freq;
    assert when == q * freq + r;
    assert ((q + 1) * 0x1_0000_0000) * freq == 0x1_0000_0000 * (q * freq) + 0x1_0000_0000 * freq;
    QuotientBound(when * 0x1_0000_0000, (q + 1) * 0x1_0000_0000, freq);
    QuotientBound(when * 0x1_0000_0000, 0, freq);
  }

  /** Setting the epoch and asking for the same uptime gives the time back, to two
      microseconds and never ahead of it, exactly if that uptime is of the era in
      which the epoch is set; otherwise it is an era out. */
  lemma {:induction false} SetThenGet(e: Epoch, sec: int, usec: int, update: int, when: int)
    requires 0 < e.freq < 0x1_0000_0000 && 0 <= usec < US_PER_S && EpochFits(sec, U32(when), e.freq)
    requires -VALID_OFFSET < when - update < VALID_OFFSET
    ensures var f, us := SetEpochFromTimeval(e, sec, usec, U32(when), U32(update)), sec * US_PER_S + usec;
            us - 2 <= AsMicroseconds(f, U32(when)) <= us
            <==> when / 0x1_0000_0000 == update / 0x1_0000_0000
  {
    var f, w := SetEpochFromTimeval(e, sec, usec, U32(when), U32(update)), U32(when);
    assert f.freq == e.freq && Covered(f, update, when);
    hide AsMicroseconds, SetEpochFromTimeval, EpochNtp, EpochFits, Covered, U32;
    SetEpochIs(e, sec, usec, w, U32(update));
    AsMicrosecondsIs(f, update, when);
    RoundingErrors(sec, usec, w, e.freq);
    QuotientBound(US_PER_S * 0x1_0000_0000, US_PER_S, e.freq);
    var k := when / 0x1_0000_0000 - update / 0x1_0000_0000;
    ErasOut(EpochUs(f) + US_PER_S * w / e.freq, k, US_PER_S * 0x1_0000_0000 / e.freq, sec * US_PER_S + usec);
  }

  lemma {:induction false} ErasOut(base: int, k: int, duration: int, us: int)
    requires us - 2 <= base <= us && US_PER_S <= duration && -1 <= k <= 1
    ensures us - 2 <= base + k * duration <= us <==> k == 0
  {
  }

  /** The three roundings of setting and getting an epoch, against each other. */
  lemma {:induction false} RoundingErrors(sec: int, usec: int, w: int, freq: int)
    requires freq > 0 && 0 <= usec < US_PER_S && 0 <= w
    ensures var us := US_PER_S * EpochNtp(sec, usec, w, freq) / 0x1_0000_0000 - POSIX_EPOCH_NTPIS * US_PER_S
                      + US_PER_S * w / freq;
            sec * US_PER_S + usec - 2 <= us <= sec * US_PER_S + usec
  {
    var x, y, b := usec * 0x1_0000_0000 / US_PER_S, w * 0x1_0000_0000 / freq, US_PER_S * w / freq;
    TickRounding(w, freq);
    assert usec * 0x1_0000_0000 - US_PER_S < US_PER_S * x <= usec * 0x1_0000_0000;
    var a := US_PER_S * (x - y) / 0x1_0000_0000;
    assert US_PER_S * EpochNtp(sec, usec, w, freq) ==
           0x1_0000_0000 * ((POSIX_EPOCH_NTPIS + sec) * US_PER_S) + US_PER_S * (x - y);
    assert US_PER_S * EpochNtp(sec, usec, w, freq) / 0x1_0000_0000 == (POSIX_EPOCH_NTPIS + sec) * US_PER_S + a;
    assert US_PER_S * (x - y) - 0x1_0000_0000 < 0x1_0000_0000 * a <= US_PER_S * (x - y);
  }

  /** Ticks rounded to microseconds and to units of 2^-32 s. */
  lemma {:induction false} TickRounding(w: int, freq: int)
    requires freq > 0
    ensures var y, b := w * 0x1_0000_0000 / freq, US_PER_S * w / freq;
            US_PER_S * y - 0x1_0000_0000 < 0x1_0000_0000 * b < US_PER_S * (y + 1)
  {
    var y, b := w * 0x1_0000_0000 / freq, US_PER_S * w / freq;
    var s, t := w * 0x1_0000_0000 % freq, US_PER_S * w % freq;
    assert w * 0x1_0000_0000 == y * freq + s && US_PER_S * w == b * freq + t;
    assert (0x1_0000_0000 * b) * freq == 0x1_0000_0000 * (b * freq);
    assert (US_PER_S * (y + 1)) * freq == US_PER_S * (y * freq) + US_PER_S * freq;
    assert (US_PER_S * y - 0x1_0000_0000) * freq == US_PER_S * (y * freq) - 0x1_0000_0000 * freq;
    CancelFactor(0x1_0000_0000 * b, US_PER_S * (y + 1), freq);
    CancelFactor(US_PER_S * y - 0x1_0000_0000, 0x1_0000_0000 * b, freq);
  }

  // ----- NTP timestamps -----

  /** Two 64-bit values less than the whole range apart are the same only if they
      are equal. */
  lemma {:induction false} SameU64(a: int, b: int)
    requires -0x1_0000_0000_0000_0000 < a - b < 0x1_0000_0000_0000_0000
    ensures U64(a) == U64(b) <==> a == b
  {
  }

  /** The exact linear clock in units of 2^-32 s, rounded down. */
  function LinearNtp(e: Epoch, update: int, time: int): int
    requires e.freq > 0
  {
    e.ntp + 0x1_0000_0000 * SinceEpoch(update, time) / e.freq
  }

  /** The duration of an era is shifted out of its 64 bits, so that an uptime is
      converted to NTP time correctly exactly in the era of the epoch. */
  lemma {:induction false} AsNtpIffSameEra(e: Epoch, update: int, time: int)
    requires Covered(e, update, time) && 2 <= e.freq < 0x1_0000_0000
    ensures AsNtp(e, U32(time)) == U64(LinearNtp(e, update, time))
            <==> time / 0x1_0000_0000 == update / 0x1_0000_0000
  {
    EraIsExact(e, update, time);
    var k, u := time / 0x1_0000_0000 - update / 0x1_0000_0000, U32(time);
    var x, era := 0x1_0000_0000 * u, 0x1_0000_0000 * 0x1_0000_0000;
    assert U64(era) == 0 && RelativeNtp(0x1_0000_0000, e.freq) == 0 by { DivModUnique(0, 0, 0, e.freq); }
    assert U64(x) == x && RelativeNtp(u, e.freq) == x / e.freq;
    assert AsNtp(e, u) == U64(e.ntp + x / e.freq);
    assert 0x1_0000_0000 * SinceEpoch(update, time) == x + k * era;
    EraInNtp(e.freq);
    QuotientSum(x, era, e.freq);
    QuotientSum(x - era, era, e.freq);
    SameU64(e.ntp + x / e.freq, LinearNtp(e, update, time));
  }

  lemma {:induction false} EraInNtp(freq: int)
    requires 2 <= freq < 0x1_0000_0000
    ensures 0x1_0000_0000 <= 0x1_0000_0000 * 0x1_0000_0000 / freq <= 0x8000_0000_0000_0000
  {
  }

  /** In every era the era's duration counts for nothing. */
  lemma {:induction false} AsNtpIs(e: Epoch, update: int, time: int)
    requires Covered(e, update, time)
    ensures AsNtp(e, U32(time)) == U64(e.ntp + 0x1_0000_0000 * U32(time) / e.freq)
  {
    var u := U32(time);
    assert RelativeNtp(0x1_0000_0000, e.freq) == 0 by { DivModUnique(0, 0, 0, e.freq); }
    InOneEraExact(u, e.freq);
    hide RelativeNtp, U64, U32, EpochEra, Covered;
    assert u * 0x1_0000_0000 == 0x1_0000_0000 * u;
    NothingTimes(EpochEra(e, u) - 1);
  }

  lemma {:induction false} NothingTimes(k: int)
    ensures k * 0 == 0
  {
  }

  lemma {:induction false} Unwrapped(x: int)
    requires 0 <= x < 0x1_0000_0000_0000_0000
    ensures U64(x) == x
  {
  }

  /** What `iBSP430uptimeSetEpochFromNTP` stores. */
  lemma {:induction false} SetEpochFromNtpIs(e: Epoch, ntp: int, now: int)
    ensures var f := SetEpochFromNtp(e, ntp, now);
            && f.valid && f.ntp == ntp && f.updated == now && f.freq == e.freq
            && (0 <= ntp < 0x1_0000_0000_0000_0000
                && -0x8000_0000 <= ntp / 0x1_0000_0000 - POSIX_EPOCH_NTPIS < 0x8000_0000 ==>
                  EpochUs(f) == US_PER_S * ntp / 0x1_0000_0000 - POSIX_EPOCH_NTPIS * US_PER_S)
  {
    if 0 <= ntp < 0x1_0000_0000_0000_0000 && -0x8000_0000 <= ntp / 0x1_0000_0000 - POSIX_EPOCH_NTPIS < 0x8000_0000 {
      Unwrapped(ntp);
      hide U64, S32;
      StoredEpoch(ntp);
    }
  }

  /** Setting the epoch in NTP time and asking for the NTP time of an uptime of its
      era gives back the epoch and the time since. */
  lemma {:induction false} SetThenGetNtp(e: Epoch, ntp: int, update: int, time: int)
    requires e.freq > 0 && -VALID_OFFSET < time - update < VALID_OFFSET
    ensures var f := SetEpochFromNtp(e, ntp, U32(update));
            && EpochEra(f, U32(time)) != -1
            && AsNtp(f, U32(time)) == U64(ntp + 0x1_0000_0000 * U32(time) / e.freq)
  {
    var f := SetEpochFromNtp(e, ntp, U32(update));
    EraIsExact(f, update, time);
    AsNtpIs(f, update, time);
  }

  /** What `iBSP430uptimeSetEpochFromTimeval` stores in NTP time. */
  lemma {:induction false} SetEpochFromTimevalNtp(e: Epoch, sec: int, usec: int, when: int, now: int)
    requires e.freq > 0 && 0 <= when < 0x1_0000_0000
    ensures var f := SetEpochFromTimeval(e, sec, usec, when, now);
            f.valid && f.ntp == U64(EpochNtp(sec, usec, when, e.freq)) && f.updated == now && f.freq == e.freq
  {
    hide U64, S32, RelativeNtp;
    InOneEraExact(when, e.freq);
  }

  /** The constants: 70 years with 17 leap days, and 3/8 of an era. */
  lemma {:induction false} EpochConstants()
    ensures POSIX_EPOCH_NTPIS == (70 * 365 + 17) * 24 * 60 * 60
    ensures 8 * VALID_OFFSET == 3 * 0x1_0000_0000
  {
  }

  // ----- the NTP exchange -----

  lemma {:induction false} S64Exact(x: int, v: int)
    requires U64(x) == U64(v) && -0x8000_0000_0000_0000 <= v < 0x8000_0000_0000_0000
    ensures S64(x) == v
  {
  }

  lemma {:induction false} U64Difference(a: int, b: int)
    ensures U64(U64(a) - U64(b)) == U64(a - b)
  {
  }

  /** Half of `x`, rounded toward zero. */
  predicate HalfTowardZero(x: int, half: int) {
    if x >= 0 then 0 <= x - 2 * half <= 1 else -1 <= x - 2 * half <= 0
  }

  /** Section 8 of RFC 5905.  The request leaves at `sent` by the local clock, is
      `out` on its way, stays `stay` at a server whose clock is `offset` ahead, and
      its answer is `back` on its way: the computed delay is the sum of the two
      ways; the computed offset is wrong by half of their difference, rounded, so by
      at most half of the delay, up to one unit. */
  lemma {:induction false} ExchangeBounds(sent: int, offset: int, out: int, stay: int, back: int)
    requires 0 <= out && 0 <= stay && 0 <= back
    requires -0x4000_0000_0000_0000 <= offset - back && offset + out < 0x4000_0000_0000_0000
    ensures var t1, t2 := U64(sent), U64(sent + out + offset);
            var t3, t4 := U64(sent + out + stay + offset), U64(sent + out + stay + back);
            && Delta(t1, t2, t3, t4) == out + back
            && HalfTowardZero(2 * offset + out - back, Theta(t1, t2, t3, t4))
            && -(out + back) - 1 <= 2 * (Theta(t1, t2, t3, t4) - offset) <= out + back + 1
  {
    var t1, t2 := U64(sent), U64(sent + out + offset);
    var t3, t4 := U64(sent + out + stay + offset), U64(sent + out + stay + back);
    U64Difference(sent + out + offset, sent);
    U64Difference(sent + out + stay + offset, sent + out + stay + back);
    S64Exact(t2 - t1, out + offset);
    S64Exact(t3 - t4, offset - back);
    S64Exact(2 * offset + out - back, 2 * offset + out - back);
    DelayExact(t1, t2, t3, t4, sent, offset, out, stay, back);
  }

  lemma {:induction false} DelayExact(t1: int, t2: int, t3: int, t4: int,
                                      sent: int, offset: int, out: int, stay: int, back: int)
    requires 0 <= out + back < 0x1_0000_0000_0000_0000
    requires t1 == U64(sent) && t2 == U64(sent + out + offset)
    requires t3 == U64(sent + out + stay + offset) && t4 == U64(sent + out + stay + back)
    ensures Delta(t1, t2, t3, t4) == out + back
  {
  }

  /** The millisecond adjustment: where the cheap test passes nothing overflows and
      the value is exact, rounded down; elsewhere it saturates with its sign. */
  lemma {:induction false} AdjustmentIsExactOrSaturates(theta: int)
    requires -0x8000_0000_0000_0000 <= theta < 0x8000_0000_0000_0000
    ensures var fits := -0x20_0000_0000_0000 <= theta < 0x20_0000_0000_0000;
            && (fits ==> -0x8000_0000_0000_0000 <= 1000 * theta < 0x8000_0000_0000_0000)
            && (fits ==> -0x8000_0000 <= 1000 * theta / 0x1_0000_0000 < 0x8000_0000)
            && AdjustmentMs(theta) == if fits then 1000 * theta / 0x1_0000_0000
                                      else if theta < 0 then -0x8000_0000 else 0x7FFF_FFFF
  {
    var approx := theta / 0x40_0000;
    if -0x20_0000_0000_0000 <= theta < 0x20_0000_0000_0000 {
      assert -0x8000_0000 <= approx < 0x8000_0000;
      S64Exact(1000 * theta, 1000 * theta);
    } else {
      assert !(-0x8000_0000 <= approx < 0x8000_0000);
      var k := SignedRanges(approx);
    }
  }

  /** The round-trip time never saturates, although the code is there: the product
      is cut to 64 bits first.  It is exact iff that product fits. */
  lemma {:induction false} RoundTripTimeExactIff(delta: int)
    requires 0 <= delta < 0x1_0000_0000_0000_0000
    ensures RttUs(delta) == U64(US_PER_S * delta) / 0x1_0000_0000
    ensures RttUs(delta) == US_PER_S * delta / 0x1_0000_0000 <==> US_PER_S * delta < 0x1_0000_0000_0000_0000
  {
  }
}
