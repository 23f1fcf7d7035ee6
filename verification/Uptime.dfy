/** Wall-clock time from the uptime counter (`src/utility/uptime.c`): the epoch,
    the era of a 32-bit uptime, and the conversions. */
module Uptime {
  import opened Words

  const US_PER_S := 1000000

  /** BSP430_UPTIME_EPOCH_VALID_OFFSET_UTT: 3/8 of an era. */
  const VALID_OFFSET := 0x6000_0000

  /** BSP430_UPTIME_POSIX_EPOCH_NTPIS. */
  const POSIX_EPOCH_NTPIS := 2208988800

  /** The epoch and the rate of the uptime counter.  The epoch is the time when
      the counter was last zero before `updated`: as an NTP timestamp in units of
      2^-32 s, and as seconds and microseconds. */
  datatype Epoch = Epoch(valid: bool, ntp: int, updated: int, sec: int, usec: int, freq: int)

  function U64(x: int): int {
    x % 0x1_0000_0000_0000_0000
  }

  function S64(x: int): int {
    var u := U64(x);
    if u < 0x8000_0000_0000_0000 then u else u - 0x1_0000_0000_0000_0000
  }

  /** `epoch_era_ni`: 0, 1 or 2 for the era before, of, or after the update, -1 if
      the epoch says nothing about `utt`. */
  function EpochEra(e: Epoch, utt: int): int {
    if !e.valid then -1
    else
      var delta := U32(e.updated - utt);
      if delta < 0x8000_0000 then
        if delta >= VALID_OFFSET then -1 else if utt > e.updated then 0 else 1
      else
        if U32(-delta) >= VALID_OFFSET then -1 else if utt < e.updated then 2 else 1
  }

  /** `get_relative_timeval`, as seconds and microseconds. */
  function RelativeTimeval(utt: int, freq: int): (int, int)
    requires freq > 0
  {
    (utt / freq, US_PER_S * (utt % freq) / freq)
  }

  /** `get_relative_ntp`: the shift is in 64 bits. */
  function RelativeNtp(utt: int, freq: int): int
    requires freq > 0
  {
    U64(utt * 0x1_0000_0000) / freq
  }

  /** `iBSP430uptimeSetEpochFromNTP`. */
  function SetEpochFromNtp(e: Epoch, ntp: int, now: int): Epoch {
    e.(valid := true, ntp := ntp, updated := now,
       sec := S32(ntp / 0x1_0000_0000 - POSIX_EPOCH_NTPIS),
       usec := US_PER_S * (ntp % 0x1_0000_0000) / 0x1_0000_0000)
  }

  /** `iBSP430uptimeSetEpochFromTimeval`: the time was (sec, usec) at `when`. */
  function SetEpochFromTimeval(e: Epoch, sec: int, usec: int, when: int, now: int): Epoch
    requires e.freq > 0
  {
    SetEpochFromNtp(e, U64((POSIX_EPOCH_NTPIS + sec) * 0x1_0000_0000
                           + usec * 0x1_0000_0000 / US_PER_S - RelativeNtp(when, e.freq)), now)
  }

  /** The time of `utt` in microseconds, as `iBSP430uptimeAsTimeval` adds it up
      before normalising. */
  function AsMicroseconds(e: Epoch, utt: int): int
    requires e.freq > 0
  {
    var (s, u) := RelativeTimeval(utt, e.freq);
    var (es, eu) := RelativeTimeval(0x1_0000_0000, e.freq);
    (s + e.sec) * US_PER_S + u + e.usec + (EpochEra(e, utt) - 1) * (es * US_PER_S + eu)
  }

  /** `iBSP430uptimeAsNTP` without bypassing the validation. */
  function AsNtp(e: Epoch, utt: int): int
    requires e.freq > 0
  {
    U64(RelativeNtp(utt, e.freq) + e.ntp + (EpochEra(e, utt) - 1) * RelativeNtp(0x1_0000_0000, e.freq))
  }

  // ----- the NTP exchange -----

  /** The C operator `/ 2` on signed values. */
  function Halve(x: int): int {
    if x >= 0 then x / 2 else -(-x / 2)
  }

  /** The clock offset as `iBSP430uptimeProcessNTPResponse` computes it. */
  function Theta(t1: int, t2: int, t3: int, t4: int): int {
    Halve(S64(S64(t2 - t1) + S64(t3 - t4)))
  }

  function Delta(t1: int, t2: int, t3: int, t4: int): int {
    U64((t4 - t1) - (t3 - t2))
  }

  /** The offset in milliseconds, saturated. */
  function AdjustmentMs(theta: int): int {
    var approx := theta / 0x40_0000;
    if S32(approx) == approx then S32(S64(1000 * theta) / 0x1_0000_0000)
    else if 0 > theta then -0x8000_0000 else 0x7FFF_FFFF
  }

  function RttUs(delta: int): int {
    var rtt := U64(US_PER_S * delta) / 0x1_0000_0000;
    if rtt == U32(rtt) then rtt else 0xFFFF_FFFF
  }
}
