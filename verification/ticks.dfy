/** Conversion of timespecs to scheduler ticks, and of an absolute deadline
    to the number of ticks still to wait.

    The tick rate (`configTICK_RATE_HZ`), the nanoseconds per tick
    (`NANOSECONDS_PER_TICK`) and the width of `TickType_t` are build-time
    configuration of the scheduler; here they are a `TickConfig` value.
 */
module Ticks {
  import opened Pointers
  import opened CArith
  import opened Timespecs

  /** errno values of the FreeRTOS+POSIX errno header. */
  const EINVAL: int := 22
  const ETIMEDOUT: int := 116

  datatype TickConfig = TickConfig(rateHz: nat, nsPerTick: nat, tickBits: nat) {
    /** A positive tick rate that `uint64_t` holds, more than one nanosecond
        per tick, and a tick type no wider than 64 bits. */
    predicate Wf() {
      0 < rateHz < Pow2(64) && nsPerTick > 1 && tickBits <= 64
    }
  }

  /** Ticks contributed by `tv_nsec`: whole ticks, plus one when a partial
      tick is left over. */
  function NanosecondTicks(nsec: int, nsPerTick: int): int
    requires nsPerTick > 0
  {
    TruncDiv(nsec, nsPerTick) + (if TruncMod(nsec, nsPerTick) != 0 then 1 else 0)
  }

  /** For a valid `tv_nsec` the contribution is the ceiling of
      `tv_nsec / nsPerTick`, so a delay is never rounded down, and it fits a
      32-bit `long`. */
  lemma NanosecondTicksRoundUp(nsec: int, nsPerTick: int)
    requires 0 <= nsec < NANOSECONDS_PER_SECOND && nsPerTick > 1
    ensures var c := NanosecondTicks(nsec, nsPerTick);
      && 0 <= c <= INT32_MAX
      && c * nsPerTick >= nsec
      && (nsec > 0 ==> (c - 1) * nsPerTick < nsec)
      && (nsec == 0 ==> c == 0)
  {
    TruncDivMod(nsec, nsPerTick);
    var q, m := nsec / nsPerTick, nsec % nsPerTick;
    var c := NanosecondTicks(nsec, nsPerTick);
    assert nsec == nsPerTick * q + m;
    QuotientAtMostHalf(q, m, nsPerTick);
    if m == 0 {
      assert c == q;
      assert (c - 1) * nsPerTick == nsec - nsPerTick;
    } else {
      assert c == q + 1;
      assert c * nsPerTick == nsec - m + nsPerTick;
      assert (c - 1) * nsPerTick == nsec - m;
    }
  }

  lemma QuotientAtMostHalf(q: int, m: int, d: int)
    requires d > 1 && q >= 0 && m >= 0
    ensures 2 * q <= d * q + m
  {
    assert d * q == 2 * q + (d - 2) * q;
  }

  /** The tick count a duration amounts to before narrowing to `TickType_t`. */
  function DurationTicks(t: Timespec, cfg: TickConfig): int
    requires cfg.Wf()
  {
    cfg.rateHz * t.tv_sec + NanosecondTicks(t.tv_nsec, cfg.nsPerTick)
  }

  /** UTILS_TimespecToTicks: EINVAL, leaving the result untouched, for a NULL
      argument or an invalid timespec; otherwise the rounded-up tick count,
      computed in `uint64_t` and narrowed to the tick width. */
  function TimespecToTicks(t: Option<Timespec>, dest: Option<nat>, cfg: TickConfig): (r: Written<nat>)
    requires cfg.Wf()
    ensures t.None? || dest.None? || !Valid(t.value) ==> r == Written(EINVAL, dest)
    ensures t.Some? && dest.Some? && Valid(t.value) ==>
      && r.status == 0
      && r.dest.Some?
      && r.dest.value < Pow2(cfg.tickBits)
      && r.dest.value == DurationTicks(t.value, cfg) % Pow2(cfg.tickBits)
  {
    if t.None? || dest.None? then Written(EINVAL, dest)
    else if !ValidateTimespec(t) then Written(EINVAL, dest)
    else
      var ts := t.value;
      var secTicks := ToUnsigned(cfg.rateHz * ToUnsigned(ts.tv_sec, 64), 64);
      var nsTicks := NanosecondTicks(ts.tv_nsec, cfg.nsPerTick);
      var total := ToUnsigned(secTicks + nsTicks, 64);
      TotalTicksWrap(cfg.rateHz, ts.tv_sec, nsTicks, cfg.tickBits);
      Written(0, Some(ToUnsigned(total, cfg.tickBits)))
  }

  /** The `uint64_t` conversions of `tv_sec`, of the product and of the sum
      all vanish modulo the tick width. */
  lemma TotalTicksWrap(rate: int, sec: int, c: int, w: nat)
    requires w <= 64
    ensures ToUnsigned(ToUnsigned(rate * ToUnsigned(sec, 64), 64) + c, 64) % Pow2(w)
         == (rate * sec + c) % Pow2(w)
  {
    ModMulRight(rate, sec, Pow2(64));
    ModAddLeft(rate * sec, c, Pow2(64));
    ModPow2Narrow(rate * sec + c, w);
  }

  /** With an exact configuration (rate * nsPerTick == 1e9) and no narrowing,
      the tick count is the ceiling of the duration over the tick length. */
  lemma TicksAreCeiling(t: Timespec, cfg: TickConfig)
    requires cfg.Wf() && cfg.rateHz * cfg.nsPerTick == NANOSECONDS_PER_SECOND
    requires Valid(t) && t.tv_sec >= 0
    ensures var k := DurationTicks(t, cfg);
      && k * cfg.nsPerTick >= Nanoseconds(t)
      && (Nanoseconds(t) > 0 ==> (k - 1) * cfg.nsPerTick < Nanoseconds(t))
      && (Nanoseconds(t) == 0 ==> k == 0)
  {
    var c := NanosecondTicks(t.tv_nsec, cfg.nsPerTick);
    NanosecondTicksRoundUp(t.tv_nsec, cfg.nsPerTick);
    var k := DurationTicks(t, cfg);
    assert k * cfg.nsPerTick == t.tv_sec * NANOSECONDS_PER_SECOND + c * cfg.nsPerTick by {
      assert k * cfg.nsPerTick == (cfg.rateHz * t.tv_sec) * cfg.nsPerTick + c * cfg.nsPerTick;
      assert (cfg.rateHz * t.tv_sec) * cfg.nsPerTick == t.tv_sec * (cfg.rateHz * cfg.nsPerTick);
    }
    if c == 0 && t.tv_sec > 0 {
      assert (k - 1) * cfg.nsPerTick == k * cfg.nsPerTick - cfg.nsPerTick;
    } else if c > 0 {
      assert (k - 1) * cfg.nsPerTick == t.tv_sec * NANOSECONDS_PER_SECOND + (c - 1) * cfg.nsPerTick;
    }
  }

  /** UTILS_AbsoluteTimespecToDeltaTicks: EINVAL on a NULL argument,
      ETIMEDOUT when the target is earlier than now, EINVAL when the
      subtraction fails, otherwise the tick conversion of target - now. */
  function AbsoluteTimespecToDeltaTicks(target: Option<Timespec>, now: Option<Timespec>,
                                        dest: Option<nat>, cfg: TickConfig): (r: Written<nat>)
    requires cfg.Wf()
    ensures r.status == 0 || r.status == EINVAL || r.status == ETIMEDOUT
    ensures r.status != 0 ==> r.dest == dest
    ensures target.None? || now.None? || dest.None? ==> r == Written(EINVAL, dest)
    ensures r.status == ETIMEDOUT <==>
      target.Some? && now.Some? && dest.Some? && TimespecCompare(target, now) == -1
    ensures target.Some? && now.Some? && dest.Some? ==>
      (TimespecSubtract(target, now, Some(Timespec(0, 0))).status == -1 ==> r == Written(EINVAL, dest))
    ensures target.Some? && now.Some? && dest.Some? ==>
      var diff := TimespecSubtract(target, now, Some(Timespec(0, 0)));
      diff.status == 0 ==> r == TimespecToTicks(diff.dest, dest, cfg)
    ensures target.Some? && now.Some? && dest.Some? && Valid(target.value) && Valid(now.value)
            && TimespecCompare(target, now) != -1 ==>
      var d := NormalForm(Nanoseconds(target.value) - Nanoseconds(now.value));
      && d.tv_sec >= 0
      && r.status == 0
      && r.dest == Some(DurationTicks(d, cfg) % Pow2(cfg.tickBits))
  {
    if target.None? || now.None? || dest.None? then Written(EINVAL, dest)
    else
      var diff := TimespecSubtract(target, now, Some(Timespec(0, 0)));
      if diff.status == 1 then Written(ETIMEDOUT, dest)
      else if diff.status == -1 then Written(EINVAL, dest)
      else TimespecToTicks(diff.dest, dest, cfg)
  }

  /** The validity of the operands is never checked: an invalid deadline
      whose difference from now normalises still yields ticks. */
  lemma InvalidDeadlineStillConverts(dest: nat)
    ensures AbsoluteTimespecToDeltaTicks(Some(Timespec(5, -500_000_000)), Some(Timespec(0, 0)), Some(dest),
                                         TickConfig(1000, 1_000_000, 32)) == Written(0, Some(4500))
  {
    var cfg := TickConfig(1000, 1_000_000, 32);
    assert TimespecSubtract(Some(Timespec(5, -500_000_000)), Some(Timespec(0, 0)), Some(Timespec(0, 0)))
        == Written(0, Some(Timespec(4, 500_000_000)));
    assert NanosecondTicks(500_000_000, 1_000_000) == 500;
    assert DurationTicks(Timespec(4, 500_000_000), cfg) == 4500;
    Pow2Of32();
    Pow2Of64();
  }

  /** A deadline equal to the current time leaves zero ticks to wait. */
  lemma DeadlineNowIsZeroTicks(now: Timespec, dest: nat, cfg: TickConfig)
    requires cfg.Wf()
    ensures AbsoluteTimespecToDeltaTicks(Some(now), Some(now), Some(dest), cfg) == Written(0, Some(0))
  {
    assert TimespecSubtract(Some(now), Some(now), Some(Timespec(0, 0))) == Written(0, Some(Timespec(0, 0)));
    assert DurationTicks(Timespec(0, 0), cfg) == 0;
  }

  /** One nanosecond at 1000 Hz is one tick, not zero. */
  lemma OneNanosecondIsOneTick(dest: nat)
    ensures TimespecToTicks(Some(Timespec(0, 1)), Some(dest), TickConfig(1000, 1_000_000, 32)) == Written(0, Some(1))
  {
    var cfg := TickConfig(1000, 1_000_000, 32);
    assert NanosecondTicks(1, 1_000_000) == 1;
    assert DurationTicks(Timespec(0, 1), cfg) == 1;
    Pow2Of32();
    Pow2Of64();
  }

  /** A deadline of 10 s checked at 11 s has passed. */
  lemma PastDeadlineTimesOut(dest: nat)
    ensures AbsoluteTimespecToDeltaTicks(Some(Timespec(10, 0)), Some(Timespec(11, 0)), Some(dest),
                                         TickConfig(1000, 1_000_000, 32)) == Written(ETIMEDOUT, Some(dest))
  {
  }

  /** A deadline of 11 s checked at 10 s is 1000 ticks away at 1000 Hz. */
  lemma FutureDeadlineTicks(dest: nat)
    ensures AbsoluteTimespecToDeltaTicks(Some(Timespec(11, 0)), Some(Timespec(10, 0)), Some(dest),
                                         TickConfig(1000, 1_000_000, 32)) == Written(0, Some(1000))
  {
    var cfg := TickConfig(1000, 1_000_000, 32);
    assert TimespecSubtract(Some(Timespec(11, 0)), Some(Timespec(10, 0)), Some(Timespec(0, 0)))
        == Written(0, Some(Timespec(1, 0)));
    assert NanosecondTicks(0, 1_000_000) == 0;
    assert DurationTicks(Timespec(1, 0), cfg) == 1000;
    Pow2Of32();
    Pow2Of64();
  }
}
