/**
  The stall service (BraswellPlatformPkg/PlatformPei/Stall.c): waiting on the 24-bit ACPI power
  management timer, 3.579545 MHz (section 4.8.3.3 of the ACPI specification 5.0). The clock gives the
  absolute tick count at each read of the register; the register shows its low 24 bits.
 */
module Stalling {

  const WRAP: nat := 0x100_0000
  const FREQUENCY: nat := 3579545

  type Clock = nat -> nat

  /** Consecutive reads are between 1 and `maxStride` ticks apart. */
  ghost predicate Ticking(clock: Clock, maxStride: nat) {
    forall i: nat :: clock(i) + 1 <= clock(i + 1) <= clock(i) + maxStride
  }

  /** The value of the register at read `i`. */
  function Register(clock: Clock, i: nat): (r: nat)
    ensures r < WRAP
  {
    clock(i) % WRAP
  }

  /** The deadline relative to the start of the timer period of the first read; `limit` is one more than the largest UINTN. */
  function Ticks(microseconds: nat, originalTick: nat, limit: nat): nat
    requires limit > 0
  {
    (microseconds * 358 % limit / 100 + originalTick + 1) % limit
  }

  /** The tick arithmetic of a request does not wrap. */
  predicate Fits(microseconds: nat, limit: nat) {
    microseconds * 358 < limit && microseconds * 358 / 100 + WRAP < limit
  }

  lemma TicksExact(microseconds: nat, originalTick: nat, limit: nat)
    requires Fits(microseconds, limit) && originalTick < WRAP
    ensures Ticks(microseconds, originalTick, limit) == microseconds * 358 / 100 + originalTick + 1
  {
    var product := microseconds * 358;
    Small(product, limit);
    Small(product / 100 + originalTick + 1, limit);
  }

  lemma Small(x: nat, limit: nat)
    requires x < limit
    ensures x % limit == x
  {
  }

  /** `n` reads that did not move the register forward, out of the first `i` steps. */
  ghost function Wraps(clock: Clock, i: nat): nat {
    if i == 0 then 0 else Wraps(clock, i - 1) + if Register(clock, i) <= Register(clock, i - 1) then 1 else 0
  }

  lemma WrapsStep(clock: Clock, i: nat)
    ensures Wraps(clock, i + 1) == Wraps(clock, i) + if Register(clock, i + 1) <= Register(clock, i) then 1 else 0
    ensures Register(clock, i) < WRAP && Register(clock, i + 1) < WRAP && Wraps(clock, 0) == 0
  {
  }

  lemma PeriodStep(before: nat, after: nat)
    requires before + 1 <= after <= before + WRAP
    ensures after - after % WRAP == before - before % WRAP + if after % WRAP <= before % WRAP then WRAP else 0
  {
  }

  /** Counting wraps of the register recovers the absolute time. */
  lemma {:induction false} TimeFromWraps(clock: Clock, i: nat)
    requires Ticking(clock, WRAP)
    ensures clock(i) == clock(0) - Register(clock, 0) + WRAP * Wraps(clock, i) + Register(clock, i)
  {
    if i > 0 {
      hide Wraps;
      TimeFromWraps(clock, i - 1);
      assert clock(i - 1) + 1 <= clock((i - 1) + 1) <= clock(i - 1) + WRAP;
      PeriodStep(clock(i - 1), clock(i));
      WrapsStep(clock, i - 1);
    }
  }

  /** The requested time has passed between the first read and read `i`. */
  ghost predicate Waited(clock: Clock, microseconds: nat, i: nat) {
    clock(0) <= clock(i) && (clock(i) - clock(0)) * 1000000 >= microseconds * FREQUENCY
  }

  /** 3.58 ticks per microsecond, rounded down, plus one tick, is long enough. */
  lemma EnoughTicks(clock: Clock, microseconds: nat, i: nat)
    requires clock(i) - clock(0) >= microseconds * 358 / 100 + 1
    ensures Waited(clock, microseconds, i)
  {
    var elapsed := clock(i) - clock(0);
    assert elapsed * 100 >= microseconds * 358;
  }

  /**
    The exits of the second loop are safe: the deadline's wraps have been counted by read `n`, and the
    register has passed the remaining ticks or has wrapped once more. Reads may be up to 2^24 ticks apart.
   */
  lemma ExitWaited(clock: Clock, microseconds: nat, limit: nat, n: nat, i: nat)
    requires Ticking(clock, WRAP) && Fits(microseconds, limit) && n <= i
    requires Wraps(clock, n) == Ticks(microseconds, Register(clock, 0), limit) / WRAP
    requires Register(clock, i) >= Ticks(microseconds, Register(clock, 0), limit) % WRAP || Wraps(clock, i) > Wraps(clock, n)
    ensures Waited(clock, microseconds, i)
  {
    TicksExact(microseconds, Register(clock, 0), limit);
    TimeFromWraps(clock, i);
    WrapsGrow(clock, n, i);
    EnoughTicks(clock, microseconds, i);
  }

  lemma {:induction false} WrapsGrow(clock: Clock, n: nat, i: nat)
    requires n <= i
    ensures Wraps(clock, n) <= Wraps(clock, i)
  {
    if n < i {
      WrapsGrow(clock, n, i - 1);
    }
  }

  // ---------------------------------------------------------------- when the loops end

  /** The first loop ends at read `n`: the last of `counts` wraps has been counted there. */
  ghost predicate Counted(clock: Clock, counts: nat, n: nat) {
    Wraps(clock, n) == counts && (n > 0 ==> Wraps(clock, n - 1) < counts)
  }

  /** The first loop ends at one read only. */
  lemma CountedOnce(clock: Clock, counts: nat, m: nat, n: nat)
    requires Counted(clock, counts, m) && Counted(clock, counts, n)
    ensures m == n
  {
    if m < n {
      WrapsGrow(clock, m, n - 1);
    } else if n < m {
      WrapsGrow(clock, n, m - 1);
    }
  }

  /** The guard of the second loop, entered at read `n`, holds after read `i`. */
  ghost predicate Waiting(clock: Clock, remaining: nat, n: nat, i: nat) {
    remaining > Register(clock, i) && (i > n ==> Register(clock, i - 1) <= Register(clock, i))
  }

  /** From read `m` on every read comes exactly 2^24 ticks after the one before. */
  ghost predicate InStep(clock: Clock, m: nat) {
    forall i :: m <= i ==> clock(i + 1) == clock(i) + WRAP
  }

  /** From `n` to `m` the second loop goes on, and from `m` on the register stands still. */
  ghost predicate StandsStill(clock: Clock, remaining: nat, n: nat, m: nat) {
    n <= m && (forall i :: n <= i <= m ==> Waiting(clock, remaining, n, i)) && InStep(clock, m)
  }

  lemma {:induction false} StillRegister(clock: Clock, m: nat, i: nat)
    requires InStep(clock, m) && m <= i
    ensures Register(clock, i) == Register(clock, m)
    decreases i
  {
    if m < i {
      StillRegister(clock, m, i - 1);
      assert clock((i - 1) + 1) == clock(i - 1) + WRAP;
      PlusPeriod(clock(i - 1));
    }
  }

  lemma PlusPeriod(x: nat)
    ensures (x + WRAP) % WRAP == x % WRAP
  {
  }

  /** A stride of up to 2^24 ticks that leaves the register where it was is exactly 2^24 ticks. */
  lemma SameRegister(clock: Clock, i: nat)
    requires Ticking(clock, WRAP) && Register(clock, i + 1) == Register(clock, i)
    ensures clock(i + 1) == clock(i) + WRAP
  {
    assert clock(i) + 1 <= clock(i + 1) <= clock(i) + WRAP;
    PeriodStep(clock(i), clock(i + 1));
  }

  /** A register that never falls back and stays below a bound stands still from some read on. */
  lemma {:induction false} SettlesAt(clock: Clock, remaining: nat, n: nat, i: nat) returns (m: nat)
    requires Ticking(clock, WRAP) && n <= i && forall k :: n <= k ==> Waiting(clock, remaining, n, k)
    ensures i <= m && InStep(clock, m)
    decreases remaining - Register(clock, i)
  {
    if InStep(clock, i) {
      m := i;
    } else {
      hide Waiting, Register, Ticking;
      var k :| i <= k && clock(k + 1) != clock(k) + WRAP;
      RegisterClimbs(clock, remaining, n, i, k + 1);
      RegisterClimbs(clock, remaining, n, i, k);
      WaitingMeans(clock, remaining, n, k + 1);
      if Register(clock, k + 1) == Register(clock, k) {
        SameRegister(clock, k);
      }
      m := SettlesAt(clock, remaining, n, k + 1);
    }
  }

  lemma WaitingMeans(clock: Clock, remaining: nat, n: nat, i: nat)
    requires Waiting(clock, remaining, n, i)
    ensures remaining > Register(clock, i) && (i > n ==> Register(clock, i - 1) <= Register(clock, i))
  {
  }

  lemma {:induction false} RegisterClimbs(clock: Clock, remaining: nat, n: nat, i: nat, k: nat)
    requires n <= i <= k && forall j :: n <= j ==> Waiting(clock, remaining, n, j)
    ensures Register(clock, i) <= Register(clock, k) < remaining
    decreases k
  {
    hide Waiting, Register;
    WaitingMeans(clock, remaining, n, k);
    if i < k {
      RegisterClimbs(clock, remaining, n, i, k - 1);
    }
  }

  /**
    The second loop goes on for ever exactly when, up to some read, the register rises without reaching the
    remaining ticks, and every read after that comes exactly 2^24 ticks after the one before.
   */
  lemma EndlessExactly(clock: Clock, remaining: nat, n: nat)
    requires Ticking(clock, WRAP)
    ensures (forall i :: n <= i ==> Waiting(clock, remaining, n, i)) <==> exists m :: StandsStill(clock, remaining, n, m)
  {
    if forall i :: n <= i ==> Waiting(clock, remaining, n, i) {
      var m := SettlesAt(clock, remaining, n, n);
      assert StandsStill(clock, remaining, n, m);
    }
    if m: nat :| StandsStill(clock, remaining, n, m) {
      forall i | n <= i
        ensures Waiting(clock, remaining, n, i)
      {
        if m < i {
          assert Waiting(clock, remaining, n, m);
          StillRegister(clock, m, i - 1);
          StillRegister(clock, m, i);
        }
      }
    }
  }

  /** The clocks on which a request never ends. */
  ghost predicate Endless(clock: Clock, microseconds: nat, limit: nat)
    requires limit > 0
  {
    var ticks := Ticks(microseconds, Register(clock, 0), limit);
    exists n, m :: Counted(clock, ticks / WRAP, n) && StandsStill(clock, ticks % WRAP, n, m)
  }

  /** On such a clock the second loop, wherever the first one ends, goes on for ever. */
  lemma EndlessNeverEnds(clock: Clock, microseconds: nat, limit: nat, n: nat, i: nat)
    requires limit > 0 && Ticking(clock, WRAP) && Endless(clock, microseconds, limit) && n <= i
    requires Counted(clock, Ticks(microseconds, Register(clock, 0), limit) / WRAP, n)
    ensures Waiting(clock, Ticks(microseconds, Register(clock, 0), limit) % WRAP, n, i)
  {
    hide Ticks, Counted, StandsStill, Register, Waiting, Ticking;
    var ticks := Ticks(microseconds, Register(clock, 0), limit);
    var n', m :| Counted(clock, ticks / WRAP, n') && StandsStill(clock, ticks % WRAP, n', m);
    CountedOnce(clock, ticks / WRAP, n, n');
    EndlessExactly(clock, ticks % WRAP, n);
  }

  /** A clock that never falls into step with the timer period ends every request. */
  lemma NotInStepEnds(clock: Clock, microseconds: nat, limit: nat)
    requires limit > 0 && forall m :: !InStep(clock, m)
    ensures !Endless(clock, microseconds, limit)
  {
    hide InStep, Ticks;
  }

  lemma SomeExit(clock: Clock, remaining: nat, n: nat) returns (last: nat)
    requires Ticking(clock, WRAP) && forall m :: !StandsStill(clock, remaining, n, m)
    ensures n <= last && !Waiting(clock, remaining, n, last)
  {
    EndlessExactly(clock, remaining, n);
    last :| n <= last && !Waiting(clock, remaining, n, last);
  }

  /** The second loop starts at the read that counts the last wrap, goes on up to read `i`, and ends there. */
  ghost predicate LastRead(clock: Clock, ticks: nat, i: nat) {
    exists n :: 0 <= n <= i && Counted(clock, ticks / WRAP, n) && !Waiting(clock, ticks % WRAP, n, i)
      && forall k :: n <= k < i ==> Waiting(clock, ticks % WRAP, n, k)
  }

  lemma WaitingIs(clock: Clock, remaining: nat, n: nat, i: nat)
    ensures Waiting(clock, remaining, n, i) <==> remaining > Register(clock, i) && (i > n ==> Register(clock, i - 1) <= Register(clock, i))
  {
  }

  lemma CountedMeans(clock: Clock, counts: nat, n: nat)
    requires Counted(clock, counts, n)
    ensures Wraps(clock, n) == counts
  {
  }

  lemma CountedStart(clock: Clock, counts: nat)
    ensures counts == 0 ==> Counted(clock, counts, 0)
  {
  }

  lemma CountedNext(clock: Clock, counts: nat, i: nat)
    ensures Wraps(clock, i) < counts && Wraps(clock, i + 1) == counts ==> Counted(clock, counts, i + 1)
  {
  }

  /**
    Stall: ends on every clock whose reads are up to 2^24 ticks apart, except those on which the second loop
    never ends, and returns only after at least the requested time has passed. `readCount` is the number of
    register reads.
   */
  method Stall(microseconds: nat, clock: Clock, limit: nat) returns (readCount: nat)
    requires Ticking(clock, WRAP) && Fits(microseconds, limit) && !Endless(clock, microseconds, limit)
    ensures microseconds == 0 ==> readCount == 0
    ensures microseconds > 0 ==> readCount > 0 && Waited(clock, microseconds, readCount - 1)
    ensures microseconds > 0 ==> LastRead(clock, Ticks(microseconds, Register(clock, 0), limit), readCount - 1)
  {
    hide Ticking, Ticks, Waited, Register, Wraps, StandsStill, Counted, Waiting;
    WrapsStep(clock, 0);
    if microseconds == 0 {
      return 0;
    }
    var i: nat := 0;
    var originalTick := Register(clock, i);
    var currentTick := originalTick;
    var ticks := Ticks(microseconds, originalTick, limit);
    var counts: nat := ticks / WRAP;
    var remainingTick := ticks % WRAP;
    CountedStart(clock, ticks / WRAP);
    while counts != 0
      invariant 0 <= counts && counts + Wraps(clock, i) == ticks / WRAP
      invariant counts == 0 ==> Counted(clock, ticks / WRAP, i)
      invariant originalTick == currentTick == Register(clock, i) < WRAP
      decreases counts, WRAP - originalTick
    {
      WrapsStep(clock, i);
      CountedNext(clock, ticks / WRAP, i);
      i := i + 1;
      currentTick := Register(clock, i);
      if currentTick <= originalTick {
        counts := counts - 1;
      }
      originalTick := currentTick;
    }
    ghost var n := i;
    ghost var last := SomeExit(clock, remainingTick, n);
    while remainingTick > currentTick && originalTick <= currentTick
      invariant n <= i <= last && currentTick == Register(clock, i)
      invariant if i == n then originalTick == currentTick else originalTick == Register(clock, i - 1)
      invariant originalTick > currentTick ==> Wraps(clock, i) > Wraps(clock, n)
      invariant forall k :: n <= k < i ==> Waiting(clock, remainingTick, n, k)
      decreases last - i
    {
      WaitingIs(clock, remainingTick, n, i);
      WrapsGrow(clock, n, i);
      WrapsStep(clock, i);
      originalTick := currentTick;
      i := i + 1;
      currentTick := Register(clock, i);
    }
    WaitingIs(clock, remainingTick, n, i);
    CountedMeans(clock, ticks / WRAP, n);
    ExitWaited(clock, microseconds, limit, n, i);
    readCount := i + 1;
  }

  // ---------------------------------------------------------------- a clock that never lets a request end

  /** A clock read exactly once every 2^24 ticks. */
  function Periodic(): Clock {
    (k: nat) => 0x100_0000 * k
  }

  lemma PeriodicStill()
    ensures Ticking(Periodic(), WRAP) && Register(Periodic(), 0) == 0
    ensures Counted(Periodic(), 0, 0) && StandsStill(Periodic(), 4, 0, 0)
  {
  }

  /** On that clock a request for one microsecond never ends. */
  lemma PeriodicEndless(limit: nat)
    requires Fits(1, limit)
    ensures Ticking(Periodic(), WRAP) && Endless(Periodic(), 1, limit)
  {
    hide Ticks, Counted, StandsStill, Ticking, Register, Periodic;
    PeriodicStill();
    TicksExact(1, 0, limit);
    var ticks := Ticks(1, Register(Periodic(), 0), limit);
    assert ticks == 4;
    assert Counted(Periodic(), ticks / WRAP, 0) && StandsStill(Periodic(), ticks % WRAP, 0, 0);
  }
}
