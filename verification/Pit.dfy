/** The timer tick and the clock computed from it in exact integer arithmetic. */
module Pit {
  import opened Bits

  const PIT_INPUT_HZ: nat := 1_193_182
  const DIVISOR: nat := 1193

  /** Microseconds for a tick count, rounded down: the `u128` expression of `micros_since_boot`. */
  function Micros(ticks: nat): nat {
    ticks * 1_000_000 * DIVISOR / PIT_INPUT_HZ
  }

  /** The error never accumulates: the result is the exact rational time, less than one microsecond too low. */
  lemma MicrosExact(ticks: nat)
    ensures Micros(ticks) * 1_193_182 <= ticks * 1193 * 1_000_000 < (Micros(ticks) + 1) * 1_193_182
  {
  }

  /** The clock never goes back: each tick adds 999 or 1000 microseconds, on average 1193000000 / 1193182. */
  lemma MicrosStep(ticks: nat)
    ensures Micros(ticks) + 999 <= Micros(ticks + 1) <= Micros(ticks) + 1000
  {
    MicrosExact(ticks);
    MicrosExact(ticks + 1);
  }

  /** For 64-bit tick counts the `u128` product cannot overflow, and the `u64` result is exact up to a known tick. */
  lemma MicrosFit(ticks: u64)
    ensures ticks * 1_000_000 * DIVISOR < U64_SIZE * U64_SIZE
    ensures Micros(ticks) < U64_SIZE <==> ticks * 1_193_000_000 < U64_SIZE * 1_193_182
  {
    MicrosExact(ticks);
  }

  /** The clock never drifts by more than the ticks themselves: `n` ticks add between 999 and 1000 microseconds each. */
  lemma {:induction false} MicrosRun(ticks: nat, n: nat)
    ensures Micros(ticks) + 999 * n <= Micros(ticks + n) <= Micros(ticks) + 1000 * n
  {
    hide Micros;
    if n > 0 {
      MicrosRun(ticks, n - 1);
      MicrosStep(ticks + n - 1);
    }
  }

  /** The first tick count at which the 64-bit result is no longer the exact one. */
  const FIRST_TRUNCATED: nat := 18_449_558_245_898_500

  lemma MicrosTruncates()
    ensures Micros(FIRST_TRUNCATED - 1) < U64_SIZE <= Micros(FIRST_TRUNCATED)
    ensures Micros(FIRST_TRUNCATED) % U64_SIZE != Micros(FIRST_TRUNCATED)
  {
    MicrosExact(FIRST_TRUNCATED);
  }

  /** `us` is the exact time less a multiple of 2^64 microseconds. */
  ghost predicate Wrapped(ticks: nat, us: nat, wraps: nat) {
    var exact := wraps * U64_SIZE + us;
    exact * PIT_INPUT_HZ <= ticks * DIVISOR * 1_000_000 < (exact + 1) * PIT_INPUT_HZ
  }

  lemma Unwrapped(ticks: nat, us: nat, wraps: nat)
    requires Micros(ticks) == wraps * U64_SIZE + us
    ensures Wrapped(ticks, us, wraps)
  {
    MicrosExact(ticks);
  }

  /** Up to that tick the result fits, and from it on it does not. */
  lemma ExactBelow(ticks: nat)
    ensures Micros(ticks) < U64_SIZE <==> ticks < FIRST_TRUNCATED
  {
    MicrosExact(ticks);
    MicrosTruncates();
  }

  datatype Uptime = Uptime(days: nat, hours: nat, minutes: nat, seconds: nat)

  function UptimeOf(micros: nat): Uptime {
    var total := micros / 1_000_000;
    Uptime(total / 86400 % 0x1_0000_0000, total % 86400 / 3600, total % 3600 / 60, total % 60)
  }

  /** The fields recompose to the whole seconds, each in its range, and `days` is never truncated. */
  lemma UptimeRecomposes(micros: u64)
    ensures var u := UptimeOf(micros);
            && u.hours < 24 && u.minutes < 60 && u.seconds < 60
            && ((u.days * 24 + u.hours) * 60 + u.minutes) * 60 + u.seconds == micros / 1_000_000
  {
    var total := micros / 1_000_000;
    assert total / 86400 < 0x1_0000_0000;
    HoursAndMinutes(total);
    HoursAndMinutes(total % 86400);
    SameHour(total);
  }

  lemma HoursAndMinutes(t: nat)
    ensures t == t / 3600 * 3600 + t % 3600 / 60 * 60 + t % 60
  {
    var r := t % 3600;
    assert t == t / 3600 * 3600 + r;
    assert t % 60 == r % 60;
  }

  lemma SameHour(t: nat)
    ensures t % 86400 % 3600 == t % 3600 && t % 86400 % 60 == t % 60
  {
    var d := t / 86400;
    assert t == d * 24 * 3600 + t % 86400;
  }

  class Pit {
    var ticks: u64
    var enabled: bool

    constructor ()
      ensures ticks == 0 && !enabled
    {
      ticks, enabled := 0, false;
    }

    method Init()
      modifies this`enabled
      ensures enabled
    {
      enabled := true;
    }

    /** The IRQ0 tick: an atomic increment, counted only after `init`. */
    method Tick()
      modifies this`ticks
      ensures ticks == if enabled then (old(ticks) + 1) % U64_SIZE else old(ticks)
    {
      if enabled {
        ticks := (ticks + 1) % U64_SIZE;
      }
    }

    method MicrosSinceBoot() returns (us: u64)
      ensures !enabled ==> us == 0
      ensures enabled && ticks < FIRST_TRUNCATED ==>
                us * PIT_INPUT_HZ <= ticks * DIVISOR * 1_000_000 < (us + 1) * PIT_INPUT_HZ
      ensures enabled ==> exists wraps: nat :: Wrapped(ticks, us, wraps)
    {
      if !enabled {
        return 0;
      }
      MicrosExact(ticks);
      var wide := ticks * 1_000_000 * DIVISOR / PIT_INPUT_HZ;
      us := wide % U64_SIZE;
      ExactBelow(ticks);
      Unwrapped(ticks, us, wide / U64_SIZE);
    }
  }

  /** A clock read `n` interrupts after `init`: within a microsecond of the exact time, up to the tick where it truncates. */
  method ClockAfter(n: nat) returns (us: u64)
    ensures n < FIRST_TRUNCATED ==> us * PIT_INPUT_HZ <= n * DIVISOR * 1_000_000 < (us + 1) * PIT_INPUT_HZ
  {
    var pit := new Pit();
    pit.Init();
    for i := 0 to n
      invariant pit.enabled && fresh(pit) && pit.ticks == i % U64_SIZE
    {
      pit.Tick();
    }
    us := pit.MicrosSinceBoot();
  }
}
