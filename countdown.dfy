/** The offer countdown on the pricing section: every second it turns the
    milliseconds left until a fixed target instant into days, hours, minutes
    and seconds, and stores them only while the target is still ahead. */
module Countdown {

  const MsPerSecond: int := 1000
  const MsPerMinute: int := 60 * MsPerSecond
  const MsPerHour: int := 60 * MsPerMinute
  const MsPerDay: int := 24 * MsPerHour

  datatype TimeLeft = TimeLeft(days: int, hours: int, minutes: int, seconds: int)

  /** What the timer shows before its first update. */
  const Zero: TimeLeft := TimeLeft(0, 0, 0, 0)

  predicate InRange(t: TimeLeft) {
    t.days >= 0 && 0 <= t.hours < 24 && 0 <= t.minutes < 60 && 0 <= t.seconds < 60
  }

  /** The span of time a reading stands for, in milliseconds. */
  function Millis(t: TimeLeft): int {
    t.days * MsPerDay + t.hours * MsPerHour + t.minutes * MsPerMinute + t.seconds * MsPerSecond
  }

  /** The floor/mod formulas. For positive operands JavaScript's `%` and
      Math.floor of `/` agree with `%` and `/` here. */
  function Split(distance: int): TimeLeft {
    TimeLeft(
      distance / MsPerDay,
      (distance % MsPerDay) / MsPerHour,
      (distance % MsPerHour) / MsPerMinute,
      (distance % MsPerMinute) / MsPerSecond)
  }

  /** The decomposition the timer stores for a positive distance. */
  function Decompose(distance: int): (t: TimeLeft)
    requires distance > 0
    ensures InRange(t)
    ensures Millis(t) <= distance < Millis(t) + MsPerSecond
  {
    DecomposeTruncates(distance);
    Split(distance)
  }

  /** The decomposition drops exactly the milliseconds below a whole second. */
  lemma DecomposeTruncates(distance: int)
    requires distance > 0
    ensures Millis(Split(distance)) == distance - distance % MsPerSecond
  {
    var r := distance % MsPerDay;
    assert distance == distance / MsPerDay * MsPerDay + r;
    assert r % MsPerHour == distance % MsPerHour by {
      ModOfMultiple(distance, MsPerDay / MsPerHour, MsPerHour);
    }
    assert r == r / MsPerHour * MsPerHour + distance % MsPerHour;
    var rh := distance % MsPerHour;
    assert rh % MsPerMinute == distance % MsPerMinute by {
      ModOfMultiple(distance, MsPerHour / MsPerMinute, MsPerMinute);
    }
    assert rh == rh / MsPerMinute * MsPerMinute + distance % MsPerMinute;
    var rm := distance % MsPerMinute;
    assert rm % MsPerSecond == distance % MsPerSecond by {
      ModOfMultiple(distance, MsPerMinute / MsPerSecond, MsPerSecond);
    }
    assert rm == rm / MsPerSecond * MsPerSecond + distance % MsPerSecond;
  }

  /** Reducing modulo a multiple of b first does not change the remainder mod b. */
  lemma ModOfMultiple(x: int, k: int, b: int)
    requires k > 0 && b > 0
    ensures (x % (k * b)) % b == x % b
  {
    var q := x / (k * b);
    var r := x % (k * b);
    assert x == q * (k * b) + r;
    assert x == (q * k) * b + r;
    var s := r / b;
    assert r == s * b + r % b;
    assert x == (q * k + s) * b + r % b;
    ModUnique(x, b, q * k + s, r % b);
  }

  lemma ModUnique(x: int, b: int, q: int, r: int)
    requires b > 0 && 0 <= r < b && x == q * b + r
    ensures x % b == r
  {
    var q' := x / b;
    assert (q - q') * b == x % b - r;
    if q > q' {
      MulAtLeast(q - q', b);
    } else if q < q' {
      MulAtLeast(q' - q, b);
    }
  }

  lemma MulAtLeast(a: int, b: int)
    requires a >= 1 && b > 0
    ensures a * b >= b
  {
  }

  /** A closer target never shows more time left. */
  lemma DecomposeMonotone(d1: int, d2: int)
    requires 0 < d1 <= d2
    ensures Millis(Decompose(d1)) <= Millis(Decompose(d2))
  {
    DecomposeTruncates(d1);
    DecomposeTruncates(d2);
    assert d1 - d1 % MsPerSecond == d1 / MsPerSecond * MsPerSecond;
    assert d2 - d2 % MsPerSecond == d2 / MsPerSecond * MsPerSecond;
    assert d1 / MsPerSecond <= d2 / MsPerSecond;
  }

  /** Every in-range reading is what the decomposition shows for each distance
      in the second it stands for. */
  lemma DecomposeInverse(t: TimeLeft, ms: int)
    requires InRange(t) && 0 <= ms < MsPerSecond && Millis(t) + ms > 0
    ensures Decompose(Millis(t) + ms) == t
  {
    var x := Millis(t) + ms;
    var below := t.hours * MsPerHour + t.minutes * MsPerMinute + t.seconds * MsPerSecond + ms;
    assert 0 <= below < MsPerDay;
    ModUnique(x, MsPerDay, t.days, below);
  }

  /** The timer component: the target instant is fixed on mount and `timeLeft`
      is its state. */
  class CountdownTimer {
    const target: int
    var timeLeft: TimeLeft

    ghost predicate Valid()
      reads this
    {
      InRange(timeLeft)
    }

    /** `target` is the instant fourteen calendar days after mounting, in
        milliseconds since the epoch, as the wall clock reports it. */
    constructor (target: int)
      ensures this.target == target && timeLeft == Zero && Valid()
    {
      this.target := target;
      timeLeft := Zero;
    }

    /** One interval callback, reading the clock as `now`. */
    method Tick(now: int)
      requires Valid()
      modifies this
      ensures Valid()
      ensures timeLeft == if target - now > 0 then Decompose(target - now) else old(timeLeft)
    {
      var distance := target - now;
      if distance > 0 {
        timeLeft := Decompose(distance);
      }
    }
  }
}
