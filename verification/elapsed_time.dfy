/** The stopwatch display: elapsed milliseconds become whole minutes and the
    seconds within the minute. The clock reading is a parameter. */
module ElapsedTime {

  datatype Clock = Clock(minutes: int, seconds: int)

  function Abs(x: int): nat {
    if x >= 0 then x else -x
  }

  /** The quotient of JavaScript's division rounded toward zero. */
  function TruncQuotient(a: int, b: int): int
    requires b != 0
  {
    if a >= 0 then a / b else -((-a) / b)
  }

  /** JavaScript's `%`: what is left of the dividend after taking away the
      truncated quotient times the divisor, smaller in size than the divisor
      and with the sign of the dividend. */
  function JsRemainder(a: int, b: int): (r: int)
    requires b != 0
    ensures a == TruncQuotient(a, b) * b + r
    ensures Abs(r) < Abs(b)
    ensures a >= 0 ==> r >= 0
    ensures a < 0 ==> r <= 0
  {
    if a >= 0 then a % b
    else
      var q := (-a) / b;
      assert -a == q * b + (-a) % b;
      assert (-q) * b == -(q * b);
      -((-a) % b)
  }

  /** A nonzero multiple is at least as large as the divisor. */
  lemma MultipleAtLeast(k: int, b: int)
    requires k != 0 && b != 0
    ensures Abs(k * b) >= Abs(b)
  {
    var m: int, c: int := Abs(k), Abs(b);
    assert m * c == (m - 1) * c + c;
    assert (m - 1) * c >= 0;
    assert Abs(k * b) == m * c by {
      if k < 0 && b < 0 { assert k * b == m * c; }
      else if k < 0 { assert k * b == -(m * c); }
      else if b < 0 { assert k * b == -(m * c); }
    }
  }

  /** Any split of the dividend into a multiple of the divisor and a part
      smaller than the divisor with the dividend's sign is JavaScript's: the
      remainder and the truncated quotient are determined. */
  lemma JsRemainderUnique(a: int, b: int, q: int, r: int)
    requires b != 0
    requires a == q * b + r
    requires Abs(r) < Abs(b)
    requires a >= 0 ==> r >= 0
    requires a < 0 ==> r <= 0
    ensures r == JsRemainder(a, b) && q == TruncQuotient(a, b)
  {
    var j, p := JsRemainder(a, b), TruncQuotient(a, b);
    assert (q - p) * b == q * b - p * b;
    assert (q - p) * b == j - r;
    assert Abs(j - r) < Abs(b);
    if q != p {
      MultipleAtLeast(q - p, b);
    }
  }

  /** `Math.floor(a / b)` for a positive divisor. */
  function FloorDiv(a: int, b: int): (q: int)
    requires b > 0
    ensures q * b <= a < q * b + b
  {
    a / b
  }

  /** What `updateTime` shows for `elapsedMs` milliseconds since the start. */
  function TimeDisplay(elapsedMs: int): (c: Clock)
    ensures elapsedMs >= 0 ==> c.minutes >= 0 && 0 <= c.seconds < 60
    ensures elapsedMs >= 0 ==> c.minutes * 60 + c.seconds == FloorDiv(elapsedMs, 1000)
  {
    var seconds := FloorDiv(elapsedMs, 1000);
    var minutes := FloorDiv(seconds, 60);
    Clock(minutes, JsRemainder(seconds, 60))
  }

  /** Minutes and seconds-in-minute are determined by their total. */
  lemma SplitDetermined(m1: int, s1: int, m2: int, s2: int)
    requires 0 <= s1 < 60 && 0 <= s2 < 60
    ensures m1 * 60 + s1 == m2 * 60 + s2 ==> m1 == m2 && s1 == s2
  {
    if m1 < m2 {
      assert m1 * 60 + s1 < (m1 + 1) * 60 <= m2 * 60 + s2;
    } else if m2 < m1 {
      assert m2 * 60 + s2 < (m2 + 1) * 60 <= m1 * 60 + s1;
    }
  }

  /** The display is the unique (minutes, seconds-in-minute) pair for the
      whole seconds elapsed: any other such pair with 0 <= s < 60 equals it. */
  lemma TimeDisplayUnique(elapsedMs: int, m: int, s: int)
    requires elapsedMs >= 0 && 0 <= s < 60
    requires m * 60 + s == elapsedMs / 1000
    ensures TimeDisplay(elapsedMs) == Clock(m, s)
  {
    var c := TimeDisplay(elapsedMs);
    SplitDetermined(m, s, c.minutes, c.seconds);
  }

  /** The display advances by whole seconds: one more second elapsed ticks
      the seconds field, carrying into the minutes at 60. */
  lemma TimeDisplayTick(elapsedMs: int)
    requires elapsedMs >= 0
    ensures var c, d := TimeDisplay(elapsedMs), TimeDisplay(elapsedMs + 1000);
      if c.seconds == 59 then d == Clock(c.minutes + 1, 0) else d == Clock(c.minutes, c.seconds + 1)
  {
    var c := TimeDisplay(elapsedMs);
    assert (elapsedMs + 1000) / 1000 == elapsedMs / 1000 + 1;
    if c.seconds == 59 {
      TimeDisplayUnique(elapsedMs + 1000, c.minutes + 1, 0);
    } else {
      TimeDisplayUnique(elapsedMs + 1000, c.minutes, c.seconds + 1);
    }
  }

  /** Euclidean division is pinned by any split with a remainder in 0..59. */
  lemma DivBySixty(s: int, k: int, t: int)
    requires s == k * 60 + t && 0 <= t < 60
    ensures s / 60 == k
  {
  }

  /** For every elapsed time, the display's total in seconds is the whole
      seconds elapsed, except that a negative count of whole seconds that is
      not a multiple of 60 shows a full minute less: `Math.floor` rounds the
      minutes down while `%` keeps the seconds negative. */
  lemma TimeDisplayTotal(elapsedMs: int)
    ensures var s, c := FloorDiv(elapsedMs, 1000), TimeDisplay(elapsedMs);
      c.minutes * 60 + c.seconds == if s >= 0 || s % 60 == 0 then s else s - 60
  {
    var s := FloorDiv(elapsedMs, 1000);
    var c := TimeDisplay(elapsedMs);
    if s < 0 {
      var m := -s;
      var q, rem := m / 60, m % 60;
      assert m == q * 60 + rem;
      assert c.seconds == -rem;
      if rem == 0 {
        DivBySixty(s, -q, 0);
      } else {
        DivBySixty(s, -q - 1, 60 - rem);
      }
    }
  }

  /** With a clock that went backwards the two fields disagree in rounding:
      one second before the start shows "-1m -1s". */
  lemma NegativeElapsedShowsBothNegative()
    ensures TimeDisplay(-1000) == Clock(-1, -1)
  {
  }
}
