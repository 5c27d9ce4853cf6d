/** One tick of the countdown (`updateCountdown` in script.js): the remaining
    time split into days, hours, minutes and seconds, each shown as a padded
    decimal field; the progress percentage between the two dates; and the
    test that ends the countdown.

    Timestamps are integer milliseconds. JavaScript's arithmetic is written
    out: `Math.floor(a / b)` is the floor of the exact quotient, and `a % b`
    is the remainder that truncates toward zero (its sign follows `a`), which
    differs from Dafny's `%` when `a` is negative. */
module Countdown {
  import NumberText

  const MsPerSecond: int := 1000
  const MsPerMinute: int := 1000 * 60
  const MsPerHour: int := 1000 * 60 * 60
  const MsPerDay: int := 1000 * 60 * 60 * 24

  /** The two fixed instants of the countdown: `separationDate` and
      `reunionDate`, in milliseconds since the epoch. */
  datatype Window = Window(separation: int, reunion: int) {
    predicate Valid() {
      separation < reunion
    }

    /** `totalTimeApart`: the length of the window, positive for a valid one. */
    function TotalTimeApart(): (d: int)
      ensures separation + d == reunion
      ensures Valid() ==> d > 0
    {
      reunion - separation
    }

    /** `timeLeft` at instant `now`: negative exactly when `now` is past the
        reunion instant. */
    function TimeLeft(now: int): (t: int)
      ensures now + t == reunion
      ensures t < 0 <==> now > reunion
    {
      reunion - now
    }
  }

  /** `Math.floor(a / b)`: the floor of the exact quotient, the one integer
      `q` with `q * b <= a < (q + 1) * b`. */
  function FloorDiv(a: int, b: int): (q: int)
    requires b > 0
    ensures q * b <= a < q * b + b
  {
    var d, m := a / b, a % b;
    assert a == d * b + m && 0 <= m < b;
    assert a as real / b as real == d as real + m as real / b as real;
    assert 0.0 <= m as real / b as real < 1.0;
    (a as real / b as real).Floor
  }

  /** JavaScript's `a % b` for `b > 0`: truncates toward zero, so the result
      has the sign of `a`. */
  function TruncRem(a: int, b: int): (r: int)
    requires b > 0
    ensures a >= 0 ==> 0 <= r < b
    ensures a < 0 ==> -b < r <= 0
    ensures (a - r) % b == 0
  {
    if a >= 0 then
      assert (a - a % b) % b == 0 by {
        DivModUnique(a - a % b, b, a / b, 0);
      }
      a % b
    else
      assert (a + (-a) % b) % b == 0 by {
        var q := (-a) / b;
        assert a + (-a) % b == (-q) * b;
        DivModUnique(a + (-a) % b, b, -q, 0);
      }
      -((-a) % b)
  }

  /** The four display units of one tick. */
  datatype Units = Units(days: int, hours: int, minutes: int, seconds: int)

  /** The milliseconds a set of units stands for. */
  function Millis(u: Units): int {
    u.days * MsPerDay + u.hours * MsPerHour + u.minutes * MsPerMinute + u.seconds * MsPerSecond
  }

  /** Units a display can show for a non-negative remaining time. */
  predicate InRange(u: Units) {
    u.days >= 0 && 0 <= u.hours < 24 && 0 <= u.minutes < 60 && 0 <= u.seconds < 60
  }

  /** The decomposition of `timeLeft` as script.js writes it: floor division of
      the whole for days, and of a truncating remainder for each smaller unit. */
  function Decompose(timeLeft: int): (u: Units)
    ensures timeLeft >= 0 ==> InRange(u)
    ensures timeLeft >= 0 ==> Millis(u) + timeLeft % MsPerSecond == timeLeft
    ensures timeLeft < 0 ==>
      u.days < 0 && -24 <= u.hours <= 0 && -60 <= u.minutes <= 0 && -60 <= u.seconds <= 0
  {
    var days := FloorDiv(timeLeft, MsPerDay);
    var hours := FloorDiv(TruncRem(timeLeft, MsPerDay), MsPerHour);
    var minutes := FloorDiv(TruncRem(timeLeft, MsPerHour), MsPerMinute);
    var seconds := FloorDiv(TruncRem(timeLeft, MsPerMinute), MsPerSecond);
    var u := Units(days, hours, minutes, seconds);
    if timeLeft >= 0 then
      DecomposeNonNegative(timeLeft);
      u
    else
      DecomposeNegative(timeLeft);
      u
  }

  /** For a negative time every unit is zero or negative: days is at most -1
      (floor), the other units are the floors of truncated, non-positive
      remainders. */
  lemma DecomposeNegative(t: int)
    requires t < 0
    ensures FloorDiv(t, MsPerDay) < 0
    ensures -24 <= FloorDiv(TruncRem(t, MsPerDay), MsPerHour) <= 0
    ensures -60 <= FloorDiv(TruncRem(t, MsPerHour), MsPerMinute) <= 0
    ensures -60 <= FloorDiv(TruncRem(t, MsPerMinute), MsPerSecond) <= 0
  {
    FloorDivIsDiv(t, MsPerDay);
    FloorDivIsDiv(TruncRem(t, MsPerDay), MsPerHour);
    FloorDivIsDiv(TruncRem(t, MsPerHour), MsPerMinute);
    FloorDivIsDiv(TruncRem(t, MsPerMinute), MsPerSecond);
  }

  /** For a non-negative time the JavaScript operations agree with Euclidean
      ones, and the chained remainders nest: `t % day % hour == t % hour`. */
  lemma DecomposeNonNegative(t: int)
    requires t >= 0
    ensures FloorDiv(t, MsPerDay) == t / MsPerDay
    ensures FloorDiv(TruncRem(t, MsPerDay), MsPerHour) == (t % MsPerDay) / MsPerHour < 24
    ensures FloorDiv(TruncRem(t, MsPerHour), MsPerMinute) == (t % MsPerHour) / MsPerMinute < 60
    ensures FloorDiv(TruncRem(t, MsPerMinute), MsPerSecond) == (t % MsPerMinute) / MsPerSecond < 60
    ensures t / MsPerDay * MsPerDay + (t % MsPerDay) / MsPerHour * MsPerHour
            + (t % MsPerHour) / MsPerMinute * MsPerMinute
            + (t % MsPerMinute) / MsPerSecond * MsPerSecond + t % MsPerSecond == t
  {
    FloorDivIsDiv(t, MsPerDay);
    FloorDivIsDiv(t % MsPerDay, MsPerHour);
    FloorDivIsDiv(t % MsPerHour, MsPerMinute);
    FloorDivIsDiv(t % MsPerMinute, MsPerSecond);
    RemNests(t, MsPerHour, 24);
    RemNests(t, MsPerMinute, 60);
    RemNests(t, MsPerSecond, 60);
  }

  /** `Math.floor(a / b)` is Dafny's `a / b` when `b > 0`. */
  lemma FloorDivIsDiv(a: int, b: int)
    requires b > 0
    ensures FloorDiv(a, b) == a / b
  {
    var q := FloorDiv(a, b);
    DivModUnique(a, b, q, a - q * b);
  }

  /** A multiple of `b` strictly between `-b` and `b` is zero. */
  lemma MulZero(d: int, b: int)
    requires b > 0 && -b < d * b < b
    ensures d == 0
  {
  }

  /** Quotient and remainder are determined by `a == q * b + r`, `0 <= r < b`. */
  lemma DivModUnique(a: int, b: int, q: int, r: int)
    requires b > 0 && 0 <= r < b && a == q * b + r
    ensures a / b == q && a % b == r
  {
    var d := q - a / b;
    assert d * b == a % b - r;
    MulZero(d, b);
  }

  /** Taking a remainder by a multiple `m * k` first does not change the
      remainder by `m`; the quotient of that remainder by `m` is below `k`;
      and the remainder splits into its `m`-quotient and `m`-remainder. */
  lemma RemNests(t: int, m: int, k: int)
    requires t >= 0 && m > 0 && k > 0
    ensures t % (m * k) % m == t % m
    ensures (t % (m * k)) / m < k
    ensures t % (m * k) == (t % (m * k)) / m * m + t % m
  {
    var q1, r1 := t / (m * k), t % (m * k);
    var q2, r2 := r1 / m, r1 % m;
    assert t == (q1 * k + q2) * m + r2;
    DivModUnique(t, m, q1 * k + q2, r2);
    assert (q2 - k) * m == r1 - m * k - r2;
  }

  /** For a non-negative time the decomposition is plain Euclidean division. */
  lemma DecomposeEuclidean(t: int)
    requires t >= 0
    ensures Decompose(t) == Units(t / MsPerDay, (t % MsPerDay) / MsPerHour,
                                  (t % MsPerHour) / MsPerMinute, (t % MsPerMinute) / MsPerSecond)
  {
    DecomposeNonNegative(t);
  }

  /** Converse of the round trip: units in range, plus fewer than a thousand
      milliseconds, decompose back into the same units. With the round trip
      in `Decompose`, the decomposition is a bijection between non-negative
      whole seconds and in-range units. */
  lemma DecomposeMillis(u: Units, ms: int)
    requires InRange(u) && 0 <= ms < MsPerSecond
    ensures Decompose(Millis(u) + ms) == u
  {
    var t := Millis(u) + ms;
    var o := u.seconds * MsPerSecond + ms;
    var n := u.minutes * MsPerMinute + o;
    var m := u.hours * MsPerHour + n;
    assert t / MsPerDay == u.days && t % MsPerDay == m by {
      assert t == u.days * MsPerDay + m;
      DivModUnique(t, MsPerDay, u.days, m);
    }
    assert m / MsPerHour == u.hours by {
      DivModUnique(m, MsPerHour, u.hours, n);
    }
    assert t % MsPerHour == n by {
      assert t == (u.days * 24 + u.hours) * MsPerHour + n;
      DivModUnique(t, MsPerHour, u.days * 24 + u.hours, n);
    }
    assert n / MsPerMinute == u.minutes by {
      DivModUnique(n, MsPerMinute, u.minutes, o);
    }
    assert t % MsPerMinute == o by {
      assert t == (u.days * 1440 + u.hours * 60 + u.minutes) * MsPerMinute + o;
      DivModUnique(t, MsPerMinute, u.days * 1440 + u.hours * 60 + u.minutes, o);
    }
    assert o / MsPerSecond == u.seconds by {
      DivModUnique(o, MsPerSecond, u.seconds, ms);
    }
    DecomposeEuclidean(t);
  }

  /** `totalTimeApart`'s share of the window elapsed at `now`, as a percentage
      clamped to [0, 100] (`Math.min(100, Math.max(0, ...))`). Computed over
      the reals: the floating-point rounding of JavaScript is not modelled. */
  function Progress(w: Window, now: int): (p: real)
    requires w.Valid()
    ensures 0.0 <= p <= 100.0
    ensures now <= w.separation ==> p == 0.0
    ensures now >= w.reunion ==> p == 100.0
    ensures w.separation <= now <= w.reunion ==>
      p * (w.TotalTimeApart() as real) == (now - w.separation) as real * 100.0
  {
    var ratio := (now - w.separation) as real / w.TotalTimeApart() as real * 100.0;
    RatioBounds(now - w.separation, w.TotalTimeApart());
    Min(100.0, Max(0.0, ratio))
  }

  function Min(a: real, b: real): real {
    if a <= b then a else b
  }

  function Max(a: real, b: real): real {
    if a >= b then a else b
  }

  lemma RatioBounds(e: int, total: int)
    requires total > 0
    ensures e <= 0 ==> e as real / total as real * 100.0 <= 0.0
    ensures e >= total ==> e as real / total as real * 100.0 >= 100.0
    ensures e as real / total as real * 100.0 * total as real == e as real * 100.0
  {
  }

  /** Progress never goes backwards as the clock advances. */
  lemma ProgressMonotone(w: Window, now1: int, now2: int)
    requires w.Valid() && now1 <= now2
    ensures Progress(w, now1) <= Progress(w, now2)
  {
    var t := w.TotalTimeApart() as real;
    var e1, e2 := (now1 - w.separation) as real, (now2 - w.separation) as real;
    assert e1 / t <= e2 / t by {
      assert e1 / t * t <= e2 / t * t;
    }
  }

  /** Halfway through a ten-day window the bar stands at 50%. */
  lemma ProgressHalfway(start: int)
    ensures Progress(Window(start, start + 10 * MsPerDay), start + 5 * MsPerDay) == 50.0
  {
    var w := Window(start, start + 10 * MsPerDay);
    assert (5 * MsPerDay) as real / (10 * MsPerDay) as real == 0.5;
  }

  /** The markup written into the countdown container's `innerHTML` once the
      countdown is over: a heading with the text and a red heart (U+2764 with
      emoji presentation selector U+FE0F). */
  const CompletionMessage: string := "<h1>Together Again! \U{2764}\U{FE0F}</h1>"

  /** What one tick writes to the display: the four padded unit fields and the
      progress percentage (the bar's width; its text label is the same number
      rounded to one decimal by `toFixed(1)`, which is not modelled). */
  datatype Display = Display(days: string, hours: string, minutes: string, seconds: string, progress: real)

  /** How a tick ends. `Counting`: the interval keeps running. `Finished`: the
      interval is cleared and the container shows `message`. `ReferenceError`:
      the tick throws before it can clear the interval or show the message. */
  datatype Status = Counting | Finished(message: string) | ReferenceError

  datatype TickResult = TickResult(display: Display, status: Status)

  /** The display writes of one tick at instant `now`: every field at least
      two characters wide, and the bar at the clamped progress. */
  function Show(w: Window, now: int): (d: Display)
    requires w.Valid()
    ensures d.progress == Progress(w, now)
    ensures |d.days| >= 2 && |d.hours| >= 2 && |d.minutes| >= 2 && |d.seconds| >= 2
  {
    var u := Decompose(w.TimeLeft(now));
    NumberText.TwoDigitShape(u.days);
    NumberText.TwoDigitShape(u.hours);
    NumberText.TwoDigitShape(u.minutes);
    NumberText.TwoDigitShape(u.seconds);
    Display(NumberText.TwoDigit(u.days), NumberText.TwoDigit(u.hours),
            NumberText.TwoDigit(u.minutes), NumberText.TwoDigit(u.seconds), Progress(w, now))
  }

  /** Up to and including the reunion instant the four fields hold digits;
      each reads back as its own unit of the remaining time (so each of hours,
      minutes and seconds is below its radix), hours, minutes and seconds are
      exactly two characters wide, and together they give back the remaining
      time to the whole second. */
  lemma ShowReadsBack(w: Window, now: int)
    requires w.Valid() && now <= w.reunion
    ensures var d := Show(w, now); var u := Decompose(w.TimeLeft(now));
      NumberText.AllDigits(d.days) && NumberText.AllDigits(d.hours) &&
      NumberText.AllDigits(d.minutes) && NumberText.AllDigits(d.seconds) &&
      NumberText.Value(d.days) == u.days && NumberText.Value(d.hours) == u.hours &&
      NumberText.Value(d.minutes) == u.minutes && NumberText.Value(d.seconds) == u.seconds &&
      NumberText.Value(d.hours) < 24 && NumberText.Value(d.minutes) < 60 &&
      NumberText.Value(d.seconds) < 60 &&
      |d.hours| == 2 && |d.minutes| == 2 && |d.seconds| == 2 &&
      NumberText.Value(d.days) * MsPerDay + NumberText.Value(d.hours) * MsPerHour
        + NumberText.Value(d.minutes) * MsPerMinute + NumberText.Value(d.seconds) * MsPerSecond
        + w.TimeLeft(now) % MsPerSecond == w.TimeLeft(now)
  {
    var u := Decompose(w.TimeLeft(now));
    NumberText.TwoDigitWidth(u.hours);
    NumberText.TwoDigitWidth(u.minutes);
    NumberText.TwoDigitWidth(u.seconds);
  }

  /** `updateCountdown` as written: the display is written first; then, once
      `timeLeft < 0`, `clearInterval(countdownInterval)` names a constant that
      is local to the `window.onload` handler, so the tick throws a
      ReferenceError and never reaches the completion message. */
  function TickAsWritten(w: Window, now: int): (r: TickResult)
    requires w.Valid()
    ensures r.display == Show(w, now)
    ensures r.status.ReferenceError? <==> now > w.reunion
    ensures !r.status.Finished?
  {
    TickResult(Show(w, now), if w.TimeLeft(now) < 0 then ReferenceError else Counting)
  }

  /** A tick as written that falls within the first second after the
      reunion instant (the interval's nominal period), when
      `-1000 <= timeLeft < 0`: every field shows "-1", the bar is full, and
      the tick throws instead of stopping. A later tick shows other negative
      units, within the bounds `Decompose` states. */
  lemma LastTickAsWritten(w: Window, now: int)
    requires w.Valid() && w.reunion < now <= w.reunion + MsPerSecond
    ensures TickAsWritten(w, now) ==
      TickResult(Display("-1", "-1", "-1", "-1", 100.0), ReferenceError)
  {
    var t := w.TimeLeft(now);
    assert Decompose(t) == Units(-1, -1, -1, -1) by {
      UnderASecondNegative(t, MsPerDay);
      UnderASecondNegative(t, MsPerHour);
      UnderASecondNegative(t, MsPerMinute);
      UnderASecondNegative(t, MsPerSecond);
    }
    assert NumberText.TwoDigit(-1) == "-1" by {
      assert NumberText.NatDecimal(1) == "1";
    }
  }

  /** A time less than a second negative keeps its value under JavaScript's
      `%` by any longer unit, and its floor quotient by a second or longer is
      -1. */
  lemma UnderASecondNegative(t: int, b: int)
    requires -MsPerSecond <= t < 0 && b >= MsPerSecond
    ensures FloorDiv(t, b) == -1
    ensures b > MsPerSecond ==> TruncRem(t, b) == t
  {
    FloorDivIsDiv(t, b);
    DivModUnique(t, b, -1, t + b);
    if b > MsPerSecond {
      DivModUnique(-t, b, 0, -t);
    }
  }

  /** `updateCountdown` with the interval handle in scope: the tick that finds
      `timeLeft < 0` stops the countdown and shows the completion message,
      and that happens exactly when `now` is past the reunion instant. */
  function Tick(w: Window, now: int): (r: TickResult)
    requires w.Valid()
    ensures r.display == TickAsWritten(w, now).display
    ensures r.status.Finished? <==> now > w.reunion
    ensures r.status.Finished? ==> r.status.message == CompletionMessage
    ensures r.status.Counting? <==> TickAsWritten(w, now).status.Counting?
  {
    TickResult(Show(w, now), if w.TimeLeft(now) < 0 then Finished(CompletionMessage) else Counting)
  }
}
