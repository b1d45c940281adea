/** Daily puzzle selection: whole days since a fixed epoch, rotated through the
    puzzle catalogue with JavaScript's sign-keeping remainder.
    Instants are integer milliseconds since the Unix epoch. */
module GameLogic {

  /** Number of guesses a player gets (exported constant of the game rules). */
  const MaxGuesses: nat := 6

  /** Milliseconds in one day: 24 * 60 * 60 * 1000. */
  const MsPerDay: nat := 24 * 60 * 60 * 1000

  function Abs(x: int): nat
  {
    if x < 0 then -x else x
  }

  /** A multiple of a positive `n` strictly between -n and n is zero. */
  lemma MultipleInsideIsZero(k: int, n: int)
    requires n > 0
    requires -n < k * n < n
    ensures k == 0
  {
  }

  /** Multiples of a positive `n` leave Euclidean remainder 0. */
  lemma ModOfMultiple(q: int, n: int)
    requires n > 0
    ensures (q * n) % n == 0
  {
    var x := q * n;
    assert x == (x / n) * n + x % n;
    assert (q - x / n) * n == x % n;
    MultipleInsideIsZero(q - x / n, n);
  }

  /** JavaScript's `a % b`: the result keeps the sign of the dividend `a`
      and is smaller in magnitude than `b`. Dafny's `%` is Euclidean and is
      used here only on non-negative operands. */
  function JsRem(a: int, b: int): (r: int)
    requires b != 0
    ensures Abs(r) < Abs(b)
    ensures a >= 0 ==> r >= 0
    ensures a <= 0 ==> r <= 0
    ensures (a - r) % Abs(b) == 0
  {
    var n := Abs(b);
    if a >= 0 then
      var q := a / n;
      assert a - a % n == q * n;
      ModOfMultiple(q, n);
      a % n
    else
      var q := (-a) / n;
      assert a + (-a) % n == (-q) * n;
      ModOfMultiple(-q, n);
      -((-a) % n)
  }

  /** The three properties of JsRem's contract determine its value: no other
      integer is a remainder of the same sign, magnitude bound and residue. */
  lemma JsRemUnique(a: int, b: int, r': int)
    requires b != 0
    requires Abs(r') < Abs(b)
    requires a >= 0 ==> r' >= 0
    requires a <= 0 ==> r' <= 0
    requires (a - r') % Abs(b) == 0
    ensures r' == JsRem(a, b)
  {
    var r := JsRem(a, b);
    var n := Abs(b);
    var x, x' := a - r, a - r';
    assert x == (x / n) * n + x % n;
    assert x' == (x' / n) * n + x' % n;
    assert r - r' == (x' / n - x / n) * n;
    MultipleInsideIsZero(x' / n - x / n, n);
  }

  /** For a positive divisor, JavaScript's remainder differs from Dafny's
      Euclidean one exactly when the dividend is negative and not a multiple. */
  lemma JsRemVersusEuclidean(a: int, b: int)
    requires b > 0
    ensures a >= 0 ==> JsRem(a, b) == a % b
    ensures a < 0 && a % b == 0 ==> JsRem(a, b) == 0
    ensures a < 0 && a % b != 0 ==> JsRem(a, b) == a % b - b
  {
    assert a == (a / b) * b + a % b;
    if a < 0 && a % b != 0 {
      assert a - (a % b - b) == (a / b + 1) * b;
      ModOfMultiple(a / b + 1, b);
      JsRemUnique(a, b, a % b - b);
    } else if a < 0 {
      assert a - 0 == (a / b) * b;
      ModOfMultiple(a / b, b);
      JsRemUnique(a, b, 0);
    }
  }

  /** Whole days from `epochMs` to `dateMs`, rounded towards minus infinity.
      Dafny's `/` with a positive divisor is floor division. */
  function DayNumber(dateMs: int, epochMs: int): (d: int)
    ensures d * MsPerDay <= dateMs - epochMs < (d + 1) * MsPerDay
  {
    (dateMs - epochMs) / MsPerDay
  }

  /** The floor characterisation of DayNumber pins it down: any integer `d`
      whose day window contains the instant is the day number. */
  lemma DayNumberUnique(dateMs: int, epochMs: int, d: int)
    requires d * MsPerDay <= dateMs - epochMs < (d + 1) * MsPerDay
    ensures DayNumber(dateMs, epochMs) == d
  {
  }

  lemma DayNumberAtEpoch(epochMs: int)
    ensures DayNumber(epochMs, epochMs) == 0
  {
    DayNumberUnique(epochMs, epochMs, 0);
  }

  /** Exactly one day later is exactly one day number later. */
  lemma DayNumberNextDay(dateMs: int, epochMs: int)
    ensures DayNumber(dateMs + MsPerDay, epochMs) == DayNumber(dateMs, epochMs) + 1
  {
    var d := DayNumber(dateMs, epochMs);
    DayNumberUnique(dateMs + MsPerDay, epochMs, d + 1);
  }

  /** Later instants never have smaller day numbers. */
  lemma DayNumberMonotone(date1: int, date2: int, epochMs: int)
    requires date1 <= date2
    ensures DayNumber(date1, epochMs) <= DayNumber(date2, epochMs)
  {
  }

  /** Puzzle number for a day index: `(day % total) + 1` with JavaScript's `%`. */
  function PuzzleNumber(day: int, totalPuzzles: int): (n: int)
    requires totalPuzzles != 0
    ensures day >= 0 ==> 1 <= n <= Abs(totalPuzzles)
    ensures day < 0 ==> 2 - Abs(totalPuzzles) <= n <= 1
  {
    JsRem(day, totalPuzzles) + 1
  }

  /** Today's puzzle number for the instant `dateMs` and the configured epoch. */
  function TodaysPuzzleNumber(totalPuzzles: int, dateMs: int, epochMs: int): (n: int)
    requires totalPuzzles != 0
    ensures dateMs >= epochMs ==> 1 <= n <= Abs(totalPuzzles)
    ensures dateMs < epochMs ==> 2 - Abs(totalPuzzles) <= n <= 1
  {
    PuzzleNumber(DayNumber(dateMs, epochMs), totalPuzzles)
  }

  /** On and after the epoch, the rotation repeats every `totalPuzzles` days. */
  lemma PuzzleNumberPeriodic(day: int, totalPuzzles: int)
    requires day >= 0
    requires totalPuzzles > 0
    ensures PuzzleNumber(day + totalPuzzles, totalPuzzles) == PuzzleNumber(day, totalPuzzles)
  {
    var r := JsRem(day, totalPuzzles);
    var x := day - r;
    assert x == (x / totalPuzzles) * totalPuzzles + x % totalPuzzles;
    assert day + totalPuzzles - r == (x / totalPuzzles + 1) * totalPuzzles;
    ModOfMultiple(x / totalPuzzles + 1, totalPuzzles);
    JsRemUnique(day + totalPuzzles, totalPuzzles, r);
  }

  /** On and after the epoch, consecutive days step through the catalogue:
      the next day's puzzle follows today's, wrapping from the last to 1. */
  lemma PuzzleNumberNextDay(day: int, totalPuzzles: int)
    requires day >= 0
    requires totalPuzzles > 0
    ensures PuzzleNumber(day + 1, totalPuzzles)
         == if PuzzleNumber(day, totalPuzzles) == totalPuzzles then 1
            else PuzzleNumber(day, totalPuzzles) + 1
  {
    var r := JsRem(day, totalPuzzles);
    var x := day - r;
    assert x == (x / totalPuzzles) * totalPuzzles + x % totalPuzzles;
    if r + 1 == totalPuzzles {
      assert day + 1 - 0 == (x / totalPuzzles + 1) * totalPuzzles;
      ModOfMultiple(x / totalPuzzles + 1, totalPuzzles);
      JsRemUnique(day + 1, totalPuzzles, 0);
    } else {
      assert day + 1 - (r + 1) == x;
      JsRemUnique(day + 1, totalPuzzles, r + 1);
    }
  }

  /** Before the epoch the sign-keeping remainder is not periodic across day 0:
      day -1 gives puzzle 0 while day 4 gives puzzle 5 (five puzzles). */
  lemma PuzzleNumberBeforeEpochExamples()
    ensures PuzzleNumber(-1, 5) == 0
    ensures PuzzleNumber(-4, 5) == -3
    ensures PuzzleNumber(-5, 5) == 1
    ensures PuzzleNumber(4, 5) == 5
  {
  }

  /** Worked rotation with five puzzles: day 0 is puzzle 1, day 5 wraps to
      puzzle 1 and day 6 is puzzle 2. */
  lemma PuzzleNumberExamples()
    ensures PuzzleNumber(0, 5) == 1
    ensures PuzzleNumber(5, 5) == 1
    ensures PuzzleNumber(6, 5) == 2
  {
  }

  /** Before the epoch, puzzle numbers 0 and below occur: every value of
      [2 - total, 1] is reached by some negative day. */
  lemma PuzzleNumberBeforeEpochRange(totalPuzzles: int, n: int)
    requires totalPuzzles > 0
    requires 2 - totalPuzzles <= n <= 1
    ensures PuzzleNumber(n - 1 - totalPuzzles, totalPuzzles) == n
  {
    JsRemUnique(n - 1 - totalPuzzles, totalPuzzles, n - 1);
  }
}
