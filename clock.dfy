/**
 * The per-move deadline controller of the engine (class Clock).
 *
 * Times are milliseconds held in signed 64-bit integers in the original;
 * here they are unbounded `int`s.  Wall-clock time is not read: every
 * operation that looks at the elapsed-time timer takes the number of
 * milliseconds elapsed since the last restart as a parameter, and the
 * "MoveOverhead" option is passed in as `overhead`.
 */
module TimeControl {

  datatype Army = White | Black

  /** The qualitative search trend reported with the telemetry. */
  datatype Trend = Better | Worse

  /**
   * The part of the search telemetry the deadline calculation reads.
   * The floating-point trend degree is not kept: the rounded product
   * it contributes to the trend factor is passed to the calculation
   * as an integer (`trendStep`).
   */
  datatype SearchInfo = SearchInfo(depth: int, trend: Trend)

  /** A default-constructed SearchInfo: no depth reached yet. */
  const DefaultSearchInfo := SearchInfo(-1, Better)

  /** Search depth from which the ideal time slice is used. */
  const MinimumDepth := 3

  /** Deadline used when neither a move time nor a clock time is known. */
  const FallbackDeadline := 5000

  function Max(a: int, b: int): int { if a < b then b else a }

  function Min(a: int, b: int): int { if a < b then a else b }

  /**
   * Integer division as C++ does it: the quotient is truncated toward zero,
   * so a negative dividend gives minus the quotient of its magnitude
   * (Dafny's own `/` is Euclidean and would round -1 / 20 down to -1).
   */
  function TruncDiv(a: int, b: int): int
    requires b != 0
  {
    if a >= 0 && b > 0 then a / b
    else if a < 0 && b < 0 then (-a) / (-b)
    else if a < 0 then -((-a) / b)
    else -(a / (-b))
  }

  /**
   * The material heuristic for the number of half-moves left in the game.
   * The coefficients 3/8 and 5/4 are integer divisions in the original and
   * are worth 0 and 1; rounding an integer-valued product is the identity.
   */
  function ExpectedHalfMovesTillEog(score: int): (r: int)
    ensures score < 20 ==> r == score + 10
    ensures 20 <= score <= 60 ==> r == 22
    ensures score > 60 ==> r == score - 30
    ensures score >= 0 ==> r >= 10
    ensures r == 0 <==> score == -10
  {
    if score < 20 then
      score + 10
    else if 20 <= score && score <= 60 then
      TruncDiv(3, 8) * score + 22
    else
      TruncDiv(5, 4) * score - 30
  }

  /** The easing curve of the default build: the identity. */
  function EasingCurve(x: int): (y: int)
    ensures y == x
  {
    x
  }

  /** A non-negative time shared out over a positive number of moves gives a non-negative share. */
  lemma ShareOfNonnegative(t: int, halfMoves: int)
    requires halfMoves != 0
    ensures t >= 0 && halfMoves > 0 ==> TruncDiv(t, halfMoves) == t / halfMoves >= 0
  {
  }

  /** The ideal time slice: the remaining time spread evenly over the rest of the game. */
  function Ideal(t: int, inc: int, score: int): (r: int)
    requires ExpectedHalfMovesTillEog(score) != 0
    ensures t >= 0 && score >= 0 ==> r == t / ExpectedHalfMovesTillEog(score) + inc
    ensures t >= 0 && score >= 0 ==> r >= inc
  {
    var halfMoves := ExpectedHalfMovesTillEog(score);
    ShareOfNonnegative(t, halfMoves);
    EasingCurve(TruncDiv(t, halfMoves) + inc)
  }

  /**
   * The trend factor after one finite recalculation: halved when the trend
   * is Better, otherwise increased by the step, and never below zero.
   */
  function NextTrendFactor(factor: int, trend: Trend, trendStep: int): (r: int)
    ensures r >= 0
    ensures trend == Better && factor >= 0 ==> r <= factor && r == factor / 2
    ensures trend == Better && factor < 0 ==> r == 0
    ensures trend == Worse && factor + trendStep >= 0 ==> r == factor + trendStep
    ensures trend == Worse && factor + trendStep < 0 ==> r == 0
  {
    var next := if trend != Better then factor + trendStep else TruncDiv(factor, 2);
    Max(0, next)
  }

  /**
   * The deadline of a finite calculation, chosen in priority order:
   * a fixed move time, then the ideal slice once the minimum depth is
   * reached, then the whole remaining time, then the fallback; floored at 0.
   */
  function DeadlineFor(moveTime: int, t: int, inc: int, depth: int, score: int, overhead: int): (r: int)
    requires ExpectedHalfMovesTillEog(score) != 0
    ensures r >= 0
    ensures moveTime != -1 ==> r == Max(0, moveTime - overhead)
    ensures moveTime == -1 && t != -1 && depth >= MinimumDepth ==>
              r == Max(0, Min(t - overhead, Ideal(t, inc, score)))
    ensures moveTime == -1 && t != -1 && depth < MinimumDepth ==> r == Max(0, t - overhead)
    ensures moveTime == -1 && t == -1 ==> r == FallbackDeadline
  {
    var maximum := t - overhead;
    var ideal := Ideal(t, inc, score);
    var deadline :=
      if moveTime != -1 then moveTime - overhead
      else if t != -1 && depth >= MinimumDepth then Min(maximum, ideal)
      else if t != -1 then maximum
      else FallbackDeadline;
    Max(0, deadline)
  }

  /** With a clock time and no move time, the deadline never exceeds the remaining time less the overhead. */
  lemma DeadlineWithinRemainingTime(t: int, inc: int, depth: int, score: int, overhead: int)
    requires ExpectedHalfMovesTillEog(score) != 0
    requires t != -1
    ensures DeadlineFor(-1, t, inc, depth, score, overhead) <= Max(0, t - overhead)
  {
  }

  /** Reaching the minimum depth can only shorten the deadline. */
  lemma DepthOnlyShortens(t: int, inc: int, deep: int, shallow: int, score: int, overhead: int)
    requires ExpectedHalfMovesTillEog(score) != 0
    requires deep >= MinimumDepth > shallow
    ensures DeadlineFor(-1, t, inc, deep, score, overhead) <= DeadlineFor(-1, t, inc, shallow, score, overhead)
  {
  }

  /** 60 s on the clock, no increment, material score 10, overhead 100 ms, depth 3: 3000 ms. */
  lemma SixtySecondScenario()
    ensures ExpectedHalfMovesTillEog(10) == 20
    ensures Ideal(60000, 0, 10) == 3000
    ensures DeadlineFor(-1, 60000, 0, 3, 10, 100) == 3000
  {
  }

  class Clock {
    var isActive: bool
    var whiteTime: int
    var whiteIncrement: int
    var blackTime: int
    var blackIncrement: int
    var moveTime: int
    var infinite: bool
    var deadline: int
    var trendFactor: int
    var materialScore: int
    var halfMoveNumber: int
    var onTheClock: Army
    var info: SearchInfo
    /** Whether the single-shot timeout timer is armed, and the interval it was last armed with. */
    var timerRunning: bool
    var timerInterval: int

    /** The trend factor is never negative. */
    ghost predicate Valid()
      reads this
    {
      trendFactor >= 0
    }

    /** The move time starts at `false`, which converts to 0 (not the -1 sentinel). */
    constructor ()
      ensures Valid()
      ensures !isActive && !infinite && !timerRunning
      ensures whiteTime == -1 && whiteIncrement == -1 && blackTime == -1 && blackIncrement == -1
      ensures moveTime == 0 && deadline == 0 && trendFactor == 0
      ensures materialScore == 0 && halfMoveNumber == 0
      ensures info == DefaultSearchInfo
    {
      isActive := false;
      whiteTime, whiteIncrement := -1, -1;
      blackTime, blackIncrement := -1, -1;
      moveTime := 0;
      infinite := false;
      deadline := 0;
      trendFactor := 0;
      materialScore := 0;
      halfMoveNumber := 0;
      info := DefaultSearchInfo;
      timerRunning := false;
      timerInterval := 0;
    }

    /** The army's remaining time: White's or Black's field, never the other's. */
    function Time(army: Army): (t: int)
      reads this
      ensures army == White ==> t == whiteTime
      ensures army == Black ==> t == blackTime
    {
      if army == White then whiteTime else blackTime
    }

    /** The army's increment: White's or Black's field, never the other's. */
    function Increment(army: Army): (inc: int)
      reads this
      ensures army == White ==> inc == whiteIncrement
      ensures army == Black ==> inc == blackIncrement
    {
      if army == White then whiteIncrement else blackIncrement
    }

    /** The smoothed trend factor, which is never negative. */
    function TrendFactor(): (f: int)
      reads this
      requires Valid()
      ensures f >= 0 && f == trendFactor
    {
      trendFactor
    }

    method SetTime(army: Army, time: int)
      modifies this
      ensures Time(army) == time
      ensures army == White ==> blackTime == old(blackTime)
      ensures army == Black ==> whiteTime == old(whiteTime)
      ensures whiteIncrement == old(whiteIncrement) && blackIncrement == old(blackIncrement)
      ensures moveTime == old(moveTime) && infinite == old(infinite) && deadline == old(deadline)
      ensures trendFactor == old(trendFactor) && materialScore == old(materialScore)
      ensures onTheClock == old(onTheClock) && info == old(info) && isActive == old(isActive)
      ensures timerRunning == old(timerRunning) && timerInterval == old(timerInterval)
      ensures halfMoveNumber == old(halfMoveNumber)
    {
      if army == White {
        whiteTime := time;
      } else {
        blackTime := time;
      }
    }

    method SetIncrement(army: Army, inc: int)
      modifies this
      ensures Increment(army) == inc
      ensures army == White ==> blackIncrement == old(blackIncrement)
      ensures army == Black ==> whiteIncrement == old(whiteIncrement)
      ensures whiteTime == old(whiteTime) && blackTime == old(blackTime)
      ensures moveTime == old(moveTime) && infinite == old(infinite) && deadline == old(deadline)
      ensures trendFactor == old(trendFactor) && materialScore == old(materialScore)
      ensures onTheClock == old(onTheClock) && info == old(info) && isActive == old(isActive)
      ensures timerRunning == old(timerRunning) && timerInterval == old(timerInterval)
      ensures halfMoveNumber == old(halfMoveNumber)
    {
      if army == White {
        whiteIncrement := inc;
      } else {
        blackIncrement := inc;
      }
    }

    method SetInfinite(inf: bool)
      modifies this`infinite
      ensures infinite == inf
    {
      infinite := inf;
    }

    method SetMoveTime(time: int)
      modifies this`moveTime
      ensures moveTime == time
    {
      moveTime := time;
    }

    /** The material score is set from outside this file (its setter is declared in the class header). */
    method SetMaterialScore(score: int)
      modifies this`materialScore
      ensures materialScore == score
    {
      materialScore := score;
    }

    /**
     * Recomputes the deadline from the current clock state and telemetry.
     * In infinite mode the deadline becomes the -1 sentinel, the timer is
     * stopped and nothing else changes; otherwise the trend factor and the
     * deadline are recomputed and the timer is armed for what is left.
     */
    method CalculateDeadline(isPartial: bool, trendStep: int, elapsed: nat, overhead: int)
      requires Valid()
      requires infinite || ExpectedHalfMovesTillEog(materialScore) != 0
      modifies this`deadline, this`trendFactor, this`timerRunning, this`timerInterval
      ensures Valid()
      ensures infinite ==> deadline == -1 && !timerRunning
      ensures infinite ==> trendFactor == old(trendFactor) && timerInterval == old(timerInterval)
      ensures !infinite ==> deadline >= 0
      ensures !infinite ==> deadline == DeadlineFor(moveTime, Time(onTheClock), Increment(onTheClock),
                                                    info.depth, materialScore, overhead)
      ensures !infinite ==> trendFactor == NextTrendFactor(old(trendFactor), info.trend, trendStep)
      ensures !infinite ==> timerRunning && timerInterval == Max(0, deadline - elapsed)
    {
      if infinite {
        deadline := -1;
        timerRunning := false;
        return;
      }

      var t := Time(onTheClock);
      var inc := Increment(onTheClock);
      var maximum := t - overhead;
      var ideal := EasingCurve(TruncDiv(t, ExpectedHalfMovesTillEog(materialScore)) + inc);

      if info.trend != Better {
        trendFactor := trendFactor + trendStep;
      } else {
        trendFactor := TruncDiv(trendFactor, 2);
      }
      trendFactor := Max(0, trendFactor);

      var next := FallbackDeadline;
      if moveTime != -1 {
        next := moveTime - overhead;
      } else if t != -1 && info.depth >= MinimumDepth {
        next := Min(maximum, ideal);
      } else if t != -1 {
        next := maximum;
      }
      deadline := Max(0, next);
      timerRunning := true;
      timerInterval := Max(0, deadline - elapsed);
    }

    /**
     * Starts the clock for `army`: telemetry is reset, the elapsed timer is
     * restarted (so the calculation sees 0 ms elapsed) and the deadline is
     * computed before any depth has been reached.
     */
    method StartDeadline(army: Army, overhead: int)
      requires Valid()
      requires infinite || ExpectedHalfMovesTillEog(materialScore) != 0
      modifies this`isActive, this`info, this`onTheClock, this`deadline, this`trendFactor,
               this`timerRunning, this`timerInterval
      ensures Valid()
      ensures isActive && info == DefaultSearchInfo && onTheClock == army
      ensures infinite ==> deadline == -1 && !timerRunning && trendFactor == old(trendFactor)
      ensures !infinite && moveTime != -1 ==> deadline == Max(0, moveTime - overhead)
      ensures !infinite && moveTime == -1 && Time(army) != -1 ==> deadline == Max(0, Time(army) - overhead)
      ensures !infinite && moveTime == -1 && Time(army) == -1 ==> deadline == FallbackDeadline
      ensures !infinite ==> trendFactor == old(trendFactor) / 2
      ensures !infinite ==> timerRunning && timerInterval == deadline
    {
      isActive := true;
      info := DefaultSearchInfo;
      onTheClock := army;
      timerRunning := false;
      CalculateDeadline(false, 0, 0, overhead);
    }

    /** Replaces the telemetry and recomputes the deadline. */
    method UpdateDeadline(newInfo: SearchInfo, isPartial: bool, trendStep: int, elapsed: nat, overhead: int)
      requires Valid()
      requires infinite || ExpectedHalfMovesTillEog(materialScore) != 0
      modifies this`info, this`deadline, this`trendFactor, this`timerRunning, this`timerInterval
      ensures Valid()
      ensures info == newInfo
      ensures infinite ==> deadline == -1 && !timerRunning && trendFactor == old(trendFactor)
      ensures !infinite ==> deadline == DeadlineFor(moveTime, Time(onTheClock), Increment(onTheClock),
                                                    newInfo.depth, materialScore, overhead)
      ensures !infinite ==> trendFactor == NextTrendFactor(old(trendFactor), newInfo.trend, trendStep)
      ensures !infinite && newInfo.trend == Better ==> trendFactor <= old(trendFactor)
      ensures !infinite ==> timerRunning && timerInterval == Max(0, deadline - elapsed)
    {
      info := newInfo;
      CalculateDeadline(isPartial, trendStep, elapsed, overhead);
    }

    /** The unbounded sentinel -1 in infinite mode, otherwise what is left until the deadline. */
    function TimeToDeadline(elapsed: nat): (r: int)
      reads this
      ensures infinite ==> r == -1
      ensures !infinite ==> r + elapsed == deadline
    {
      if infinite then -1 else deadline - elapsed
    }

    /**
     * Expiry as the elapsed-time timer reports it: a negative deadline never
     * expires, otherwise the timer has expired once more than `deadline`
     * milliseconds have elapsed.
     */
    function HasExpired(elapsed: nat): (r: bool)
      reads this
      ensures r ==> deadline >= 0
      ensures deadline >= 0 ==> (r <==> elapsed > deadline)
    {
      deadline >= 0 && elapsed > deadline
    }

    function LessThanMoveOverhead(elapsed: nat, overhead: int): (r: bool)
      reads this
      ensures infinite ==> (r <==> overhead > -1)
      ensures !infinite ==> (r <==> deadline < elapsed + overhead)
    {
      TimeToDeadline(elapsed) < overhead
    }

    function PastMoveOverhead(elapsed: nat, overhead: int): (r: bool)
      reads this
      ensures overhead < 0 ==> r
      ensures r <==> elapsed > overhead
    {
      elapsed > overhead
    }

    /** Once the clock has expired, less than any non-negative overhead is left. */
    lemma ExpiredIsLessThanMoveOverhead(elapsed: nat, overhead: int)
      requires !infinite && overhead >= 0 && HasExpired(elapsed)
      ensures LessThanMoveOverhead(elapsed, overhead)
    {
    }

    /** In finite mode the clock has expired exactly when no time is left until the deadline. */
    lemma ExpiredIffNoTimeLeft(elapsed: nat)
      requires !infinite && deadline >= 0
      ensures HasExpired(elapsed) <==> TimeToDeadline(elapsed) < 0
    {
    }
  }

  /**
   * A fresh clock has move time 0 rather than -1, so unless the move time is
   * reset to -1 the fixed-move-time branch wins: the deadline is
   * max(0, -overhead) whatever time is on the clock.
   */
  method DefaultMoveTimeScenario(army: Army, time: int, overhead: int) returns (d: int)
    ensures d == Max(0, -overhead)
  {
    var clock := new Clock();
    clock.SetTime(army, time);
    clock.StartDeadline(army, overhead);
    d := clock.deadline;
  }

  /**
   * 60 s for White, no increment, material score 10, overhead 100 ms:
   * the first calculation allows 59900 ms, the one after depth 3 is
   * reported allows 3000 ms.
   */
  method SixtySecondClockScenario() returns (first: int, second: int)
    ensures first == 59900 && second == 3000
  {
    var clock := new Clock();
    clock.SetMoveTime(-1);
    clock.SetMaterialScore(10);
    clock.SetTime(White, 60000);
    clock.SetIncrement(White, 0);
    clock.StartDeadline(White, 100);
    first := clock.deadline;
    clock.UpdateDeadline(SearchInfo(3, Worse), false, 0, 0, 100);
    second := clock.deadline;
    SixtySecondScenario();
  }
}
