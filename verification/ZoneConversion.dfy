/**
Turning a local wall-clock time without zone into an instant, by a guess and one correction. A zone
is an arbitrary function from instants (ms) to offsets (ms, local minus UTC, whole seconds).
*/
module ZoneConversion {

  const SECOND := 1000

  ghost predicate WholeSeconds(zone: int -> int) {
    forall t :: zone(t) % SECOND == 0
  }

  /**
  The offset as the code measures it: the instant is printed as local date and time down to the
  second, read back as UTC, and compared with the instant. The milliseconds are lost in printing.
  */
  function MeasuredOffset(zone: int -> int, ts: int): int {
    var localTime := ts + zone(ts);
    localTime - localTime % SECOND - ts
  }

  method ZonedNaiveToUtc(zone: int -> int, utcGuess: int) returns (utcFinal: int)
    ensures utcFinal == Convert(zone, utcGuess)
  {
    var off1 := MeasuredOffset(zone, utcGuess);
    utcFinal := utcGuess - off1;
    var off2 := MeasuredOffset(zone, utcFinal);
    if off2 != off1 {
      utcFinal := utcGuess - off2;
    }
  }

  function Convert(zone: int -> int, naive: int): int {
    naive - MeasuredOffset(zone, naive - MeasuredOffset(zone, naive))
  }

  /** `u` shows the wall-clock time `naive`. */
  predicate Shows(zone: int -> int, u: int, naive: int) {
    u + zone(u) == naive
  }

  ghost predicate LocalTimeExists(zone: int -> int, naive: int) {
    exists u :: Shows(zone, u, naive)
  }

  ghost predicate Bounded(zone: int -> int, m: int) {
    forall t :: -m <= zone(t) <= m
  }

  /** Within `radius` of `naive` the offset changes at most once: from `a` to `b` at instant `jump`. */
  ghost predicate OneJump(zone: int -> int, naive: int, radius: int, a: int, b: int, jump: int) {
    forall t :: naive - radius <= t <= naive + radius ==> zone(t) == if t < jump then a else b
  }

  lemma MeasuredWholeSecond(zone: int -> int, ts: int)
    requires WholeSeconds(zone)
    ensures MeasuredOffset(zone, ts) == zone(ts) - ts % SECOND
  {
    assert zone(ts) % SECOND == 0;
    ModShift(ts, zone(ts));
  }

  lemma ModShift(t: int, z: int)
    requires z % SECOND == 0
    ensures (t + z) % SECOND == t % SECOND
  {
    var q := z / SECOND;
    assert z == q * SECOND;
    assert t == t / SECOND * SECOND + t % SECOND;
    assert t + z == (t / SECOND + q) * SECOND + t % SECOND;
  }

  /**
  For whole-second times the conversion is right iff the local time exists: an existing time
  (repeated hours included) is converted to an instant that shows it; a skipped one is missed by
  exactly the width of the jump.
  */
  lemma WholeSecondConversion(zone: int -> int, naive: int, m: int, a: int, b: int, jump: int)
    requires WholeSeconds(zone) && naive % SECOND == 0
    requires Bounded(zone, m) && OneJump(zone, naive, m, a, b, jump)
    ensures Shows(zone, Convert(zone, naive), naive) <==> LocalTimeExists(zone, naive)
    ensures !LocalTimeExists(zone, naive) ==>
              && a < b
              && Convert(zone, naive) + zone(Convert(zone, naive)) == naive + (if jump <= naive then b - a else a - b)
  {
    WholeSecondPasses(zone, naive);
    TwoPasses(zone, naive, m, a, b, jump);
  }

  /** On whole seconds each pass subtracts the offset it finds. */
  lemma WholeSecondPasses(zone: int -> int, naive: int)
    requires WholeSeconds(zone) && naive % SECOND == 0
    ensures Convert(zone, naive) == naive - zone(naive - zone(naive))
  {
    MeasuredWholeSecond(zone, naive);
    assert zone(naive) % SECOND == 0 && (-zone(naive)) % SECOND == 0;
    ModShift(naive, -zone(naive));
    MeasuredWholeSecond(zone, naive - zone(naive));
  }

  /** Two passes of guess and correction, milliseconds aside. */
  lemma TwoPasses(zone: int -> int, naive: int, m: int, a: int, b: int, jump: int)
    requires Bounded(zone, m) && OneJump(zone, naive, m, a, b, jump)
    ensures var r := naive - zone(naive - zone(naive));
            && (Shows(zone, r, naive) <==> LocalTimeExists(zone, naive))
            && (!LocalTimeExists(zone, naive) ==>
                 a < b && r + zone(r) == naive + (if jump <= naive then b - a else a - b))
  {
    var u := naive - zone(naive);
    var r := naive - zone(u);
    if w :| Shows(zone, w, naive) {
      assert naive - m <= w <= naive + m;
    }
    assert -m <= zone(naive) <= m && -m <= zone(u) <= m;
    assert naive - m <= u <= naive + m && naive - m <= r <= naive + m;
  }

  /**
  Of the two instants of a repeated hour, the later is returned if the jump comes no later than the time
  read as UTC, else the earlier.
  */
  lemma RepeatedHourChoice(zone: int -> int, naive: int, m: int, a: int, b: int, jump: int)
    requires WholeSeconds(zone) && naive % SECOND == 0
    requires Bounded(zone, m) && OneJump(zone, naive, m, a, b, jump)
    requires -m <= a <= m && -m <= b <= m && naive - m <= jump <= naive + m
    requires b < a && Shows(zone, naive - a, naive) && Shows(zone, naive - b, naive)
    ensures Convert(zone, naive) == if jump <= naive then naive - b else naive - a
  {
    WholeSecondPasses(zone, naive);
    assert naive - m <= naive <= naive + m;
  }

  /** The first pass lands this far off a whole-second answer, because the measured offset has lost the milliseconds. */
  lemma FirstPassDrift(zone: int -> int, naive: int)
    requires WholeSeconds(zone)
    ensures var u := naive - MeasuredOffset(zone, naive);
            && u == naive - zone(naive) + naive % SECOND
            && u % SECOND == 2 * (naive % SECOND) % SECOND
            && Convert(zone, naive) == naive - zone(u) + 2 * (naive % SECOND) % SECOND
  {
    var ms := naive % SECOND;
    var u := naive - MeasuredOffset(zone, naive);
    MeasuredWholeSecond(zone, naive);
    assert zone(naive) % SECOND == 0;
    assert (-zone(naive)) % SECOND == 0;
    ModShift(naive + ms, -zone(naive));
    assert naive + ms == (naive / SECOND) * SECOND + 2 * ms;
    ModShift(2 * ms, (naive / SECOND) * SECOND);
    MeasuredWholeSecond(zone, u);
  }

  /** In any zone, jumps or not, a time whose milliseconds are neither 0 nor 500 is never converted correctly. */
  lemma MillisecondsNeverRight(zone: int -> int, naive: int)
    requires WholeSeconds(zone)
    requires naive % SECOND != 0 && naive % SECOND != 500
    ensures !Shows(zone, Convert(zone, naive), naive)
  {
    var drift := 2 * (naive % SECOND) % SECOND;
    var u := naive - MeasuredOffset(zone, naive);
    var r := Convert(zone, naive);
    FirstPassDrift(zone, naive);
    assert 0 < drift < SECOND;
    assert zone(u) % SECOND == 0 && zone(r) % SECOND == 0;
    assert zone(u) == zone(u) / SECOND * SECOND && zone(r) == zone(r) / SECOND * SECOND;
    assert zone(r) - zone(u) == (zone(r) / SECOND - zone(u) / SECOND) * SECOND;
    assert Shows(zone, r, naive) ==> zone(r) - zone(u) == -drift;
  }

  /** A jump inside the half second that the first pass overshoots, in the direction that hurts. */
  predicate JumpSpoilsHalfSecond(zone: int -> int, naive: int, a: int, b: int, jump: int) {
    && naive - zone(naive) < jump <= naive - zone(naive) + 500
    && (if jump <= naive then b < a else a < b)
  }

  /**
  Exactly when the conversion is right, for every millisecond: the local time must exist and its
  milliseconds must be 0, or 500 with no jump in the half second the first pass overshoots.
  */
  lemma ConversionExact(zone: int -> int, naive: int, m: int, a: int, b: int, jump: int)
    requires WholeSeconds(zone)
    requires Bounded(zone, m) && OneJump(zone, naive, m + 500, a, b, jump)
    ensures Shows(zone, Convert(zone, naive), naive) <==>
            && LocalTimeExists(zone, naive)
            && (naive % SECOND == 0 || (naive % SECOND == 500 && !JumpSpoilsHalfSecond(zone, naive, a, b, jump)))
  {
    if naive % SECOND == 0 {
      WholeSecondConversion(zone, naive, m, a, b, jump);
    } else if naive % SECOND == 500 {
      HalfSecondConversion(zone, naive, m, a, b, jump);
    } else {
      MillisecondsNeverRight(zone, naive);
    }
  }

  lemma HalfSecondConversion(zone: int -> int, naive: int, m: int, a: int, b: int, jump: int)
    requires WholeSeconds(zone) && naive % SECOND == 500
    requires Bounded(zone, m) && OneJump(zone, naive, m + 500, a, b, jump)
    ensures Shows(zone, Convert(zone, naive), naive) <==>
            LocalTimeExists(zone, naive) && !JumpSpoilsHalfSecond(zone, naive, a, b, jump)
  {
    FirstPassDrift(zone, naive);
    var u := naive - zone(naive) + 500;
    var r := Convert(zone, naive);
    assert r == naive - zone(u);
    if w :| Shows(zone, w, naive) {
      assert naive - m <= w <= naive + m;
    }
    assert -m <= zone(naive) <= m && -m <= zone(u) <= m;
    assert zone(naive) % SECOND == 0 && zone(u) % SECOND == 0 && zone(r) % SECOND == 0;
  }
}
