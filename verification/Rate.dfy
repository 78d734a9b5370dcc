/** The fire times of a rate schedule, in 64-bit nanosecond arithmetic. */
module Rate {
  import opened Lex
  import TimeKey
  import Schedules

  const MAX_DURATION := 0x7FFF_FFFF_FFFF_FFFF
  const TWO_64 := 0x1_0000_0000_0000_0000

  /** The value a 64-bit signed register holds after computing `x`. */
  function Wrap(x: int): int {
    (x + MAX_DURATION + 1) % TWO_64 - MAX_DURATION - 1
  }

  /** `time.Time.Sub`, which saturates. */
  function Sub(t: int, u: int): int {
    if t - u > MAX_DURATION then MAX_DURATION
    else if t - u < -MAX_DURATION - 1 then -MAX_DURATION - 1
    else t - u
  }

  function UnitLength(unit: string): Option<int> {
    if unit == "minutes" then Some(TimeKey.MINUTE)
    else if unit == "hours" then Some(TimeKey.HOUR)
    else if unit == "days" then Some(TimeKey.DAY)
    else None
  }

  /** `rateDuration`. */
  function RateDuration(interval: int, unit: string): int {
    match UnitLength(unit)
    case None => 0
    case Some(length) => Wrap(interval * length)
  }

  /** `rateSchedule.Next`; None is the zero time, which never comes. */
  function Next(start: int, interval: int, t: int): Option<int> {
    if interval <= 0 then None
    else if t < start then Some(start)
    else
      var elapsed := Sub(t, start);
      var intervals := Wrap(elapsed / interval + 1);
      Some(start + Wrap(intervals * interval))
  }

  // --------------------------------------------------------------- the grid

  function GridPoint(start: int, interval: int, k: nat): int {
    start + k * interval
  }

  /** `p` is the first grid point after `t`. */
  ghost predicate FirstAfter(start: int, interval: int, t: int, p: int) {
    && p > t
    && (exists k: nat :: p == GridPoint(start, interval, k))
    && (forall k: nat :: GridPoint(start, interval, k) > t ==> p <= GridPoint(start, interval, k))
  }

  /** The distance from the start to the next grid point fits in 64 bits. */
  predicate Fits(start: int, interval: int, t: int)
    requires interval > 0
  {
    t < start || ((t - start) / interval + 1) * interval <= MAX_DURATION
  }

  lemma WrapExact(x: int)
    ensures Wrap(x) == x <==> -MAX_DURATION - 1 <= x <= MAX_DURATION
    ensures MAX_DURATION < x < TWO_64 ==> Wrap(x) == x - TWO_64 < 0
  {
  }

  /** A unit count is turned into nanoseconds exactly, or it overflowed. */
  lemma RateDurationExact(interval: int, unit: string)
    requires interval > 0 && UnitLength(unit).Some?
    ensures var exact := interval * UnitLength(unit).value;
      RateDuration(interval, unit) == exact <==> exact <= MAX_DURATION
  {
    var length := UnitLength(unit).value;
    Multiples(interval, length, 0);
    WrapExact(interval * length);
  }

  /** The units in nanoseconds, and the largest 64-bit number as the limit. */
  lemma UnitsAre(n: int)
    requires n > 0
    ensures RateDuration(n, "minutes") == n * 60_000_000_000 <==> n * 60_000_000_000 <= 9_223_372_036_854_775_807
    ensures RateDuration(n, "hours") == n * 3_600_000_000_000 <==> n * 3_600_000_000_000 <= 9_223_372_036_854_775_807
    ensures RateDuration(n, "days") == n * 86_400_000_000_000 <==> n * 86_400_000_000_000 <= 9_223_372_036_854_775_807
    ensures forall unit :: unit !in {"minutes", "hours", "days"} ==> RateDuration(n, unit) == 0
  {
    RateDurationExact(n, "minutes");
    RateDurationExact(n, "hours");
    RateDurationExact(n, "days");
  }

  lemma Grows(a: int, b: int, interval: int)
    requires a <= b && interval >= 0
    ensures a * interval <= b * interval
  {
  }

  lemma Multiples(interval: int, k: int, j: int)
    requires interval > 0
    ensures k > j ==> k * interval >= j * interval + interval
    ensures k >= j ==> k * interval >= j * interval
  {
    if k >= j { Grows(j, k, interval); }
    if k > j { Grows(j + 1, k, interval); }
  }

  lemma Quotient(e: int, interval: int)
    requires interval > 0 && e >= 0
    ensures var q := e / interval; q >= 0 && q * interval <= e < (q + 1) * interval == q * interval + interval
  {
    assert e == e / interval * interval + e % interval;
  }

  lemma GridAfter(start: int, interval: int, t: int)
    requires interval > 0 && t >= start
    ensures FirstAfter(start, interval, t, GridPoint(start, interval, (t - start) / interval + 1))
  {
    var q := (t - start) / interval;
    Quotient(t - start, interval);
    forall k: nat | GridPoint(start, interval, k) > t
      ensures GridPoint(start, interval, q + 1) <= GridPoint(start, interval, k)
    {
      if k < q + 1 { Multiples(interval, q, k); } else { Multiples(interval, k, q + 1); }
    }
  }

  lemma FirstAfterUnique(start: int, interval: int, t: int, p: int, q: int)
    requires FirstAfter(start, interval, t, p) && FirstAfter(start, interval, t, q)
    ensures p == q
  {
    var j: nat :| p == GridPoint(start, interval, j);
    var k: nat :| q == GridPoint(start, interval, k);
  }

  /** The elapsed time `Next` sees, and the multiple it would advance to. */
  lemma Advance(start: int, interval: int, t: int) returns (q: int)
    requires 0 < interval <= MAX_DURATION && t >= start
    ensures q == Sub(t, start) / interval + 1 && 1 <= q <= MAX_DURATION + 1
    ensures q > MAX_DURATION ==> interval == 1
    ensures 0 < q * interval <= 2 * MAX_DURATION
    ensures Fits(start, interval, t) <==> q * interval <= MAX_DURATION
    ensures Fits(start, interval, t) ==> q == (t - start) / interval + 1
  {
    var e := Sub(t, start);
    q := e / interval + 1;
    Quotient(e, interval);
    QuotientSmall(e / interval, interval, e);
    if t - start > MAX_DURATION {
      Quotient(t - start, interval);
    }
  }

  lemma QuotientSmall(k: int, interval: int, e: int)
    requires interval > 0 && k >= 0 && k * interval <= e
    ensures k <= e && (interval > 1 ==> 2 * k <= e)
  {
    assert k * (interval - 1) >= 0;
    if interval > 1 { assert k * (interval - 2) >= 0; } else { assert k * interval == k; }
  }

  lemma AdvanceWraps(q: int, interval: int)
    requires 1 <= q <= MAX_DURATION + 1 && (q > MAX_DURATION ==> interval == 1)
    requires 0 < q * interval <= 2 * MAX_DURATION
    ensures Wrap(Wrap(q) * interval) == if q * interval <= MAX_DURATION then q * interval else q * interval - TWO_64
  {
    WrapExact(q * interval);
    WrapExact(q);
    if q > MAX_DURATION { WrapExact(Wrap(q)); assert Wrap(q) * interval == Wrap(q); }
  }

  /** `Next(t)` is the first grid point after `t`, exactly when the distance to
      it fits in 64 bits; otherwise it is an instant before the start. */
  lemma NextIsFirstAfter(start: int, interval: int, t: int)
    requires 0 < interval <= MAX_DURATION
    ensures Next(start, interval, t).Some?
    ensures FirstAfter(start, interval, t, Next(start, interval, t).value) <==> Fits(start, interval, t)
    ensures !Fits(start, interval, t) ==> Next(start, interval, t).value < start <= t
  {
    if t < start {
      assert start == GridPoint(start, interval, 0);
      forall k: nat ensures start <= GridPoint(start, interval, k) { Multiples(interval, k, 0); }
    } else {
      var q := Advance(start, interval, t);
      AdvanceWraps(q, interval);
      if Fits(start, interval, t) { GridAfter(start, interval, t); }
    }
  }

  /** The same in plain numbers: with the distance in range, `Next` is the start
      plus `k` whole intervals, later than `t`, and one interval less is not. */
  lemma NextOnGrid(start: int, interval: int, t: int) returns (k: nat)
    requires 0 < interval <= 9_223_372_036_854_775_807
    requires t >= start ==> ((t - start) / interval + 1) * interval <= 9_223_372_036_854_775_807
    ensures Next(start, interval, t) == Some(start + k * interval) && start + k * interval > t
    ensures k > 0 ==> start + (k - 1) * interval <= t
  {
    k := FirstIndex(start, interval, t);
    NextValue(start, interval, t);
    if t >= start { Quotient(t - start, interval); }
  }

  /** One interval of headroom is enough. */
  lemma HeadroomFits(start: int, interval: int, t: int)
    requires interval > 0
    ensures t - start + interval <= MAX_DURATION ==> Fits(start, interval, t)
  {
    if t >= start { Quotient(t - start, interval); }
  }

  /** A rate schedule that validation accepts, with an interval of at most
      106751 units, fires at least a minute apart and again after any instant. */
  lemma AcceptedRateFires(lib: Schedules.Libraries, instances: seq<Schedules.FaktoryInstance>, s: Schedules.Schedule,
                          start: int, t: int)
    requires s.kind == Schedules.Rate && Schedules.Accepted(lib, instances, s) && s.rateInterval <= 106_751
    ensures var interval := RateDuration(s.rateInterval, s.rateUnit);
      && interval >= 60_000_000_000
      && (t - start + interval <= 9_223_372_036_854_775_807 ==>
            Next(start, interval, t).Some? && FirstAfter(start, interval, t, Next(start, interval, t).value))
  {
    var interval := RateDuration(s.rateInterval, s.rateUnit);
    UnitsAre(s.rateInterval);
    HeadroomFits(start, interval, t);
    NextIsFirstAfter(start, interval, t);
  }

  // -------------------------------------------------------------- iteration

  /** The `n`th fire time when each is computed from the one before. */
  function Fire(start: int, interval: int, t: int, n: nat): Option<int> {
    if n == 0 then Next(start, interval, t)
    else match Fire(start, interval, t, n - 1)
      case None => None
      case Some(p) => Next(start, interval, p)
  }

  /** The index of the first grid point after `t`. */
  function FirstIndex(start: int, interval: int, t: int): nat
    requires interval > 0
  {
    if t < start then 0 else (t - start) / interval + 1
  }

  /** Iterating visits the grid points after `t` one by one, missing none. */
  lemma {:induction false} FiresInOrder(start: int, interval: int, t: int, n: nat)
    requires 0 < interval <= MAX_DURATION
    requires (FirstIndex(start, interval, t) + n) * interval <= MAX_DURATION
    ensures Fire(start, interval, t, n) == Some(GridPoint(start, interval, FirstIndex(start, interval, t) + n))
  {
    var k := FirstIndex(start, interval, t);
    if n == 0 {
      NextIsFirstAfter(start, interval, t);
      NextValue(start, interval, t);
    } else {
      Multiples(interval, k + n, k + n - 1);
      FiresInOrder(start, interval, t, n - 1);
      NextFromGrid(start, interval, k + n - 1);
    }
  }

  lemma NextValue(start: int, interval: int, t: int)
    requires 0 < interval <= MAX_DURATION && Fits(start, interval, t)
    ensures Next(start, interval, t) == Some(GridPoint(start, interval, FirstIndex(start, interval, t)))
  {
    NextIsFirstAfter(start, interval, t);
    if t >= start {
      GridAfter(start, interval, t);
      var p, q := Next(start, interval, t).value, GridPoint(start, interval, FirstIndex(start, interval, t));
      FirstAfterUnique(start, interval, t, p, q);
    }
  }

  lemma NextFromGrid(start: int, interval: int, k: nat)
    requires 0 < interval <= MAX_DURATION && (k + 1) * interval <= MAX_DURATION
    ensures Next(start, interval, GridPoint(start, interval, k)) == Some(GridPoint(start, interval, k + 1))
  {
    var p := GridPoint(start, interval, k);
    Multiples(interval, k, 0);
    assert (p - start) / interval == k by {
      Quotient(p - start, interval);
      var q := (p - start) / interval;
      if q < k { Multiples(interval, k, q); }
      if q > k { Multiples(interval, q, k); }
    }
    NextValue(start, interval, p);
  }

  /** Every grid point after `t` is some fire time. */
  lemma EveryPointFires(start: int, interval: int, t: int, k: nat)
    requires 0 < interval <= MAX_DURATION && k * interval <= MAX_DURATION
    requires GridPoint(start, interval, k) > t
    ensures FirstIndex(start, interval, t) <= k
    ensures Fire(start, interval, t, k - FirstIndex(start, interval, t)) == Some(GridPoint(start, interval, k))
  {
    var first := FirstIndex(start, interval, t);
    if t >= start {
      Quotient(t - start, interval);
      if k < first { Multiples(interval, first - 1, k); }
    }
    FiresInOrder(start, interval, t, k - first);
  }

  /** A restart between two fire times goes on with the later one. */
  lemma RestartRejoins(start: int, interval: int, t: int, n: nat, restart: int)
    requires 0 < interval <= MAX_DURATION
    requires (FirstIndex(start, interval, t) + n + 1) * interval <= MAX_DURATION
    requires Fire(start, interval, t, n).Some? && Fire(start, interval, t, n + 1).Some?
    requires Fire(start, interval, t, n).value <= restart < Fire(start, interval, t, n + 1).value
    ensures Next(start, interval, restart) == Fire(start, interval, t, n + 1)
  {
    var k := FirstIndex(start, interval, t) + n;
    Multiples(interval, k + 1, k);
    Multiples(interval, k, 0);
    FiresInOrder(start, interval, t, n);
    FiresInOrder(start, interval, t, n + 1);
    Quotient(restart - start, interval);
    var q := (restart - start) / interval;
    if q < k { Multiples(interval, k, q + 1); }
    if q > k { Multiples(interval, q, k + 1); }
    assert q == k;
    NextValue(start, interval, restart);
  }
}
