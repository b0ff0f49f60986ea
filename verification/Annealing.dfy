/** The power schedule: how an input's distance and the time passed set its score. */
module Annealing {
  import opened Constants

  // ---- The range of distances ----

  function Least(a: real, b: real): real { if a < b then a else b }

  function Greatest(a: real, b: real): real { if a > b then a else b }

  /** The distances of the queue's entries, and the range kept beside them. Distances that
      are not positive mean that no target was in reach. */
  class Distances {
    var entries: seq<real>
    var minDistance: real
    var maxDistance: real

    /** The range is exact: its ends are distances of entries, and all others lie between. */
    ghost predicate Valid()
      reads this
    {
      if maxDistance <= 0.0 then
        minDistance == maxDistance == -1.0 && forall i | 0 <= i < |entries| :: entries[i] <= 0.0
      else
        && 0.0 < minDistance && minDistance in entries && maxDistance in entries
        && forall i | 0 <= i < |entries| && entries[i] > 0.0 :: minDistance <= entries[i] <= maxDistance
    }

    constructor ()
      ensures Valid() && entries == []
    {
      entries, minDistance, maxDistance := [], -1.0, -1.0;
    }

    /** The update that adding an entry and calibrating one have in common. */
    method Widen(cur: real)
      modifies this`minDistance, this`maxDistance
      ensures cur <= 0.0 ==> minDistance == old(minDistance) && maxDistance == old(maxDistance)
      ensures cur > 0.0 && old(maxDistance) <= 0.0 ==> minDistance == maxDistance == cur
      ensures cur > 0.0 && old(maxDistance) > 0.0 ==>
                minDistance == Least(cur, old(minDistance)) && maxDistance == Greatest(cur, old(maxDistance))
    {
      if cur > 0.0 {
        if maxDistance <= 0.0 {
          maxDistance := cur;
          minDistance := cur;
        }
        if cur > maxDistance { maxDistance := cur; }
        if cur < minDistance { minDistance := cur; }
      }
    }

    method AddToQueue(cur: real)
      requires Valid()
      modifies this
      ensures Valid() && entries == old(entries) + [cur]
    {
      ghost var was := entries;
      entries := entries + [cur];
      assert entries[|was|] == cur;
      assert forall x <- was :: x in entries;
      Widen(cur);
    }

    /** Entries that came in another way get their distance when they are calibrated. */
    method Calibrate(i: nat, cur: real)
      requires Valid() && i < |entries|
      modifies this
      ensures Valid()
      ensures entries == if old(entries)[i] <= 0.0 then old(entries)[i := cur] else old(entries)
    {
      if entries[i] <= 0.0 {
        ghost var was := entries;
        entries := entries[i := cur];
        assert entries[i] == cur;
        forall x | x in was && x > 0.0 ensures x in entries {
          var j :| 0 <= j < |was| && was[j] == x;
          assert entries[j] == x;
        }
        Widen(cur);
      }
    }
  }

  // ---- Temperature ----

  datatype Schedule = Exponential | Logarithmic | Linear | Quadratic

  /** The library's functions, as far as the schedules rely on them. */
  datatype Library = Library(pow2: real -> real, pow20: real -> real, log: real -> real)

  ghost predicate IsLibrary(l: Library) {
    && (forall x, y :: x <= y ==> l.pow2(x) <= l.pow2(y))
    && l.pow2(0.0) == 1.0 && l.pow2(5.0) == 32.0 && l.pow2(-5.0) == 1.0 / 32.0 && l.pow2(-4.0) == 1.0 / 16.0
    && (forall x, y :: x <= y ==> l.pow20(x) <= l.pow20(y)) && l.pow20(0.0) == 1.0 && l.pow20(1.0) == 20.0
    && (forall x, y :: 0.0 < x <= y ==> l.log(x) <= l.log(y)) && l.log(1.0) == 0.0 && l.log(13359.7268297) == 9.5
  }

  const LOG_SCALE := 13358.7268297

  /** What the temperature is one over; `x` is the time passed in units of the time allowed. */
  function Heat(l: Library, s: Schedule, x: real): real {
    match s
    case Exponential => l.pow20(x)
    case Logarithmic => 1.0 + 2.0 * l.log(1.0 + x * LOG_SCALE)
    case Linear => 1.0 + 19.0 * x
    case Quadratic => 1.0 + 19.0 * (x * x)
  }

  lemma SquareMonotone(x: real, y: real)
    requires 0.0 <= x <= y
    ensures 0.0 <= x * x <= y * y
  {
  }

  lemma HeatGrows(l: Library, s: Schedule, x: real, y: real)
    requires IsLibrary(l) && 0.0 <= x <= y
    ensures 1.0 <= Heat(l, s, x) <= Heat(l, s, y)
  {
    SquareMonotone(x, y);
    if s.Logarithmic? {
      assert 1.0 <= 1.0 + x * LOG_SCALE <= 1.0 + y * LOG_SCALE;
    }
  }

  function Temperature(l: Library, s: Schedule, x: real): real
    requires Heat(l, s, x) != 0.0
  {
    1.0 / Heat(l, s, x)
  }

  lemma Reciprocal(a: real, b: real)
    requires 0.0 < a <= b
    ensures 0.0 < 1.0 / b <= 1.0 / a
  {
  }

  /** Every schedule starts at one and only cools down, never reaching zero. */
  lemma Cools(l: Library, s: Schedule, x: real, y: real)
    requires IsLibrary(l) && 0.0 <= x <= y
    ensures Heat(l, s, x) >= 1.0 && Heat(l, s, y) >= 1.0
    ensures 0.0 < Temperature(l, s, y) <= Temperature(l, s, x) <= 1.0
    ensures Temperature(l, s, 0.0) == 1.0
  {
    HeatGrows(l, s, x, y);
    HeatGrows(l, s, 0.0, x);
    Reciprocal(Heat(l, s, x), Heat(l, s, y));
    Reciprocal(1.0, Heat(l, s, x));
  }

  /** When the time is up, every schedule has cooled to one twentieth; halfway there the quadratic one
      is the warmer of the two polynomial ones. */
  lemma CooledAtTheEnd(l: Library, s: Schedule)
    requires IsLibrary(l)
    ensures Heat(l, s, 1.0) == 20.0 && Temperature(l, s, 1.0) == 0.05
    ensures Heat(l, Linear, 0.5) == 10.5 && Heat(l, Quadratic, 0.5) == 5.75
  {
    assert 1.0 + 1.0 * LOG_SCALE == 13359.7268297;
  }

  /** How they get there: in equal times the linear one gains equally, and the exponential one by
      equal factors; the quadratic one takes the square of the time, and the logarithmic one gains
      equally each time that the time, counted from a first bit of it, grows by the same factor. */
  lemma HowTheyCool(l: Library, x: real, y: real, z: real)
    requires l.pow20(x + y) == l.pow20(x) * l.pow20(y)
    requires (1.0 + x * 13358.7268297) * (1.0 + y * 13358.7268297) == 1.0 + z * 13358.7268297
    requires l.log(1.0 + z * 13358.7268297) == l.log(1.0 + x * 13358.7268297) + l.log(1.0 + y * 13358.7268297)
    ensures Heat(l, Exponential, x + y) == Heat(l, Exponential, x) * Heat(l, Exponential, y)
    ensures Heat(l, Logarithmic, z) - 1.0 == (Heat(l, Logarithmic, x) - 1.0) + (Heat(l, Logarithmic, y) - 1.0)
    ensures Heat(l, Linear, x + y) - Heat(l, Linear, x) == 19.0 * y
    ensures Heat(l, Quadratic, x) == Heat(l, Linear, x * x)
  {
  }

  // ---- The power factor ----

  function Normalized(d: real, lo: real, hi: real): real {
    if hi != lo then (d - lo) / (hi - lo) else 0.0
  }

  function P(n: real, t: real): real {
    (1.0 - n) * (1.0 - t) + 0.5 * t
  }

  function Power(l: Library, d: real, lo: real, hi: real, t: real): real {
    if d > 0.0 && Normalized(d, lo, hi) >= 0.0 then l.pow2(10.0 * (P(Normalized(d, lo, hi), t) - 0.5)) else 1.0
  }

  lemma NormalizedInUnit(d: real, lo: real, hi: real)
    requires lo <= d <= hi
    ensures 0.0 <= Normalized(d, lo, hi) <= 1.0
    ensures d == lo ==> Normalized(d, lo, hi) == 0.0
    ensures d == hi && lo < hi ==> Normalized(d, lo, hi) == 1.0
  {
    if hi != lo {
      Quotient(d - lo, hi - lo);
    }
  }

  lemma Quotient(a: real, b: real)
    requires 0.0 <= a <= b && b > 0.0
    ensures 0.0 <= a / b <= 1.0 && (a == b ==> a / b == 1.0) && (a == 0.0 ==> a / b == 0.0)
  {
  }

  lemma NormalizedGrows(d: real, e: real, lo: real, hi: real)
    requires lo <= d <= e <= hi
    ensures Normalized(d, lo, hi) <= Normalized(e, lo, hi)
  {
    if hi != lo {
      Divides(d - lo, e - lo, hi - lo);
    }
  }

  lemma Divides(a: real, b: real, c: real)
    requires a <= b && c > 0.0
    ensures a / c <= b / c
  {
  }

  lemma Products(a: real, b: real, c: real)
    requires a <= b && 0.0 <= c
    ensures a * c <= b * c
  {
  }

  lemma PInUnit(n: real, t: real)
    requires 0.0 <= n <= 1.0 && 0.0 <= t <= 1.0
    ensures 0.5 * t <= P(n, t) <= 1.0 - 0.5 * t
  {
    Products(0.0, 1.0 - n, 1.0 - t);
    Products(1.0 - n, 1.0, 1.0 - t);
  }

  lemma PFalls(n: real, m: real, t: real)
    requires n <= m && 0.0 <= t <= 1.0
    ensures P(m, t) <= P(n, t)
  {
    Products(1.0 - m, 1.0 - n, 1.0 - t);
  }

  /** The factor lies between 1/32 and 32 at every temperature, and it is 1 at the start. */
  lemma PowerBounds(l: Library, d: real, lo: real, hi: real, t: real)
    requires IsLibrary(l) && 0.0 <= t <= 1.0 && (d > 0.0 ==> lo <= d <= hi)
    ensures 1.0 / 32.0 <= Power(l, d, lo, hi, t) <= 32.0
    ensures t == 1.0 ==> Power(l, d, lo, hi, t) == 1.0
  {
    if d > 0.0 {
      NormalizedInUnit(d, lo, hi);
      PInUnit(Normalized(d, lo, hi), t);
      var e := 10.0 * (P(Normalized(d, lo, hi), t) - 0.5);
      assert -5.0 <= e <= 5.0;
      assert l.pow2(-5.0) <= l.pow2(e) <= l.pow2(5.0);
    }
  }

  /** The factor is a power of two between 2^5 at the closest and 2^-5 at the farthest distance, which
      the temperature takes back to one; inputs that reach no target, or are closer than the range
      says, have the factor one. */
  lemma PowerIs(l: Library, d: real, lo: real, hi: real, t: real)
    requires IsLibrary(l)
    ensures d <= 0.0 || d < lo < hi ==> Power(l, d, lo, hi, t) == 1.0
    ensures 0.0 < d && lo <= d <= hi && lo < hi ==>
              Power(l, d, lo, hi, t) == l.pow2((1.0 - t) * (5.0 - 10.0 * ((d - lo) / (hi - lo))))
    ensures 0.0 < d == lo == hi ==> Power(l, d, lo, hi, t) == l.pow2((1.0 - t) * 5.0)
  {
    var n := Normalized(d, lo, hi);
    Exponent(n, t);
    if d < lo < hi {
      Negative(d - lo, hi - lo);
    } else if lo <= d <= hi {
      NormalizedInUnit(d, lo, hi);
    }
  }

  lemma Exponent(n: real, t: real)
    ensures 10.0 * (P(n, t) - 0.5) == (1.0 - t) * (5.0 - 10.0 * n)
  {
    PByTemperature(n, t);
    ExpandExponent(n, t);
  }

  lemma ExpandExponent(n: real, t: real)
    ensures (1.0 - t) * (5.0 - 10.0 * n) == 10.0 * (0.5 - n - t * (0.5 - n))
  {
  }

  lemma Negative(a: real, b: real)
    requires a < 0.0 < b
    ensures a / b < 0.0
  {
  }

  /** The farther an input is from the targets, the less power it gets, at any temperature;
      the closest one never gets less than 1, the farthest never more. */
  lemma PowerFalls(l: Library, d: real, e: real, lo: real, hi: real, t: real)
    requires IsLibrary(l) && 0.0 <= t <= 1.0 && 0.0 < lo <= d <= e <= hi
    ensures Power(l, e, lo, hi, t) <= Power(l, d, lo, hi, t)
    ensures d == lo ==> Power(l, d, lo, hi, t) >= 1.0
    ensures e == hi && lo < hi ==> Power(l, e, lo, hi, t) <= 1.0
  {
    NormalizedInUnit(d, lo, hi);
    NormalizedInUnit(e, lo, hi);
    NormalizedGrows(d, e, lo, hi);
    PFalls(Normalized(d, lo, hi), Normalized(e, lo, hi), t);
    var x, y := 10.0 * (P(Normalized(d, lo, hi), t) - 0.5), 10.0 * (P(Normalized(e, lo, hi), t) - 0.5);
    assert l.pow2(y) <= l.pow2(x);
    if d == lo {
      assert x == 10.0 * (0.5 - 0.5 * t);
      assert l.pow2(0.0) <= l.pow2(x);
    }
    if e == hi && lo < hi {
      assert y == 10.0 * (0.5 * t - 0.5);
      assert l.pow2(y) <= l.pow2(0.0);
    }
  }

  /** As it gets colder the closer half gains power and the farther half loses it. */
  lemma CoolingSeparates(l: Library, d: real, lo: real, hi: real, cold: real, warm: real)
    requires IsLibrary(l) && 0.0 <= cold <= warm <= 1.0 && 0.0 < lo <= d <= hi
    ensures Normalized(d, lo, hi) <= 0.5 ==> Power(l, d, lo, hi, warm) <= Power(l, d, lo, hi, cold)
    ensures Normalized(d, lo, hi) >= 0.5 ==> Power(l, d, lo, hi, cold) <= Power(l, d, lo, hi, warm)
  {
    NormalizedInUnit(d, lo, hi);
    var n := Normalized(d, lo, hi);
    PCools(n, cold, warm);
    var x, y := 10.0 * (P(n, cold) - 0.5), 10.0 * (P(n, warm) - 0.5);
    assert (x <= y ==> l.pow2(x) <= l.pow2(y)) && (y <= x ==> l.pow2(y) <= l.pow2(x));
  }

  lemma PCools(n: real, cold: real, warm: real)
    requires cold <= warm
    ensures n <= 0.5 ==> P(n, warm) <= P(n, cold)
    ensures n >= 0.5 ==> P(n, cold) <= P(n, warm)
  {
    PByTemperature(n, cold);
    PByTemperature(n, warm);
    if n <= 0.5 {
      Products(cold, warm, 0.5 - n);
    } else {
      Products(cold, warm, n - 0.5);
    }
  }

  lemma PByTemperature(n: real, t: real)
    ensures P(n, t) == 1.0 - n - t * (0.5 - n)
  {
  }

  // ---- The score ----

  /** Assigning a real product back to an integer cuts off its fraction. */
  function Scaled(score: nat, factor: real): nat
    requires factor >= 0.0
  {
    Products(0.0, factor, score as real);
    (score as real * factor).Floor
  }

  function BySpeed(execUs: nat, avgUs: nat): nat {
    var e, a := execUs as real, avgUs as real;
    if e * 0.1 > a then 10
    else if e * 0.25 > a then 25
    else if e * 0.5 > a then 50
    else if e * 0.75 > a then 75
    else if e * 4.0 < a then 300
    else if e * 3.0 < a then 200
    else if e * 2.0 < a then 150
    else 100
  }

  function BySize(size: nat, avgSize: nat): real {
    var s, a := size as real, avgSize as real;
    if s * 0.3 > a then 3.0
    else if s * 0.5 > a then 2.0
    else if s * 0.75 > a then 1.5
    else if s * 3.0 < a then 0.25
    else if s * 2.0 < a then 0.5
    else if s * 1.5 < a then 0.75
    else 1.0
  }

  function ByHandicap(handicap: nat): nat {
    if handicap >= 4 then 4 else if handicap > 0 then 2 else 1
  }

  function ByDepth(depth: nat): nat {
    if depth <= 3 then 1 else if depth <= 7 then 2 else if depth <= 13 then 3 else if depth <= 25 then 4 else 5
  }

  /** A factor by speed: each bound is a multiple of the average. */
  ghost predicate SpeedIs(v: nat, e: nat, a: nat) {
    && v in {10, 25, 50, 75, 100, 150, 200, 300}
    && (v >= 25 <==> e <= 10 * a) && (v >= 50 <==> e <= 4 * a) && (v >= 75 <==> e <= 2 * a)
    && (v >= 100 <==> 3 * e <= 4 * a)
    && (v >= 150 <==> 2 * e < a) && (v >= 200 <==> 3 * e < a) && (v >= 300 <==> 4 * e < a)
  }

  /** A factor by size of the trace. */
  ghost predicate SizeIs(v: real, s: nat, a: nat) {
    && v in {0.25, 0.5, 0.75, 1.0, 1.5, 2.0, 3.0}
    && (v >= 0.5 <==> a <= 3 * s) && (v >= 0.75 <==> a <= 2 * s) && (v >= 1.0 <==> 2 * a <= 3 * s)
    && (v >= 1.5 <==> 3 * s > 4 * a) && (v >= 2.0 <==> s > 2 * a) && (v >= 3.0 <==> 3 * s > 10 * a)
  }

  ghost predicate HandicapIs(v: nat, handicap: nat) {
    v in {1, 2, 4} && (v >= 2 <==> handicap >= 1) && (v >= 4 <==> handicap >= 4)
  }

  ghost predicate DepthIs(v: nat, depth: nat) {
    1 <= v <= 5 && (v >= 2 <==> depth >= 4) && (v >= 3 <==> depth >= 8) && (v >= 4 <==> depth >= 14)
    && (v >= 5 <==> depth >= 26)
  }

  lemma Factors(e: nat, a: nat, size: nat, avg: nat, handicap: nat, depth: nat)
    ensures SpeedIs(BySpeed(e, a), e, a) && SizeIs(BySize(size, avg), size, avg)
    ensures HandicapIs(ByHandicap(handicap), handicap) && DepthIs(ByDepth(depth), depth)
  {
  }

  function Product(speed: nat, size: real, late: nat, deep: nat): nat
    requires size >= 0.0
  {
    Scaled(speed, size) * late * deep
  }

  class Entry {
    var execUs: nat
    var bitmapSize: nat
    var handicap: nat
    var depth: nat
    var distance: real

    /** The score before distance comes in. */
    function Base(avgUs: nat, avgSize: nat): nat
      reads this
    {
      Product(BySpeed(execUs, avgUs), BySize(bitmapSize, avgSize), ByHandicap(handicap), ByDepth(depth))
    }

    method CalculateScore(avgUs: nat, avgSize: nat, lo: real, hi: real, l: Library, s: Schedule, x: real)
        returns (score: nat)
      requires IsLibrary(l) && x >= 0.0 && (distance > 0.0 ==> lo <= distance <= hi)
      modifies this`handicap
      ensures score == Score(l, s, x, old(Base(avgUs, avgSize)), distance, lo, hi) <= 1600
      ensures old(Base(avgUs, avgSize)) >= 32 ==> score >= 1
      ensures handicap == if old(handicap) >= 4 then old(handicap) - 4
                          else if old(handicap) > 0 then old(handicap) - 1 else 0
    {
      var perf := BaseScore(avgUs, avgSize);
      Cools(l, s, 0.0, x);
      var t := Temperature(l, s, x);
      PowerBounds(l, distance, lo, hi, t);
      ScoreVanishes(l, s, x, perf, distance, lo, hi);
      var factor := PowerFactor(lo, hi, l, t);
      score := Scaled(perf, factor);
      if score > HAVOC_MAX_MULT * 100 {
        score := HAVOC_MAX_MULT * 100;
      }
    }

    method BaseScore(avgUs: nat, avgSize: nat) returns (perf: nat)
      modifies this`handicap
      ensures perf == old(Base(avgUs, avgSize))
      ensures handicap == if old(handicap) >= 4 then old(handicap) - 4
                          else if old(handicap) > 0 then old(handicap) - 1 else 0
    {
      perf := Scaled(BySpeed(execUs, avgUs), BySize(bitmapSize, avgSize));
      if handicap >= 4 {
        perf := perf * 4;
        handicap := handicap - 4;
      } else if handicap > 0 {
        perf := perf * 2;
        handicap := handicap - 1;
      }
      if 4 <= depth <= 7 {
        perf := perf * 2;
      } else if 8 <= depth <= 13 {
        perf := perf * 3;
      } else if 14 <= depth <= 25 {
        perf := perf * 4;
      } else if depth > 25 {
        perf := perf * 5;
      }
    }

    method PowerFactor(lo: real, hi: real, l: Library, t: real) returns (factor: real)
      ensures factor == Power(l, distance, lo, hi, t)
    {
      factor := 1.0;
      if distance > 0.0 {
        var normalized := 0.0;
        if hi != lo {
          normalized := (distance - lo) / (hi - lo);
        }
        if normalized >= 0.0 {
          var p := (1.0 - normalized) * (1.0 - t) + 0.5 * t;
          assert normalized == Normalized(distance, lo, hi) && p == P(normalized, t);
          factor := l.pow2(10.0 * (p - 0.5));
        }
      }
    }
  }

  function Capped(n: nat): nat {
    if n > HAVOC_MAX_MULT * 100 then HAVOC_MAX_MULT * 100 else n
  }

  lemma ProductBounds(speed: nat, size: real, late: nat, deep: nat)
    requires 10 <= speed <= 300 && 0.25 <= size <= 3.0 && 1 <= late <= 4 && 1 <= deep <= 5
    ensures 2 <= Product(speed, size, late, deep) <= 18000
  {
    var a := Scaled(speed, size);
    ScaledBounds(speed, size);
    TimesAtMost(a, late, 900, 4);
    TimesAtMost(a * late, deep, 3600, 5);
  }

  lemma ScaledBounds(speed: nat, size: real)
    requires 10 <= speed <= 300 && 0.25 <= size <= 3.0
    ensures 2 <= Scaled(speed, size) <= 900
  {
    Products(0.25, size, speed as real);
    Products(size, 3.0, speed as real);
    assert 2.5 <= 0.25 * speed as real <= size * speed as real == speed as real * size;
    assert size * speed as real <= 3.0 * speed as real <= 900.0;
    Floors(2.5, speed as real * size);
    Floors(speed as real * size, 900.0);
  }

  lemma FactorsOf(e: Entry, avgUs: nat, avgSize: nat) returns (speed: nat, size: real, late: nat, deep: nat)
    ensures SpeedIs(speed, e.execUs, avgUs) && SizeIs(size, e.bitmapSize, avgSize)
    ensures HandicapIs(late, e.handicap) && DepthIs(deep, e.depth)
    ensures e.Base(avgUs, avgSize) == Product(speed, size, late, deep)
  {
    speed, size := BySpeed(e.execUs, avgUs), BySize(e.bitmapSize, avgSize);
    late, deep := ByHandicap(e.handicap), ByDepth(e.depth);
    Factors(e.execUs, avgUs, e.bitmapSize, avgSize, e.handicap, e.depth);
  }

  /** The score before distance comes in is the product of four factors, with the fraction cut off
      after the second. No intermediate value comes near the limit of 32 bits, and none vanishes
      before the last step: there it can. */
  lemma BaseBounds(e: Entry, avgUs: nat, avgSize: nat) returns (speed: nat, size: real, late: nat, deep: nat)
    ensures SpeedIs(speed, e.execUs, avgUs) && SizeIs(size, e.bitmapSize, avgSize)
    ensures HandicapIs(late, e.handicap) && DepthIs(deep, e.depth)
    ensures e.Base(avgUs, avgSize) == (speed as real * size).Floor * late * deep
    ensures 2 <= e.Base(avgUs, avgSize) <= 18000
  {
    speed, size, late, deep := FactorsOf(e, avgUs, avgSize);
    FactorsRange(speed, size, late, deep, e, avgUs, avgSize);
    ProductBounds(speed, size, late, deep);
  }

  lemma FactorsRange(speed: nat, size: real, late: nat, deep: nat, e: Entry, avgUs: nat, avgSize: nat)
    requires SpeedIs(speed, e.execUs, avgUs) && SizeIs(size, e.bitmapSize, avgSize)
    requires HandicapIs(late, e.handicap) && DepthIs(deep, e.depth)
    ensures 10 <= speed <= 300 && 0.25 <= size <= 3.0 && 1 <= late <= 4 && 1 <= deep <= 5
  {
  }

  /** A faster, larger-trace, later or deeper entry never starts from less. */
  lemma BetterStartsNoLess(e: Entry, f: Entry, avgUs: nat, avgSize: nat)
    requires f.execUs <= e.execUs && e.bitmapSize <= f.bitmapSize && e.handicap <= f.handicap && e.depth <= f.depth
    ensures e.Base(avgUs, avgSize) <= f.Base(avgUs, avgSize)
  {
    var v, z, h, d := FactorsOf(e, avgUs, avgSize);
    var w, y, k, c := FactorsOf(f, avgUs, avgSize);
    FactorsRange(v, z, h, d, e, avgUs, avgSize);
    SpeedGrows(v, w, e.execUs, f.execUs, avgUs);
    SizeGrows(z, y, e.bitmapSize, f.bitmapSize, avgSize);
    ProductGrows(v, z, h, d, w, y, k, c);
  }

  lemma SpeedGrows(v: nat, w: nat, e: nat, f: nat, a: nat)
    requires f <= e && SpeedIs(v, e, a) && SpeedIs(w, f, a)
    ensures v <= w
  {
  }

  lemma SizeGrows(v: real, w: real, s: nat, t: nat, a: nat)
    requires s <= t && SizeIs(v, s, a) && SizeIs(w, t, a)
    ensures v <= w
  {
  }

  lemma ProductGrows(v: nat, z: real, h: nat, d: nat, w: nat, y: real, k: nat, c: nat)
    requires v <= w && 0.0 <= z <= y && h <= k && d <= c
    ensures Product(v, z, h, d) <= Product(w, y, k, c)
  {
    ScaledBothGrow(v, z, w, y);
    TimesGrows(Scaled(v, z), Scaled(w, y), h, k);
    TimesGrows(Scaled(v, z) * h, Scaled(w, y) * k, d, c);
  }

  lemma ScaledBothGrow(v: nat, z: real, w: nat, y: real)
    requires v <= w && 0.0 <= z <= y
    ensures Scaled(v, z) <= Scaled(w, y)
  {
    var a, b := v as real, w as real;
    BothGrow(a, b, z, y);
    Floors(a * z, b * y);
  }

  lemma BothGrow(a: real, b: real, z: real, y: real)
    requires 0.0 <= a <= b && 0.0 <= z <= y
    ensures a * z <= b * y
  {
    Products(a, b, z);
    Products(z, y, b);
    Commutes(z, b);
    Commutes(y, b);
  }

  lemma Commutes(a: real, b: real)
    ensures a * b == b * a
  {
  }

  lemma TimesGrows(a: nat, b: nat, c: nat, d: nat)
    requires a <= b && c <= d
    ensures a * c <= b * d
  {
    assert a * c <= b * c <= b * d;
  }

  lemma TimesAtMost(a: nat, b: nat, x: nat, y: nat)
    requires 2 <= a <= x && 1 <= b <= y
    ensures 2 <= a * b <= x * y
  {
  }

  /** The score of an entry from its score before distance comes in. */
  function Score(l: Library, s: Schedule, x: real, base: nat, d: real, lo: real, hi: real): nat
    requires IsLibrary(l) && x >= 0.0 && (d > 0.0 ==> lo <= d <= hi)
  {
    Cools(l, s, 0.0, x);
    PowerBounds(l, d, lo, hi, Temperature(l, s, x));
    Capped(Scaled(base, Power(l, d, lo, hi, Temperature(l, s, x))))
  }

  /** The score is the base times the factor with the fraction cut off, unless the cap of 1600 stops
      it. */
  lemma ScoreIs(l: Library, s: Schedule, x: real, base: nat, d: real, lo: real, hi: real)
    requires IsLibrary(l) && x >= 0.0 && (d > 0.0 ==> lo <= d <= hi)
    ensures Heat(l, s, x) >= 1.0
    ensures var score := Score(l, s, x, base, d, lo, hi);
            var exact := base as real * Power(l, d, lo, hi, Temperature(l, s, x));
            if exact >= 1600.0 then score == 1600 else score as real <= exact < score as real + 1.0
  {
    Cools(l, s, 0.0, x);
    PowerBounds(l, d, lo, hi, Temperature(l, s, x));
  }

  lemma ScaledVanishes(base: nat, f: real)
    requires f >= 0.0
    ensures Scaled(base, f) == 0 <==> base as real * f < 1.0
  {
  }

  lemma ScaledAtLeast(base: nat, f: real, g: real, n: nat)
    requires 0.0 <= f <= g && base as real * f >= n as real
    ensures Scaled(base, g) >= n
  {
    Products(f, g, base as real);
    assert base as real * f == f * base as real && base as real * g == g * base as real;
    Floors(n as real, base as real * g);
  }

  /** When an entry ends up with no score at all: exactly if its factor takes it below one. That
      needs a score below 32 before, and an entry in the farther half of the range. */
  lemma ScoreVanishes(l: Library, s: Schedule, x: real, base: nat, d: real, lo: real, hi: real)
    requires IsLibrary(l) && x >= 0.0 && (d > 0.0 ==> lo <= d <= hi)
    ensures Heat(l, s, x) >= 1.0 && Power(l, d, lo, hi, Temperature(l, s, x)) >= 0.0
    ensures Score(l, s, x, base, d, lo, hi) == 0 <==> base as real * Power(l, d, lo, hi, Temperature(l, s, x)) < 1.0
    ensures base >= 32 ==> Score(l, s, x, base, d, lo, hi) >= 1
    ensures base >= 1 && (d <= 0.0 || (0.0 < lo && Normalized(d, lo, hi) <= 0.5)) ==>
              Score(l, s, x, base, d, lo, hi) >= 1
  {
    Cools(l, s, 0.0, x);
    var t := Temperature(l, s, x);
    PowerBounds(l, d, lo, hi, t);
    var f := Power(l, d, lo, hi, t);
    ScaledVanishes(base, f);
    if base >= 32 {
      ScaledAtLeast(base, 1.0 / 32.0, f, 1);
    }
    if base >= 1 && (d <= 0.0 || (0.0 < lo && Normalized(d, lo, hi) <= 0.5)) {
      if d > 0.0 {
        CoolingSeparates(l, d, lo, hi, t, 1.0);
        PowerBounds(l, d, lo, hi, 1.0);
      }
      ScaledAtLeast(base, 1.0, f, 1);
    }
  }

  /** The farthest entry, when the time is up. */
  lemma FarthestAtTheEnd(l: Library, d: real, lo: real)
    requires IsLibrary(l) && 0.0 < lo < d
    ensures Heat(l, Linear, 1.0) == 20.0 && Power(l, d, lo, d, Temperature(l, Linear, 1.0)) <= 1.0 / 16.0
  {
    NormalizedInUnit(d, lo, d);
    var t := Temperature(l, Linear, 1.0);
    assert t == 0.05 && P(1.0, t) == 0.025 && 10.0 * (P(1.0, t) - 0.5) == -4.75;
    assert l.pow2(-4.75) <= l.pow2(-4.0);
  }

  /** Then it vanishes from any score below 16. */
  lemma FarthestVanishes(l: Library, base: nat, d: real, lo: real)
    requires IsLibrary(l) && 0.0 < lo < d && base < 16
    ensures Score(l, Linear, 1.0, base, d, lo, d) == 0
  {
    FarthestAtTheEnd(l, d, lo);
    ScoreVanishes(l, Linear, 1.0, base, d, lo, d);
    var f := Power(l, d, lo, d, Temperature(l, Linear, 1.0));
    Products(f, 1.0 / 16.0, base as real);
    assert base as real * f == f * base as real <= 1.0 / 16.0 * base as real < 1.0;
  }

  /** So it goes with an entry that runs for a thousand times the average. */
  method ScoreMayVanish(l: Library) returns (score: nat)
    requires IsLibrary(l)
    ensures score == 0
  {
    var e := new Entry;
    e.execUs, e.bitmapSize, e.handicap, e.depth, e.distance := 1000, 1, 0, 0, 2.0;
    assert e.Base(1, 1) == 10;
    FarthestVanishes(l, 10, 2.0, 1.0);
    score := e.CalculateScore(1, 1, 1.0, 2.0, l, Linear, 1.0);
  }

  /** Of two inputs that differ only in distance, the closer one never scores less. */
  lemma CloserScoresNoLess(l: Library, base: nat, d: real, e: real, lo: real, hi: real, t: real)
    requires IsLibrary(l) && 0.0 <= t <= 1.0 && 0.0 < lo <= d <= e <= hi
    ensures Power(l, d, lo, hi, t) > 0.0 && Power(l, e, lo, hi, t) > 0.0
    ensures Capped(Scaled(base, Power(l, e, lo, hi, t))) <= Capped(Scaled(base, Power(l, d, lo, hi, t)))
  {
    PowerBounds(l, d, lo, hi, t);
    PowerBounds(l, e, lo, hi, t);
    PowerFalls(l, d, e, lo, hi, t);
    ScaledGrows(base, Power(l, e, lo, hi, t), Power(l, d, lo, hi, t));
  }

  lemma ScaledGrows(base: nat, f: real, g: real)
    requires 0.0 <= f <= g
    ensures Scaled(base, f) <= Scaled(base, g)
  {
    var b := base as real;
    Products(f, g, b);
    assert b * f == f * b && b * g == g * b;
    Floors(b * f, b * g);
  }

  lemma Floors(x: real, y: real)
    requires x <= y
    ensures x.Floor <= y.Floor
  {
  }

  /** At the very start distance plays no part. */
  lemma DistanceIgnoredAtFirst(l: Library, s: Schedule, base: nat, d: real, lo: real, hi: real)
    requires IsLibrary(l) && (d > 0.0 ==> lo <= d <= hi)
    ensures Heat(l, s, 0.0) == 1.0 && Power(l, d, lo, hi, Temperature(l, s, 0.0)) == 1.0
    ensures Scaled(base, Power(l, d, lo, hi, Temperature(l, s, 0.0))) == base
  {
    Cools(l, s, 0.0, 0.0);
    PowerBounds(l, d, lo, hi, 1.0);
  }
}
