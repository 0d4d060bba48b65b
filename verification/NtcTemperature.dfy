/** The NTC lookup of applications/normal_calc.c: binary search over a knot
    table and linear interpolation, over reals. */
module NtcTemperature {

  datatype Knot = Knot(temp: real, res: real)

  const NTC_V_REF: real := 3.3
  const R_SERIES: real := 10000.0

  /** tempLookupTable */
  const LOOKUP: seq<Knot> := [
    Knot(-40.0, 197390.0), Knot(-30.0, 114340.0), Knot(-20.0, 68915.0), Knot(-10.0, 42889.0),
    Knot(0.0, 32116.0), Knot(25.0, 10000.0), Knot(30.0, 8047.0), Knot(35.0, 6523.0),
    Knot(40.0, 5318.0), Knot(45.0, 4357.0), Knot(50.0, 3588.0), Knot(60.0, 2466.0),
    Knot(75.0, 1452.0), Knot(90.0, 890.0), Knot(100.0, 657.0)
  ]

  /** At least two knots, resistance strictly falling, temperature strictly rising. */
  ghost predicate Table(t: seq<Knot>) {
    && |t| >= 2
    && forall i :: 0 <= i < |t| - 1 ==> t[i].res > t[i + 1].res && t[i].temp < t[i + 1].temp
  }

  lemma LookupIsTable()
    ensures Table(LOOKUP)
  {
  }

  lemma {:induction false} Falling(t: seq<Knot>, i: nat, j: nat)
    requires Table(t) && i < j < |t|
    ensures t[i].res > t[j].res && t[i].temp < t[j].temp
    decreases j
  {
    if i < j - 1 { Falling(t, i, j - 1); }
  }

  lemma FallingEq(t: seq<Knot>, i: nat, j: nat)
    requires Table(t) && i <= j < |t|
    ensures t[i].res >= t[j].res && t[i].temp <= t[j].temp
  {
    if i < j { Falling(t, i, j); }
  }

  function Interpolate(x: real, x1: real, y1: real, x2: real, y2: real): real
    requires x1 != x2
  {
    y1 + (y2 - y1) * (x - x1) / (x2 - x1)
  }

  predicate Brackets(t: seq<Knot>, i: nat, r: real)
    requires i + 1 < |t|
  {
    t[i].res >= r && t[i + 1].res <= r
  }

  /** The line through knots i and i+1. */
  function Segment(t: seq<Knot>, i: nat, r: real): real
    requires i + 1 < |t| && t[i].res != t[i + 1].res
  {
    Interpolate(r, t[i].res, t[i].temp, t[i + 1].res, t[i + 1].temp)
  }

  /** The sequential scan kept in the source as the slow version, from knot i. */
  function ScanFrom(t: seq<Knot>, r: real, i: nat): real
    requires Table(t) && i < |t|
    decreases |t| - i
  {
    if i == |t| - 1 then (if r >= t[0].res then t[0].temp else t[|t| - 1].temp)
    else if Brackets(t, i, r) then Segment(t, i, r)
    else ScanFrom(t, r, i + 1)
  }

  function SequentialEstimate(t: seq<Knot>, r: real): real
    requires Table(t)
  {
    ScanFrom(t, r, 0)
  }

  // --- One segment -----------------------------------------------------------------

  lemma NonPositiveProduct(q: real, d: real)
    requires q <= 0.0 && d > 0.0
    ensures q * d <= 0.0
  {
  }

  lemma NonZeroProduct(a: real, c: real)
    requires a != 0.0 && c != 0.0
    ensures a * c != 0.0
  {
  }

  lemma Quotient(a: real, b: real, d: real)
    requires d > 0.0
    ensures a < b ==> a / d < b / d
    ensures d / d == 1.0 && 0.0 / d == 0.0
  {
    if a < b {
      var q := b / d - a / d;
      assert q * d == b - a;
      if q <= 0.0 { NonPositiveProduct(q, d); }
    }
  }

  /** The line as a fraction of the way from the lower to the higher resistance. */
  lemma InterpolateFraction(x: real, x1: real, y1: real, x2: real, y2: real)
    requires x1 > x2
    ensures Interpolate(x, x1, y1, x2, y2) == y1 + (y2 - y1) * ((x1 - x) / (x1 - x2))
  {
    var f := (x1 - x) / (x1 - x2);
    assert f * (x1 - x2) == x1 - x;
    var k := (y2 - y1) * (x - x1) / (x2 - x1);
    assert k * (x2 - x1) == (y2 - y1) * (x - x1);
    assert (y2 - y1) * f * (x2 - x1) == (y2 - y1) * (x - x1) by {
      assert f * (x2 - x1) == x - x1;
      assert (y2 - y1) * (f * (x2 - x1)) == (y2 - y1) * f * (x2 - x1);
    }
    CancelFactor(k, (y2 - y1) * f, x2 - x1);
  }

  lemma CancelFactor(a: real, b: real, c: real)
    requires c != 0.0 && a * c == b * c
    ensures a == b
  {
    assert (a - b) * c == 0.0;
    if a != b { NonZeroProduct(a - b, c); }
  }

  lemma Product(k: real, a: real, b: real)
    requires k > 0.0 && a < b
    ensures k * a < k * b
  {
    assert k * (b - a) > 0.0;
  }

  /** Within a segment a higher resistance means a strictly lower temperature. */
  lemma SegmentStrict(t: seq<Knot>, i: nat, r1: real, r2: real)
    requires Table(t) && i + 1 < |t| && r1 < r2
    ensures Segment(t, i, r1) > Segment(t, i, r2)
  {
    var x1, y1, x2, y2 := t[i].res, t[i].temp, t[i + 1].res, t[i + 1].temp;
    hide Interpolate;
    InterpolateFraction(r1, x1, y1, x2, y2);
    InterpolateFraction(r2, x1, y1, x2, y2);
    Quotient(x1 - r2, x1 - r1, x1 - x2);
    Product(y2 - y1, (x1 - r2) / (x1 - x2), (x1 - r1) / (x1 - x2));
  }

  /** A segment is a straight line: temperature differences are in proportion to
      resistance differences. */
  lemma SegmentIsLine(t: seq<Knot>, i: nat, r1: real, r2: real)
    requires Table(t) && i + 1 < |t|
    ensures (Segment(t, i, r2) - Segment(t, i, r1)) * (t[i + 1].res - t[i].res)
         == (t[i + 1].temp - t[i].temp) * (r2 - r1)
  {
    var x1, y1, x2, y2 := t[i].res, t[i].temp, t[i + 1].res, t[i + 1].temp;
    LineProduct(r1, x1, y1, x2, y2);
    LineProduct(r2, x1, y1, x2, y2);
    hide Interpolate;
    assert (y2 - y1) * (r2 - x1) - (y2 - y1) * (r1 - x1) == (y2 - y1) * (r2 - r1);
  }

  lemma LineProduct(x: real, x1: real, y1: real, x2: real, y2: real)
    requires x1 != x2
    ensures (Interpolate(x, x1, y1, x2, y2) - y1) * (x2 - x1) == (y2 - y1) * (x - x1)
  {
    var k := (y2 - y1) * (x - x1) / (x2 - x1);
    assert k * (x2 - x1) == (y2 - y1) * (x - x1);
  }

  lemma SegmentEnds(t: seq<Knot>, i: nat)
    requires Table(t) && i + 1 < |t|
    ensures Segment(t, i, t[i].res) == t[i].temp
    ensures Segment(t, i, t[i + 1].res) == t[i + 1].temp
  {
    var x1, y1, x2, y2 := t[i].res, t[i].temp, t[i + 1].res, t[i + 1].temp;
    InterpolateFraction(x1, x1, y1, x2, y2);
    InterpolateFraction(x2, x1, y1, x2, y2);
    Quotient(0.0, 0.0, x1 - x2);
    hide Interpolate;
    assert (y2 - y1) * 0.0 == 0.0;
    assert (y2 - y1) * 1.0 == y2 - y1;
  }

  lemma SegmentRange(t: seq<Knot>, i: nat, r: real)
    requires Table(t) && i + 1 < |t| && Brackets(t, i, r)
    ensures t[i].temp <= Segment(t, i, r) <= t[i + 1].temp
    ensures r < t[i].res ==> t[i].temp < Segment(t, i, r)
    ensures r > t[i + 1].res ==> Segment(t, i, r) < t[i + 1].temp
  {
    hide Segment;
    SegmentEnds(t, i);
    if r < t[i].res { SegmentStrict(t, i, r, t[i].res); }
    if r > t[i + 1].res { SegmentStrict(t, i, t[i + 1].res, r); }
  }

  // --- The scan does not depend on which bracket is chosen ------------------------------

  predicate InTable(t: seq<Knot>, r: real)
    requires |t| >= 2
  {
    t[|t| - 1].res <= r <= t[0].res
  }

  lemma {:induction false} ScanBracket(t: seq<Knot>, r: real, from: nat, i: nat)
    requires Table(t) && from <= i && i + 1 < |t| && Brackets(t, i, r)
    ensures ScanFrom(t, r, from) == Segment(t, i, r)
    decreases |t| - from
  {
    hide Segment;
    if Brackets(t, from, r) && from < i {
      // r is the resistance of both knot from+1 and knot i, so they are the same
      FallingEq(t, from + 1, i);
      if from + 1 < i { Falling(t, from + 1, i); }
      SegmentEnds(t, from);
      SegmentEnds(t, i);
    } else if from < i {
      ScanBracket(t, r, from + 1, i);
    }
  }

  /** The scan takes the line of any segment that brackets r: where two do, at a
      knot, they agree. */
  lemma AnyBracketServes(t: seq<Knot>, r: real, i: nat)
    requires Table(t) && i + 1 < |t| && Brackets(t, i, r)
    ensures SequentialEstimate(t, r) == Segment(t, i, r)
  {
    hide Segment;
    ScanBracket(t, r, 0, i);
  }

  lemma {:induction false} ScanOutside(t: seq<Knot>, r: real, i: nat)
    requires Table(t) && i < |t| && !InTable(t, r)
    ensures ScanFrom(t, r, i) == if r >= t[0].res then t[0].temp else t[|t| - 1].temp
    decreases |t| - i
  {
    hide Segment;
    if i < |t| - 1 {
      FallingEq(t, 0, i);
      FallingEq(t, i + 1, |t| - 1);
      ScanOutside(t, r, i + 1);
    }
  }

  lemma {:induction false} SomeBracket(t: seq<Knot>, r: real, lo: nat, hi: nat) returns (i: nat)
    requires Table(t) && lo < hi < |t| && t[lo].res >= r && t[hi].res <= r
    ensures lo <= i < hi && Brackets(t, i, r)
    decreases hi - lo
  {
    if t[lo + 1].res <= r { i := lo; } else { i := SomeBracket(t, r, lo + 1, hi); }
  }

  // --- The fast version ---------------------------------------------------------------------

  /** binarySearch: terminates, and brackets every resistance in the table. */
  method BinarySearch(t: seq<Knot>, target: real) returns (i: nat)
    requires Table(t)
    ensures i + 1 < |t|
    ensures if InTable(t, target) then Brackets(t, i, target) else i == 0
  {
    i := 0;
    var left, right := 0, |t| - 2;
    while left <= right
      invariant 0 <= left <= right + 1 <= |t| - 1
      invariant i == 0
      invariant InTable(t, target) ==> left == 0 || t[left].res > target
      invariant InTable(t, target) ==> right == |t| - 2 || t[right + 1].res < target
      decreases right - left + 1
    {
      var mid := left + (right - left) / 2;
      var current := t[mid].res;
      var next := t[mid + 1].res;
      FallingEq(t, 0, mid);
      FallingEq(t, mid + 1, |t| - 1);
      if current >= target && next <= target {
        return mid;
      } else if current < target {
        right := mid - 1;
      } else {
        left := mid + 1;
      }
    }
  }

  /** EstimateTemperature: the fast version equals the sequential scan, for every
      table and every resistance. */
  method EstimateTemperature(t: seq<Knot>, resistance: real) returns (temp: real)
    requires Table(t)
    ensures temp == SequentialEstimate(t, resistance)
  {
    hide Segment, Brackets;
    if resistance >= t[0].res {
      ColdEnd(t, resistance);
      return t[0].temp;
    }
    if resistance <= t[|t| - 1].res {
      HotEnd(t, resistance);
      return t[|t| - 1].temp;
    }
    var index := BinarySearch(t, resistance);
    AnyBracketServes(t, resistance, index);
    SegmentIs(t, index, resistance);
    temp := Interpolate(resistance, t[index].res, t[index].temp, t[index + 1].res, t[index + 1].temp);
  }

  lemma SegmentIs(t: seq<Knot>, i: nat, r: real)
    requires Table(t) && i + 1 < |t|
    ensures Segment(t, i, r) == Interpolate(r, t[i].res, t[i].temp, t[i + 1].res, t[i + 1].temp)
  {
  }

  lemma ColdEnd(t: seq<Knot>, r: real)
    requires Table(t) && r >= t[0].res
    ensures SequentialEstimate(t, r) == t[0].temp
  {
    hide Segment;
    if r == t[0].res {
      FallingEq(t, 0, 1);
      AnyBracketServes(t, r, 0);
      SegmentEnds(t, 0);
    } else {
      ScanOutside(t, r, 0);
    }
  }

  lemma HotEnd(t: seq<Knot>, r: real)
    requires Table(t) && r <= t[|t| - 1].res
    ensures SequentialEstimate(t, r) == t[|t| - 1].temp
  {
    hide Segment;
    var n := |t| - 2;
    Falling(t, 0, n + 1);
    if r == t[n + 1].res {
      AnyBracketServes(t, r, n);
      SegmentEnds(t, n);
    } else {
      ScanOutside(t, r, 0);
    }
  }

  // --- What the estimate is ---------------------------------------------------------------------

  /** The table itself is reproduced exactly. */
  lemma ExactAtKnots(t: seq<Knot>, k: nat)
    requires Table(t) && k < |t|
    ensures SequentialEstimate(t, t[k].res) == t[k].temp
  {
    hide Segment;
    if k == 0 { ColdEnd(t, t[0].res); } else {
      AnyBracketServes(t, t[k].res, k - 1);
      SegmentEnds(t, k - 1);
    }
  }

  /** The estimate never leaves the temperature range of the table. */
  lemma Bounded(t: seq<Knot>, r: real)
    requires Table(t)
    ensures t[0].temp <= SequentialEstimate(t, r) <= t[|t| - 1].temp
  {
    hide Segment;
    Falling(t, 0, |t| - 1);
    if InTable(t, r) {
      var i := SomeBracket(t, r, 0, |t| - 1);
      AnyBracketServes(t, r, i);
      SegmentRange(t, i, r);
      FallingEq(t, 0, i);
      FallingEq(t, i + 1, |t| - 1);
    } else {
      ScanOutside(t, r, 0);
    }
  }

  /** Inside the table, across any segment boundaries, a higher resistance means
      a strictly lower temperature. */
  lemma StrictInside(t: seq<Knot>, r1: real, r2: real)
    requires Table(t) && InTable(t, r1) && InTable(t, r2) && r1 < r2
    ensures SequentialEstimate(t, r1) > SequentialEstimate(t, r2)
  {
    hide Segment;
    var i := SomeBracket(t, r2, 0, |t| - 1);
    var j := SomeBracket(t, r1, 0, |t| - 1);
    AnyBracketServes(t, r2, i);
    AnyBracketServes(t, r1, j);
    if i == j {
      SegmentStrict(t, i, r1, r2);
    } else {
      if j < i { FallingEq(t, j + 1, i); } else { FallingEq(t, i + 1, j); }
      SegmentRange(t, i, r2);
      SegmentRange(t, j, r1);
      if i + 1 < j { Falling(t, i + 1, j); }
    }
  }

  /** For all resistances a higher one never means a higher temperature. */
  lemma Antitone(t: seq<Knot>, r1: real, r2: real)
    requires Table(t) && r1 <= r2
    ensures SequentialEstimate(t, r1) >= SequentialEstimate(t, r2)
  {
    Bounded(t, r1);
    Bounded(t, r2);
    if r2 >= t[0].res {
      ColdEnd(t, r2);
    } else if r1 <= t[|t| - 1].res {
      HotEnd(t, r1);
    } else if r1 < r2 {
      StrictInside(t, r1, r2);
    }
  }

  // --- From the divider voltage ---------------------------------------------------------------------

  /** The resistance below the divider tap; at the reference voltage the float
      division gives plus infinity. */
  datatype Resistance = Finite(r: real) | Infinite

  function DividerResistance(vol: real): Resistance {
    if vol == NTC_V_REF then Infinite else Finite(vol / (NTC_V_REF - vol) * R_SERIES)
  }

  /** GetTemperature */
  function GetTemperature(t: seq<Knot>, vol: real): real
    requires Table(t)
  {
    match DividerResistance(vol)
    case Infinite => t[0].temp
    case Finite(r) => SequentialEstimate(t, r)
  }

  /** The divider: the tap voltage and the resistance below it, with 10 kOhm above
      it at 3.3 V. */
  lemma DividerLaw(vol: real)
    ensures match DividerResistance(vol)
            case Infinite => vol == 3.3
            case Finite(r) => vol * (r + 10000.0) == 3.3 * r
  {
    if vol != 3.3 {
      var d, q := 3.3 - vol, vol / (3.3 - vol);
      var r := q * 10000.0;
      assert q * d == vol;
      assert r * d == q * d * 10000.0;
      assert r * d == 3.3 * r - vol * r;
    }
  }

  /** A voltage is the tap of exactly one resistance. */
  lemma DividerUnique(vol: real, r: real)
    requires r > 0.0 && vol * (r + 10000.0) == 3.3 * r
    ensures DividerResistance(vol) == Finite(r)
  {
    DividerLaw(vol);
    match DividerResistance(vol)
    case Infinite =>
      assert false;
    case Finite(x) =>
      assert (3.3 - vol) * r == vol * 10000.0 == (3.3 - vol) * x;
      if vol == 3.3 { assert false; }
      assert (3.3 - vol) * (r - x) == 0.0;
      if r != x { NonZeroProduct(3.3 - vol, r - x); }
  }

  /** A knot's resistance in the divider reads the knot's temperature. */
  lemma KnotReading(t: seq<Knot>, k: nat, vol: real)
    requires Table(t) && k < |t| && t[k].res > 0.0
    ensures vol * (t[k].res + 10000.0) == 3.3 * t[k].res ==> GetTemperature(t, vol) == t[k].temp
  {
    if vol * (t[k].res + 10000.0) == 3.3 * t[k].res {
      DividerUnique(vol, t[k].res);
      hide SequentialEstimate;
      ExactAtKnots(t, k);
    }
  }

  /** The temperatures of the thermistor, in plain numbers; 1.65 V is 25 degrees. */
  lemma Readings()
    ensures SequentialEstimate(LOOKUP, 197390.0) == -40.0 && SequentialEstimate(LOOKUP, 114340.0) == -30.0
    ensures SequentialEstimate(LOOKUP, 68915.0) == -20.0 && SequentialEstimate(LOOKUP, 42889.0) == -10.0
    ensures SequentialEstimate(LOOKUP, 32116.0) == 0.0 && SequentialEstimate(LOOKUP, 10000.0) == 25.0
    ensures SequentialEstimate(LOOKUP, 8047.0) == 30.0 && SequentialEstimate(LOOKUP, 6523.0) == 35.0
    ensures SequentialEstimate(LOOKUP, 5318.0) == 40.0 && SequentialEstimate(LOOKUP, 4357.0) == 45.0
    ensures SequentialEstimate(LOOKUP, 3588.0) == 50.0 && SequentialEstimate(LOOKUP, 2466.0) == 60.0
    ensures SequentialEstimate(LOOKUP, 1452.0) == 75.0 && SequentialEstimate(LOOKUP, 890.0) == 90.0
    ensures SequentialEstimate(LOOKUP, 657.0) == 100.0 && GetTemperature(LOOKUP, 1.65) == 25.0
  {
    hide SequentialEstimate, GetTemperature, Table;
    LookupIsTable();
    forall k | 0 <= k < 15 ensures SequentialEstimate(LOOKUP, LOOKUP[k].res) == LOOKUP[k].temp {
      ExactAtKnots(LOOKUP, k);
    }
    KnotReading(LOOKUP, 5, 1.65);
    var t := LOOKUP;
    assert t[0].res == 197390.0 && t[1].res == 114340.0 && t[2].res == 68915.0 && t[3].res == 42889.0;
    assert t[4].res == 32116.0 && t[5].res == 10000.0 && t[6].res == 8047.0 && t[7].res == 6523.0;
    assert t[8].res == 5318.0 && t[9].res == 4357.0 && t[10].res == 3588.0 && t[11].res == 2466.0;
    assert t[12].res == 1452.0 && t[13].res == 890.0 && t[14].res == 657.0;
  }

  lemma DividerRises(v1: real, v2: real)
    requires v1 <= v2 < NTC_V_REF
    ensures v1 / (NTC_V_REF - v1) * R_SERIES <= v2 / (NTC_V_REF - v2) * R_SERIES
  {
    var d1, d2 := NTC_V_REF - v1, NTC_V_REF - v2;
    assert v1 / d1 == NTC_V_REF / d1 - 1.0 by { Whole(v1, d1); }
    assert v2 / d2 == NTC_V_REF / d2 - 1.0 by { Whole(v2, d2); }
    Reciprocal(NTC_V_REF, d2, d1);
  }

  lemma Whole(v: real, d: real)
    requires d == NTC_V_REF - v && d > 0.0
    ensures v / d == NTC_V_REF / d - 1.0
  {
    Quotient(0.0, 0.0, d);
    assert (NTC_V_REF - d) / d == NTC_V_REF / d - d / d;
  }

  lemma Reciprocal(c: real, a: real, b: real)
    requires c > 0.0 && 0.0 < a <= b
    ensures c / b <= c / a
  {
    var x, y := c / a, c / b;
    assert x * a == c && y * b == c;
    if y > x {
      Product(b, x, y);
      Product(x, 0.0, 1.0);
    }
  }

  lemma DividerNegative(vol: real)
    requires vol > NTC_V_REF
    ensures vol / (NTC_V_REF - vol) * R_SERIES < 0.0
  {
    var q := vol / (NTC_V_REF - vol);
    assert q * (NTC_V_REF - vol) == vol;
  }

  /** The hot end is read exactly at and below its resistance. */
  lemma HotEndIff(t: seq<Knot>, r: real)
    requires Table(t)
    ensures SequentialEstimate(t, r) == t[|t| - 1].temp <==> r <= t[|t| - 1].res
  {
    hide SequentialEstimate;
    Falling(t, 0, |t| - 1);
    if r <= t[|t| - 1].res {
      HotEnd(t, r);
    } else if r >= t[0].res {
      ColdEnd(t, r);
    } else {
      StrictInside(t, t[|t| - 1].res, r);
      ExactAtKnots(t, |t| - 1);
    }
  }

  /** And the cold end exactly at and above its own. */
  lemma ColdEndIff(t: seq<Knot>, r: real)
    requires Table(t)
    ensures SequentialEstimate(t, r) == t[0].temp <==> r >= t[0].res
  {
    hide SequentialEstimate;
    Falling(t, 0, |t| - 1);
    if r >= t[0].res {
      ColdEnd(t, r);
    } else if r <= t[|t| - 1].res {
      HotEnd(t, r);
    } else {
      StrictInside(t, r, t[0].res);
      ExactAtKnots(t, 0);
    }
  }

  /** A rising voltage never raises the reading while it stays at or below the
      reference.  Above it the computed resistance is negative and the reading
      jumps to the hot end, so two voltages read in order iff the higher is not
      above the reference, or both are, or the lower is already at the hot end. */
  lemma VoltageAntitoneIff(t: seq<Knot>, v1: real, v2: real)
    requires Table(t) && t[|t| - 1].res >= 0.0 && v1 <= v2
    ensures GetTemperature(t, v1) >= GetTemperature(t, v2)
       <==> v2 <= NTC_V_REF || v1 > NTC_V_REF
            || (v1 < NTC_V_REF && v1 / (NTC_V_REF - v1) * R_SERIES <= t[|t| - 1].res)
  {
    hide SequentialEstimate;
    Falling(t, 0, |t| - 1);
    ReadingBounded(t, v1);
    if v2 > NTC_V_REF {
      DividerNegative(v2);
      HotEnd(t, v2 / (NTC_V_REF - v2) * R_SERIES);
      if v1 > NTC_V_REF { DividerNegative(v1); }
      if v1 != NTC_V_REF { HotEndIff(t, v1 / (NTC_V_REF - v1) * R_SERIES); }
    } else if v2 < NTC_V_REF {
      DividerRises(v1, v2);
      Antitone(t, v1 / (NTC_V_REF - v1) * R_SERIES, v2 / (NTC_V_REF - v2) * R_SERIES);
    }
  }

  /** A volt above the reference reads hotter than a volt below. */
  lemma VoltageAntitoneFails()
    ensures GetTemperature(LOOKUP, 3.0) < GetTemperature(LOOKUP, 4.0)
  {
    hide GetTemperature;
    LookupIsTable();
    VoltageAntitoneIff(LOOKUP, 3.0, 4.0);
  }

  lemma ReadingBounded(t: seq<Knot>, vol: real)
    requires Table(t)
    ensures t[0].temp <= GetTemperature(t, vol) <= t[|t| - 1].temp
  {
    hide SequentialEstimate;
    Falling(t, 0, |t| - 1);
    if vol != NTC_V_REF { Bounded(t, vol / (NTC_V_REF - vol) * R_SERIES); }
  }
}
