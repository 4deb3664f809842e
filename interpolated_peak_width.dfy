/** `peak_width` of src/utils/peak_width.py: split the samples at the first
    maximum, scan each side for threshold crossings, place every crossing by
    linear interpolation between its two neighbours, and return the distance
    between the mean crossing after the peak and the mean crossing before it. */
module InterpolatedPeakWidth {
  import opened Wrappers
  import opened Samples
  import opened Arithmetic

  /** What `peak_width` gives back. */
  datatype Outcome =
    | NoData            // np.min of an empty array: ValueError
    | Undetermined      // one side has no crossing: the function returns None
    | NotFinite         // a crossing divided by a zero gap: the mean is inf or nan
    | Width(value: real)

  /** `minimum + (max(datay) - min(datay)) * factor`, where `minimum` defaults
      to min(datay): factor 0 puts it at the base, factor 1 one full spread
      above it, and constant data at the base whatever the factor. */
  function Threshold(ys: seq<real>, minimum: Option<real>, factor: real): (t: real)
    requires |ys| > 0
    ensures var base := if minimum.Some? then minimum.value else Min(ys);
            (factor == 0.0 || Min(ys) == Max(ys) ==> t == base) &&
            (factor == 1.0 ==> t == base + (Max(ys) - Min(ys)))
  {
    Level(if minimum.Some? then minimum.value else Min(ys), Max(ys) - Min(ys), factor)
  }

  /** base + spread * factor */
  function Level(base: real, spread: real, factor: real): (t: real)
    ensures factor == 0.0 || spread == 0.0 ==> t == base
    ensures factor == 1.0 ==> t == base + spread
  {
    base + spread * factor
  }

  lemma LevelWithinRange(lo: real, spread: real, factor: real)
    requires spread > 0.0 && 0.0 < factor < 1.0
    ensures lo < Level(lo, spread, factor) < lo + spread
  {
    ProductBelow(spread, factor);
  }

  /** With the default base min(datay) and a fraction strictly between 0 and
      1, the threshold of data that is not constant lies strictly between
      min(datay) and max(datay). */
  lemma DefaultThresholdWithinRange(ys: seq<real>, factor: real)
    requires |ys| > 0 && Min(ys) < Max(ys) && 0.0 < factor < 1.0
    ensures Min(ys) < Threshold(ys, None, factor) < Max(ys)
  {
    LevelWithinRange(Min(ys), Max(ys) - Min(ys), factor);
  }

  /** An explicit `minimum` moves the threshold's base only: the height above
      the base is factor times the data's own max - min whatever the base. */
  lemma ExplicitMinimumShiftsBaseOnly(ys: seq<real>, m: real, factor: real)
    requires |ys| > 0
    ensures Threshold(ys, Some(m), factor) - m == Threshold(ys, None, factor) - Min(ys)
  {
  }

  lemma ProductBelow(d: real, a: real)
    requires d > 0.0 && 0.0 < a < 1.0
    ensures 0.0 < d * a < d
  {
    var e := 1.0 - a;
    PositiveProduct(d, a, d * a);
    PositiveProduct(d, e, d * e);
    assert d * a + d * e == d * (a + e);
  }

  lemma ProductWithin(d: real, a: real)
    requires d >= 0.0 && 0.0 <= a <= 1.0
    ensures 0.0 <= a * d <= d
  {
    var e := 1.0 - a;
    NonNegativeProduct(a, d, a * d);
    NonNegativeProduct(e, d, e * d);
    assert a * d + e * d == (a + e) * d;
  }

  lemma QuotientWithin(n: real, d: real)
    requires 0.0 <= n <= d && d > 0.0
    ensures 0.0 <= n / d <= 1.0 && n / d * d == n
  {
    var q := n / d;
    assert q * d == n;
    assert (1.0 - q) * d == d - n;
  }

  /** The scan records a hit at i when the flag flips or the sample sits
      exactly on the threshold. */
  predicate Crossing(ys: seq<real>, thr: real, i: nat)
    requires 1 <= i < |ys|
  {
    Flip(ys, thr, i) || ys[i] == thr
  }

  /** The indices i with id1 < i < n at which `hits(id1, n)` records a hit. */
  function Crossings(ys: seq<real>, thr: real, id1: nat, n: nat): (c: seq<nat>)
    requires id1 <= n <= |ys|
    ensures forall k :: 0 <= k < |c| ==> id1 < c[k] < n && Crossing(ys, thr, c[k])
    ensures forall i :: id1 < i < n && Crossing(ys, thr, i) ==> i in c
    ensures forall k, l :: 0 <= k < l < |c| ==> c[k] < c[l]
    ensures |c| <= if n > id1 then n - id1 - 1 else 0
    decreases n
  {
    if n <= id1 + 1 then []
    else Crossings(ys, thr, id1, n - 1) + (if Crossing(ys, thr, n - 1) then [n - 1] else [])
  }

  /** The interpolation fraction as line 22 writes it:
      |thr - y0| / (|y1| - |y0|). */
  function FractionAsWritten(y0: real, y1: real, thr: real): (a: Option<real>)
    ensures a.None? <==> Abs(y1) == Abs(y0)
    ensures a.Some? ==> a.value * (Abs(y1) - Abs(y0)) == Abs(thr - y0)
    ensures a.Some? && Abs(y1) < Abs(y0) && thr != y0 ==> a.value < 0.0
  {
    if Abs(y1) - Abs(y0) == 0.0 then None
    else
      NegativeQuotient(Abs(thr - y0), Abs(y1) - Abs(y0));
      Some(Abs(thr - y0) / (Abs(y1) - Abs(y0)))
  }

  /** The crossing point as lines 22-23 compute it. */
  function InterpolateAsWritten(x0: real, x1: real, y0: real, y1: real, thr: real): (h: Option<real>)
    ensures h.None? <==> Abs(y1) == Abs(y0)
  {
    match FractionAsWritten(y0, y1, thr)
    case None => None
    case Some(a) => Some(a * x1 + (1.0 - a) * x0)
  }

  /** On a falling crossing of positive data the denominator of line 22 is
      negative: for the samples (3, 4) and (4, 1) and threshold 2, the true
      crossing is at 11/3, but line 23 places it at 7/3, outside [3, 4]. */
  lemma AsWrittenMisplacesFallingCrossing()
    ensures Flip([4.0, 1.0], 2.0, 1)
    ensures InterpolateAsWritten(3.0, 4.0, 4.0, 1.0, 2.0) == Some(7.0 / 3.0)
    ensures !Between(7.0 / 3.0, 3.0, 4.0)
  {
    assert FractionAsWritten(4.0, 1.0, 2.0) == Some(-2.0 / 3.0);
  }

  /** On a rising crossing of non-negative data the written fraction lies in
      [0, 1) and agrees with the corrected one. */
  lemma AsWrittenAgreesOnRisingCrossing(y0: real, y1: real, thr: real)
    requires 0.0 <= y0 <= thr < y1
    ensures FractionAsWritten(y0, y1, thr) == Fraction(y0, y1, thr)
    ensures 0.0 <= Fraction(y0, y1, thr).value < 1.0
  {
    var a := (thr - y0) / (y1 - y0);
    assert a * (y1 - y0) == thr - y0;
  }

  /** The corrected fraction |thr - y0| / |y1 - y0|: the distance of the
      previous sample from the threshold over the gap between the samples. */
  function Fraction(y0: real, y1: real, thr: real): (a: Option<real>)
    ensures a.None? <==> y0 == y1
    ensures a.Some? && (Above(y0, thr) != Above(y1, thr) || y1 == thr) ==>
              0.0 <= a.value <= 1.0 && y0 + a.value * (y1 - y0) == thr
  {
    if y1 == y0 then None
    else
      var a := Abs(thr - y0) / Abs(y1 - y0);
      FractionSolvesCrossing(y0, y1, thr);
      Some(a)
  }

  lemma FractionSolvesCrossing(y0: real, y1: real, thr: real)
    requires y0 != y1
    ensures Above(y0, thr) != Above(y1, thr) || y1 == thr ==>
              var a := Abs(thr - y0) / Abs(y1 - y0);
              0.0 <= a <= 1.0 && y0 + a * (y1 - y0) == thr
  {
    var a := Abs(thr - y0) / Abs(y1 - y0);
    if Above(y0, thr) != Above(y1, thr) || y1 == thr {
      if y0 < y1 {
        assert y0 <= thr <= y1;
        assert a == (thr - y0) / (y1 - y0);
        QuotientWithin(thr - y0, y1 - y0);
      } else {
        assert y1 <= thr <= y0;
        assert a == (y0 - thr) / (y0 - y1);
        QuotientWithin(y0 - thr, y0 - y1);
        assert a * (y1 - y0) == -(a * (y0 - y1));
      }
    }
  }

  /** The crossing point a * x1 + (1 - a) * x0 with the corrected fraction;
      None stands for the nan a zero gap produces. */
  function Interpolate(x0: real, x1: real, y0: real, y1: real, thr: real): (h: Option<real>)
    ensures h.None? <==> y0 == y1
    ensures h.Some? && (Above(y0, thr) != Above(y1, thr) || y1 == thr) ==> Between(h.value, x0, x1)
  {
    match Fraction(y0, y1, thr)
    case None => None
    case Some(a) =>
      // Both branches place the same point; the first only records, through
      // ConvexBetween, that a fraction in [0, 1] keeps it between x0 and x1.
      if 0.0 <= a <= 1.0 then
        ConvexBetween(x0, x1, a);
        Some(a * x1 + (1.0 - a) * x0)
      else
        Some(a * x1 + (1.0 - a) * x0)
  }

  lemma ConvexBetween(x0: real, x1: real, a: real)
    requires 0.0 <= a <= 1.0
    ensures Between(a * x1 + (1.0 - a) * x0, x0, x1)
  {
    var h := a * x1 + (1.0 - a) * x0;
    var d := x1 - x0;
    var p := a * d;
    assert h == x0 + p;
    if d >= 0.0 {
      ProductWithin(d, a);
    } else {
      ProductWithin(-d, a);
      assert a * (-d) == -p;
    }
  }

  /** How a crossing is placed: by line 22 as written, or with its
      denominator corrected to the gap between the two samples. */
  datatype Placement = AsWritten | Corrected

  /** The point lines 22-23 append for the pair (i - 1, i). */
  function Place(p: Placement, x0: real, x1: real, y0: real, y1: real, thr: real): Option<real>
  {
    match p
    case AsWritten => InterpolateAsWritten(x0, x1, y0, y1, thr)
    case Corrected => Interpolate(x0, x1, y0, y1, thr)
  }

  /** The hit list of `hits(id1, id2)`: one placed point per crossing. */
  function Hits(xs: seq<real>, ys: seq<real>, thr: real, c: seq<nat>, p: Placement): (h: seq<Option<real>>)
    requires |ys| <= |xs|
    requires forall k :: 0 <= k < |c| ==> 1 <= c[k] < |ys|
    ensures |h| == |c|
    ensures forall k :: 0 <= k < |c| ==>
              h[k] == Place(p, xs[c[k] - 1], xs[c[k]], ys[c[k] - 1], ys[c[k]], thr)
  {
    seq(|c|, k requires 0 <= k < |c| => Place(p, xs[c[k] - 1], xs[c[k]], ys[c[k] - 1], ys[c[k]], thr))
  }

  lemma HitsAppend(xs: seq<real>, ys: seq<real>, thr: real, c: seq<nat>, i: nat, p: Placement)
    requires |ys| <= |xs| && 1 <= i < |ys|
    requires forall k :: 0 <= k < |c| ==> 1 <= c[k] < |ys|
    ensures Hits(xs, ys, thr, c + [i], p) == Hits(xs, ys, thr, c, p) + [Place(p, xs[i - 1], xs[i], ys[i - 1], ys[i], thr)]
  {
    var l := Hits(xs, ys, thr, c + [i], p);
    var r := Hits(xs, ys, thr, c, p) + [Place(p, xs[i - 1], xs[i], ys[i - 1], ys[i], thr)];
    assert |l| == |r|;
    forall k | 0 <= k < |l| ensures l[k] == r[k] {
      if k < |c| {
        assert (c + [i])[k] == c[k];
      }
    }
  }

  /** With the corrected placement every finite hit lies between the two
      samples of its crossing. */
  lemma HitsLieBetweenSamples(xs: seq<real>, ys: seq<real>, thr: real, id1: nat, id2: nat)
    requires id1 <= id2 <= |ys| <= |xs|
    ensures var c := Crossings(ys, thr, id1, id2);
            var h := Hits(xs, ys, thr, c, Corrected);
            forall k :: 0 <= k < |h| && h[k].Some? ==> Between(h[k].value, xs[c[k] - 1], xs[c[k]])
  {
  }

  /** Line 22 as written places a rising crossing of non-negative data where
      the corrected rule does, so there too it lies between its samples. */
  lemma HitsAgreeOnRisingCrossings(xs: seq<real>, ys: seq<real>, thr: real, c: seq<nat>)
    requires |ys| <= |xs|
    requires forall k :: 0 <= k < |c| ==> 1 <= c[k] < |ys|
    ensures var h := Hits(xs, ys, thr, c, AsWritten);
            forall k :: 0 <= k < |h| && 0.0 <= ys[c[k] - 1] <= thr < ys[c[k]] ==>
              h[k] == Hits(xs, ys, thr, c, Corrected)[k] && Between(h[k].value, xs[c[k] - 1], xs[c[k]])
  {
    var h, h' := Hits(xs, ys, thr, c, AsWritten), Hits(xs, ys, thr, c, Corrected);
    forall k | 0 <= k < |h| && 0.0 <= ys[c[k] - 1] <= thr < ys[c[k]]
      ensures h[k] == h'[k] && Between(h[k].value, xs[c[k] - 1], xs[c[k]])
    {
      var x0, x1, y0, y1 := xs[c[k] - 1], xs[c[k]], ys[c[k] - 1], ys[c[k]];
      assert h[k] == InterpolateAsWritten(x0, x1, y0, y1, thr);
      assert h'[k] == Interpolate(x0, x1, y0, y1, thr);
      RisingPointAgrees(x0, x1, y0, y1, thr);
    }
  }

  lemma RisingPointAgrees(x0: real, x1: real, y0: real, y1: real, thr: real)
    requires 0.0 <= y0 <= thr < y1
    ensures InterpolateAsWritten(x0, x1, y0, y1, thr) == Interpolate(x0, x1, y0, y1, thr)
    ensures Interpolate(x0, x1, y0, y1, thr).Some?
    ensures Between(Interpolate(x0, x1, y0, y1, thr).value, x0, x1)
  {
    AsWrittenAgreesOnRisingCrossing(y0, y1, thr);
    SameFractionSamePoint(x0, x1, y0, y1, thr);
  }

  lemma SameFractionSamePoint(x0: real, x1: real, y0: real, y1: real, thr: real)
    requires FractionAsWritten(y0, y1, thr) == Fraction(y0, y1, thr)
    ensures InterpolateAsWritten(x0, x1, y0, y1, thr) == Interpolate(x0, x1, y0, y1, thr)
  {
    match Fraction(y0, y1, thr)
    case None =>
    case Some(a) =>
      var h, h' := InterpolateAsWritten(x0, x1, y0, y1, thr), Interpolate(x0, x1, y0, y1, thr);
      assert h.value == a * x1 + (1.0 - a) * x0 == h'.value;
      assert h == Some(h.value);
  }

  /** One more pair scanned extends the hit list by the pair's point exactly
      when the pair crosses. */
  lemma HitsStep(xs: seq<real>, ys: seq<real>, thr: real, id1: nat, i: nat, p: Placement)
    requires id1 < i < |ys| <= |xs|
    ensures Hits(xs, ys, thr, Crossings(ys, thr, id1, i + 1), p) ==
            Hits(xs, ys, thr, Crossings(ys, thr, id1, i), p) +
            (if Crossing(ys, thr, i) then [Place(p, xs[i - 1], xs[i], ys[i - 1], ys[i], thr)] else [])
  {
    var c := Crossings(ys, thr, id1, i);
    if Crossing(ys, thr, i) {
      assert Crossings(ys, thr, id1, i + 1) == c + [i];
      HitsAppend(xs, ys, thr, c, i, p);
    } else {
      assert Crossings(ys, thr, id1, i + 1) == c;
    }
  }

  /** The nested function `hits(id1, id2)`: `above` holds the flag of the
      previous sample, and a point is appended exactly at each crossing. */
  method ScanHits(xs: seq<real>, ys: seq<real>, thr: real, id1: nat, id2: nat, p: Placement)
    returns (hits: seq<Option<real>>)
    requires id1 < |ys| && id1 <= id2 <= |ys| <= |xs|
    ensures hits == Hits(xs, ys, thr, Crossings(ys, thr, id1, id2), p)
  {
    hits := [];
    var above := ys[id1] > thr;
    var i := id1 + 1;
    while i < id2
      invariant id1 < i <= |ys|
      invariant i <= id2 || i == id1 + 1
      invariant above == Above(ys[i - 1], thr)
      invariant hits == Hits(xs, ys, thr, Crossings(ys, thr, id1, i), p)
    {
      var newAbove := ys[i] > thr;
      HitsStep(xs, ys, thr, id1, i, p);
      if newAbove != above || ys[i] == thr {
        hits := hits + [Place(p, xs[i - 1], xs[i], ys[i - 1], ys[i], thr)];
        above := newAbove;
      }
      i := i + 1;
    }
  }

  predicate AllFinite(h: seq<Option<real>>)
  {
    forall k :: 0 <= k < |h| ==> h[k].Some?
  }

  function Values(h: seq<Option<real>>): (v: seq<real>)
    requires AllFinite(h)
    ensures |v| == |h|
  {
    seq(|h|, k requires 0 <= k < |h| => h[k].value)
  }

  /** Crossings strictly before the peak: `hits(0, argmax)`. */
  function Before(ys: seq<real>, thr: real): (c: seq<nat>)
    requires |ys| > 0
    ensures forall k :: 0 <= k < |c| ==> 0 < c[k] < ArgMax(ys) && Crossing(ys, thr, c[k])
    ensures forall i :: 0 < i < ArgMax(ys) && Crossing(ys, thr, i) ==> i in c
    ensures forall k, l :: 0 <= k < l < |c| ==> c[k] < c[l]
  {
    Crossings(ys, thr, 0, ArgMax(ys))
  }

  /** Crossings after the peak: `hits(argmax, len(datay))`. */
  function After(ys: seq<real>, thr: real): (c: seq<nat>)
    requires |ys| > 0
    ensures forall k :: 0 <= k < |c| ==> ArgMax(ys) < c[k] < |ys| && Crossing(ys, thr, c[k])
    ensures forall i :: ArgMax(ys) < i < |ys| && Crossing(ys, thr, i) ==> i in c
    ensures forall k, l :: 0 <= k < l < |c| ==> c[k] < c[l]
  {
    Crossings(ys, thr, ArgMax(ys), |ys|)
  }

  /** What `peak_width(datax, datay, factor, minimum)` returns when its
      crossings are placed by `p`; the program itself is p = AsWritten. */
  function WidthOf(xs: seq<real>, ys: seq<real>, factor: real, minimum: Option<real>, p: Placement): (r: Outcome)
    requires |ys| <= |xs|
    ensures r == NoData <==> |ys| == 0
    ensures |ys| > 0 ==>
              var thr := Threshold(ys, minimum, factor);
              (r == Undetermined <==> |Before(ys, thr)| == 0 || |After(ys, thr)| == 0)
    ensures r.Width? ==> r.value >= 0.0
  {
    if |ys| == 0 then NoData
    else
      var thr := Threshold(ys, minimum, factor);
      MeanDistance(Hits(xs, ys, thr, Before(ys, thr), p), Hits(xs, ys, thr, After(ys, thr), p))
  }

  /** `abs(np.mean(hits_after) - np.mean(hits_before))`, or None when either
      list is empty: with one finite hit on each side it is their distance. */
  function MeanDistance(before: seq<Option<real>>, after: seq<Option<real>>): (r: Outcome)
    ensures r != NoData
    ensures r == Undetermined <==> |before| == 0 || |after| == 0
    ensures r == NotFinite <==> |before| > 0 && |after| > 0 && (!AllFinite(before) || !AllFinite(after))
    ensures r.Width? ==> r.value >= 0.0
    ensures |before| == 1 && |after| == 1 && before[0].Some? && after[0].Some? ==>
              r.Width? && r.value == Abs(after[0].value - before[0].value)
  {
    if |before| == 0 || |after| == 0 then Undetermined
    else if !AllFinite(before) || !AllFinite(after) then NotFinite
    else
      SingleHit(before);
      SingleHit(after);
      Width(Abs(Mean(Values(after)) - Mean(Values(before))))
  }

  /** The before-scan never looks at the pair (argmax - 1, argmax), while the
      after-scan looks at every pair from the peak on. */
  lemma ScanCoverage(ys: seq<real>, thr: real)
    requires |ys| > 0
    ensures forall k :: 0 <= k < |Before(ys, thr)| ==> Before(ys, thr)[k] < ArgMax(ys)
    ensures forall i :: ArgMax(ys) < i < |ys| && Crossing(ys, thr, i) ==> i in After(ys, thr)
  {
  }

  /** Consequently a peak whose only rising crossing is between the sample
      just before the maximum and the maximum is reported as undetermined:
      samples [0, 1, 4, 1, 0] at half height (threshold 2), whichever the
      placement. */
  lemma RisingEdgeIntoPeakIsMissed(p: Placement)
    ensures WidthOf([0.0, 1.0, 2.0, 3.0, 4.0], [0.0, 1.0, 4.0, 1.0, 0.0], 0.5, None, p) == Undetermined
  {
    var ys := [0.0, 1.0, 4.0, 1.0, 0.0];
    assert ArgMax(ys[..1]) == 0;
    assert ArgMax(ys[..2]) == 1;
    assert ArgMax(ys[..3]) == 2;
    assert ArgMax(ys[..4]) == 2;
    assert ArgMax(ys) == 2;
    assert ArgMin(ys[..1]) == 0;
    assert ArgMin(ys[..2]) == 0;
    assert ArgMin(ys[..3]) == 0;
    assert ArgMin(ys[..4]) == 0;
    assert ArgMin(ys) == 0;
    var thr := Threshold(ys, None, 0.5);
    assert thr == 2.0;
    assert !Crossing(ys, thr, 1);
    assert Before(ys, thr) == [];
  }

  /** The misplaced falling crossing changes the program's result: for the
      samples [0, 3, 4, 1, 0] at half height (threshold 2) the falling
      crossing after the peak lies at 8/3, line 22 as written puts it at 4/3,
      and the width comes out as 2/3 instead of 2. */
  lemma FallingEdgeChangesWidth()
    ensures WidthOf([0.0, 1.0, 2.0, 3.0, 4.0], [0.0, 3.0, 4.0, 1.0, 0.0], 0.5, None, AsWritten) == Width(2.0 / 3.0)
    ensures WidthOf([0.0, 1.0, 2.0, 3.0, 4.0], [0.0, 3.0, 4.0, 1.0, 0.0], 0.5, None, Corrected) == Width(2.0)
  {
    FallingEdgeWidth(AsWritten, 2.0 / 3.0, 4.0 / 3.0);
    FallingEdgeWidth(Corrected, 2.0 / 3.0, 8.0 / 3.0);
  }

  /** With the crossing before the peak placed at u and the one after it at
      v, the samples [0, 3, 4, 1, 0] have width |v - u|. */
  lemma FallingEdgeWidth(p: Placement, u: real, v: real)
    requires Place(p, 0.0, 1.0, 0.0, 3.0, 2.0) == Some(u)
    requires Place(p, 2.0, 3.0, 4.0, 1.0, 2.0) == Some(v)
    ensures WidthOf([0.0, 1.0, 2.0, 3.0, 4.0], [0.0, 3.0, 4.0, 1.0, 0.0], 0.5, None, p) == Width(Abs(v - u))
  {
    var xs, ys := [0.0, 1.0, 2.0, 3.0, 4.0], [0.0, 3.0, 4.0, 1.0, 0.0];
    assert xs[0] == 0.0 && xs[1] == 1.0 && ys[0] == 0.0 && ys[1] == 3.0;
    assert xs[2] == 2.0 && xs[3] == 3.0 && ys[2] == 4.0 && ys[3] == 1.0;
    FallingEdgeScans();
    OneCrossingEachSide(xs, ys, 0.5, None, p, 1, 3, u, v);
  }

  /** With exactly one crossing on each side of the peak, placed at u before
      and at v after it, the width is |v - u|. */
  lemma OneCrossingEachSide(xs: seq<real>, ys: seq<real>, factor: real, minimum: Option<real>, p: Placement,
                            i: nat, j: nat, u: real, v: real)
    requires 0 < |ys| <= |xs| && 1 <= i < |ys| && 1 <= j < |ys|
    requires Before(ys, Threshold(ys, minimum, factor)) == [i]
    requires After(ys, Threshold(ys, minimum, factor)) == [j]
    requires Place(p, xs[i - 1], xs[i], ys[i - 1], ys[i], Threshold(ys, minimum, factor)) == Some(u)
    requires Place(p, xs[j - 1], xs[j], ys[j - 1], ys[j], Threshold(ys, minimum, factor)) == Some(v)
    ensures WidthOf(xs, ys, factor, minimum, p) == Width(Abs(v - u))
  {
    var thr := Threshold(ys, minimum, factor);
    var before, after := Hits(xs, ys, thr, [i], p), Hits(xs, ys, thr, [j], p);
    assert WidthOf(xs, ys, factor, minimum, p) == MeanDistance(before, after);
    assert before[0] == Some(u) && after[0] == Some(v);
    var r := MeanDistance(before, after);
    assert r.value == Abs(v - u);
    assert r == Width(r.value);
  }

  /** The samples [0, 3, 4, 1, 0] peak at index 2, have threshold 2 at half
      height, and cross it once on each side: at pair (0, 1) and pair (2, 3). */
  lemma FallingEdgeScans()
    ensures var ys := [0.0, 3.0, 4.0, 1.0, 0.0];
            Threshold(ys, None, 0.5) == 2.0 && Before(ys, 2.0) == [1] && After(ys, 2.0) == [3]
  {
    var ys := [0.0, 3.0, 4.0, 1.0, 0.0];
    FallingEdgePeak();
    assert Crossings(ys, 2.0, 0, 1) == [];
    assert Crossings(ys, 2.0, 0, 2) == [1];
    assert Crossings(ys, 2.0, 2, 3) == [];
    assert Crossings(ys, 2.0, 2, 4) == [3];
    assert Crossings(ys, 2.0, 2, 5) == [3];
  }

  lemma FallingEdgePeak()
    ensures var ys := [0.0, 3.0, 4.0, 1.0, 0.0];
            ArgMax(ys) == 2 && Threshold(ys, None, 0.5) == 2.0
  {
    var ys := [0.0, 3.0, 4.0, 1.0, 0.0];
    assert ArgMax(ys[..1]) == 0;
    assert ArgMax(ys[..2]) == 1;
    assert ArgMax(ys[..3]) == 2;
    assert ArgMax(ys[..4]) == 2;
    assert ArgMin(ys[..1]) == 0;
    assert ArgMin(ys[..2]) == 0;
    assert ArgMin(ys[..3]) == 0;
    assert ArgMin(ys[..4]) == 0;
    assert Max(ys) == 4.0 && Min(ys) == 0.0;
  }

  /** A hit list holding one finite point has that point as its mean. */
  lemma SingleHit(h: seq<Option<real>>)
    requires AllFinite(h)
    ensures |h| == 1 ==> Mean(Values(h)) == h[0].value
  {
    if |h| == 1 {
      var v := h[0].value;
      assert Values(h) == [v];
      assert Sum(Values(h)) == v by {
        assert Values(h)[..0] == [];
      }
    }
  }

  /** `peak_width(datax, datay, factor, minimum)`, with line 22 as written
      for p = AsWritten. */
  method PeakWidth(xs: seq<real>, ys: seq<real>, factor: real, minimum: Option<real>, p: Placement)
    returns (r: Outcome)
    requires |ys| <= |xs|
    ensures r == WidthOf(xs, ys, factor, minimum, p)
  {
    if |ys| == 0 {
      return NoData;
    }
    var thr := Threshold(ys, minimum, factor);
    var peak := ArgMax(ys);
    var before := ScanHits(xs, ys, thr, 0, peak, p);
    var after := ScanHits(xs, ys, thr, peak, |ys|, p);
    assert Before(ys, thr) == Crossings(ys, thr, 0, peak) && After(ys, thr) == Crossings(ys, thr, peak, |ys|);
    assert WidthOf(xs, ys, factor, minimum, p) == MeanDistance(before, after);
    if |before| == 0 || |after| == 0 {
      return Undetermined;
    }
    if !AllFinite(before) || !AllFinite(after) {
      return NotFinite;
    }
    r := Width(Abs(Mean(Values(after)) - Mean(Values(before))));
    assert r == MeanDistance(before, after);
  }
}
