/** The naive `peak_width` of src/cryofit/utils.py, the one `estimate_parameters`
    imports: one scan over all samples, recording the midpoint of every pair of
    neighbours between which "above the threshold" changes; the width is the
    distance between the last and the first such midpoint. */
module NaivePeakWidth {
  import opened Wrappers
  import opened Samples

  /** math.sqrt(2) as the shortest decimal that rounds to the double Python computes. */
  const Sqrt2: real := 1.4142135623730951

  datatype WidthError =
    | EmptyData   // np.min of an empty array: ValueError
    | NoCrossing  // hits[-1] of an empty list: IndexError

  /** min + (max - min) / sqrt(2): the -3 dB level of the peak. */
  function Threshold(ys: seq<real>): (thr: real)
    requires |ys| > 0
    ensures Min(ys) < Max(ys) ==> Min(ys) < thr < Max(ys)
    ensures Min(ys) == Max(ys) ==> thr == Min(ys)
  {
    Min(ys) + (Max(ys) - Min(ys)) / Sqrt2
  }

  /** The indices i in [1, n) at which the flag flips, in increasing order. */
  function Flips(ys: seq<real>, thr: real, n: nat): (f: seq<nat>)
    requires n <= |ys|
    ensures forall k :: 0 <= k < |f| ==> 1 <= f[k] < n && Flip(ys, thr, f[k])
    ensures forall i :: 1 <= i < n && Flip(ys, thr, i) ==> i in f
    ensures forall k, l :: 0 <= k < l < |f| ==> f[k] < f[l]
    decreases n
  {
    if n <= 1 then []
    else Flips(ys, thr, n - 1) + (if Flip(ys, thr, n - 1) then [n - 1] else [])
  }

  /** (datax[i] + datax[i-1]) / 2 */
  function Midpoint(xs: seq<real>, i: nat): (m: real)
    requires 1 <= i < |xs|
    ensures Between(m, xs[i - 1], xs[i])
  {
    (xs[i] + xs[i - 1]) / 2.0
  }

  /** The hit list of the scan: the midpoint of each flip's pair. */
  function Midpoints(xs: seq<real>, f: seq<nat>): (hits: seq<real>)
    requires forall k :: 0 <= k < |f| ==> 1 <= f[k] < |xs|
    ensures |hits| == |f|
    ensures forall k :: 0 <= k < |f| ==> hits[k] == Midpoint(xs, f[k])
  {
    seq(|f|, k requires 0 <= k < |f| => Midpoint(xs, f[k]))
  }

  /** The loop of lines 30-36: `above` is the flag of the previous sample, and
      a hit is appended exactly where it flips. */
  method ScanHits(xs: seq<real>, ys: seq<real>, thr: real) returns (hits: seq<real>)
    requires 0 < |ys| <= |xs|
    ensures hits == Midpoints(xs, Flips(ys, thr, |ys|))
  {
    hits := [];
    var above := ys[0] > thr;
    for i := 1 to |ys|
      invariant above == Above(ys[i - 1], thr)
      invariant hits == Midpoints(xs, Flips(ys, thr, i))
    {
      var newAbove := ys[i] > thr;
      MidpointsStep(xs, ys, thr, i);
      if newAbove != above {
        hits := hits + [Midpoint(xs, i)];
        above := newAbove;
      }
    }
  }

  /** One more sample scanned adds the midpoint of its pair exactly when the
      flag flips there. */
  lemma MidpointsStep(xs: seq<real>, ys: seq<real>, thr: real, i: nat)
    requires 1 <= i < |ys| <= |xs|
    ensures Midpoints(xs, Flips(ys, thr, i + 1)) ==
            Midpoints(xs, Flips(ys, thr, i)) + (if Flip(ys, thr, i) then [Midpoint(xs, i)] else [])
  {
    var f := Flips(ys, thr, i);
    if Flip(ys, thr, i) {
      var l, r := Midpoints(xs, f + [i]), Midpoints(xs, f) + [Midpoint(xs, i)];
      assert |l| == |r|;
      forall k | 0 <= k < |l| ensures l[k] == r[k] {
        if k < |f| {
          assert (f + [i])[k] == f[k];
        }
      }
    }
  }

  /** What `peak_width` returns, or the error it raises. */
  function WidthOf(xs: seq<real>, ys: seq<real>): (r: Result<real, WidthError>)
    requires |ys| <= |xs|
    ensures r == Err(EmptyData) <==> |ys| == 0
    ensures r.Ok? <==> |ys| > 0 && Min(ys) < Max(ys)
    ensures r.Ok? ==> r.value >= 0.0
    ensures |ys| > 0 && |Flips(ys, Threshold(ys), |ys|)| == 1 ==> r == Ok(0.0)
  {
    if |ys| == 0 then Err(EmptyData)
    else
      CrossingIffNotConstant(ys);
      Spread(Midpoints(xs, Flips(ys, Threshold(ys), |ys|)))
  }

  /** abs(hits[-1] - hits[0]), which raises on an empty hit list. */
  function Spread(hits: seq<real>): (r: Result<real, WidthError>)
    ensures r.Err? <==> |hits| == 0
    ensures r.Err? ==> r.error == NoCrossing
    ensures r.Ok? ==> r.value >= 0.0 && (r.value == hits[|hits| - 1] - hits[0] || r.value == hits[0] - hits[|hits| - 1])
    ensures |hits| == 1 ==> r == Ok(0.0)
  {
    if |hits| == 0 then Err(NoCrossing) else Ok(Abs(hits[|hits| - 1] - hits[0]))
  }

  /** A crossing exists exactly when the data is not constant: the argmax
      sample lies above the threshold and the argmin sample does not. */
  lemma CrossingIffNotConstant(ys: seq<real>)
    requires |ys| > 0
    ensures |Flips(ys, Threshold(ys), |ys|)| > 0 <==> Min(ys) < Max(ys)
  {
    var thr := Threshold(ys);
    var f := Flips(ys, thr, |ys|);
    if Min(ys) < Max(ys) {
      var hi, lo := ArgMax(ys), ArgMin(ys);
      assert Above(ys[hi], thr) && !Above(ys[lo], thr);
      var i: nat;
      if lo < hi {
        i := FlipBetween(ys, thr, lo, hi);
      } else {
        i := FlipBetween(ys, thr, hi, lo);
      }
      assert i in f;
    } else {
      NoFlipsInConstantData(ys, thr, |ys|);
    }
  }

  lemma {:induction false} NoFlipsInConstantData(ys: seq<real>, thr: real, n: nat)
    requires n <= |ys|
    requires forall j :: 0 <= j < |ys| ==> ys[j] == ys[0]
    ensures Flips(ys, thr, n) == []
    decreases n
  {
    if n > 1 {
      NoFlipsInConstantData(ys, thr, n - 1);
    }
  }

  /** `peak_width(datax, datay)`. */
  method PeakWidth(xs: seq<real>, ys: seq<real>) returns (r: Result<real, WidthError>)
    requires |ys| <= |xs|
    ensures r == WidthOf(xs, ys)
  {
    if |ys| == 0 {
      return Err(EmptyData);
    }
    var thr := Min(ys) + (Max(ys) - Min(ys)) / Sqrt2;
    assert thr == Threshold(ys);
    var hits := ScanHits(xs, ys, thr);
    if |hits| == 0 {
      r := Err(NoCrossing);
    } else {
      r := Ok(Abs(hits[|hits| - 1] - hits[0]));
    }
    assert r == Spread(hits);
  }
}
