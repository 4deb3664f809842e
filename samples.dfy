/** The numpy reductions the estimators use on real-valued sample sequences:
    np.min, np.max, np.argmax, np.mean and abs, plus the "above the threshold"
    test both peak-width scans are built on. */
module Samples {
  import opened Arithmetic

  function Abs(x: real): (r: real)
    ensures r >= 0.0 && (r == x || r == -x)
  {
    if x < 0.0 then -x else x
  }

  /** np.argmax: the FIRST index holding the largest sample. */
  function ArgMax(ys: seq<real>): (k: nat)
    requires |ys| > 0
    ensures k < |ys|
    ensures forall j :: 0 <= j < |ys| ==> ys[j] <= ys[k]
    ensures forall j :: 0 <= j < k ==> ys[j] < ys[k]
    decreases |ys|
  {
    if |ys| == 1 then 0
    else
      var k := ArgMax(ys[..|ys| - 1]);
      if ys[|ys| - 1] > ys[k] then |ys| - 1 else k
  }

  /** The first index holding the smallest sample. */
  function ArgMin(ys: seq<real>): (k: nat)
    requires |ys| > 0
    ensures k < |ys|
    ensures forall j :: 0 <= j < |ys| ==> ys[k] <= ys[j]
    decreases |ys|
  {
    if |ys| == 1 then 0
    else
      var k := ArgMin(ys[..|ys| - 1]);
      if ys[|ys| - 1] < ys[k] then |ys| - 1 else k
  }

  /** np.max: a sample that no sample exceeds. */
  function Max(ys: seq<real>): (m: real)
    requires |ys| > 0
    ensures m in ys
    ensures forall j :: 0 <= j < |ys| ==> ys[j] <= m
  {
    ys[ArgMax(ys)]
  }

  /** np.min: a sample below which no sample lies. */
  function Min(ys: seq<real>): (m: real)
    requires |ys| > 0
    ensures m in ys
    ensures forall j :: 0 <= j < |ys| ==> m <= ys[j]
  {
    ys[ArgMin(ys)]
  }

  function Sum(s: seq<real>): real
  {
    if s == [] then 0.0 else Sum(s[..|s| - 1]) + s[|s| - 1]
  }

  /** np.mean of a non-empty sequence. */
  function Mean(s: seq<real>): real
    requires |s| > 0
  {
    Sum(s) / (|s| as real)
  }

  /** np.mean lies between np.min and np.max. */
  lemma MeanWithin(s: seq<real>)
    requires |s| > 0
    ensures Min(s) <= Mean(s) <= Max(s)
  {
    SumWithin(s, Min(s), Max(s));
    QuotientBetween(Sum(s), |s| as real, Min(s), Max(s));
  }

  lemma QuotientBetween(sum: real, n: real, lo: real, hi: real)
    requires n > 0.0 && n * lo <= sum <= n * hi
    ensures lo <= sum / n <= hi
  {
    var m := sum / n;
    assert m * n == sum;
    NonNegativeFactor(m - lo, n, sum - n * lo);
    NonNegativeFactor(hi - m, n, n * hi - sum);
  }

  /** A sum of samples that all lie in [lo, hi] lies in [|s| lo, |s| hi]. */
  lemma {:induction false} SumWithin(s: seq<real>, lo: real, hi: real)
    requires forall j :: 0 <= j < |s| ==> lo <= s[j] <= hi
    ensures (|s| as real) * lo <= Sum(s) <= (|s| as real) * hi
    decreases |s|
  {
    if s != [] {
      var init := s[..|s| - 1];
      SumWithin(init, lo, hi);
      var n := |init| as real;
      assert (n + 1.0) * lo == n * lo + lo;
      assert (n + 1.0) * hi == n * hi + hi;
    }
  }

  /** `y > threshold`, the flag both scans carry in the variable `above`. */
  predicate Above(y: real, thr: real)
  {
    y > thr
  }

  /** The flag changes between samples i-1 and i. */
  predicate Flip(ys: seq<real>, thr: real, i: nat)
    requires 1 <= i < |ys|
  {
    Above(ys[i], thr) != Above(ys[i - 1], thr)
  }

  /** h lies in the closed interval spanned by x0 and x1, whichever is larger. */
  predicate Between(h: real, x0: real, x1: real)
  {
    (x0 <= h <= x1) || (x1 <= h <= x0)
  }

  /** If the flag differs at a and b (a < b), it flips at some i in (a, b]. */
  lemma {:induction false} FlipBetween(ys: seq<real>, thr: real, a: nat, b: nat) returns (i: nat)
    requires a < b < |ys|
    requires Above(ys[a], thr) != Above(ys[b], thr)
    ensures a < i <= b && Flip(ys, thr, i)
    decreases b - a
  {
    if Above(ys[a + 1], thr) != Above(ys[a], thr) {
      i := a + 1;
    } else {
      i := FlipBetween(ys, thr, a + 1, b);
    }
  }
}
