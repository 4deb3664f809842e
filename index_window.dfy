/** `width_to_indices` (src/utils/width_to_indices.py) and its verbatim copy
    `width_to_indeces` (src/cryofit/utils.py): map a frequency window
    [center - width/2, center + width/2] to a pair of sample indices, assuming
    the samples are evenly spaced by (last - first) / len. */
module IndexWindow {
  import opened Wrappers
  import opened Arithmetic

  /** Why the mapping raises instead of returning a window. */
  datatype WindowError =
    | EmptyData        // datax[-1] of an empty sequence: IndexError
    | ZeroStep         // datax[-1] == datax[0]: the division by deltaf is undefined
    | NoData(index: int) // "min_index = max_index = <index>, no data in this range"
    | Inverted         // "min_index > max_index, something went wrong"

  /** Python's int() of a float: rounds toward zero. */
  function Trunc(x: real): (t: int)
    ensures x >= 0.0 ==> 0 <= t && t as real <= x < t as real + 1.0
    ensures x < 0.0 ==> t <= 0 && t as real - 1.0 < x <= t as real
  {
    if x >= 0.0 then x.Floor else -((-x).Floor)
  }

  lemma TruncMonotone(x: real, y: real)
    requires x <= y
    ensures Trunc(x) <= Trunc(y)
  {
  }

  /** min(n - 1, max(0, i)) */
  function Clamp(i: int, n: nat): (c: nat)
    requires n > 0
    ensures c < n
    ensures 0 <= i < n ==> c == i
    ensures i < 0 ==> c == 0
    ensures i >= n ==> c == n - 1
  {
    var lower := if i < 0 then 0 else i;
    if lower > n - 1 then n - 1 else lower
  }

  lemma ClampMonotone(i: int, j: int, n: nat)
    requires n > 0 && i <= j
    ensures Clamp(i, n) <= Clamp(j, n)
  {
  }

  /** deltaf: the assumed uniform spacing of the samples, len steps spanning
      first to last; positive exactly for increasing endpoints and zero
      exactly for equal ones. */
  function Step(datax: seq<real>): (s: real)
    requires |datax| > 0
    ensures s * (|datax| as real) == datax[|datax| - 1] - datax[0]
    ensures s > 0.0 <==> datax[0] < datax[|datax| - 1]
    ensures s == 0.0 <==> datax[0] == datax[|datax| - 1]
  {
    SpacingSign(datax[|datax| - 1] - datax[0], |datax|);
    (datax[|datax| - 1] - datax[0]) / (|datax| as real)
  }

  lemma SpacingSign(span: real, n: nat)
    requires n > 0
    ensures var s := span / (n as real);
            s * (n as real) == span && (s > 0.0 <==> span > 0.0) && (s == 0.0 <==> span == 0.0)
  {
    var m := n as real;
    var s := span / m;
    assert s * m == span;
    if s <= 0.0 && span > 0.0 {
      NonNegativeProduct(-s, m, -s * m);
    }
    if s > 0.0 {
      PositiveProduct(s, m, s * m);
    }
  }

  /** The unclamped index of frequency `edge`. With increasing endpoints an
      edge below the first sample maps to an index <= 0, an edge in
      [first, last) to an index in [0, len), and an edge at or beyond the last
      sample to an index >= len. */
  function RawIndex(edge: real, datax: seq<real>): (r: int)
    requires |datax| > 0 && Step(datax) != 0.0
    ensures Step(datax) > 0.0 && edge < datax[0] ==> r <= 0
    ensures Step(datax) > 0.0 && datax[0] <= edge < datax[|datax| - 1] ==> 0 <= r < |datax|
    ensures Step(datax) > 0.0 && edge >= datax[|datax| - 1] ==> r >= |datax|
  {
    IndexOfEdge(edge - datax[0], datax[|datax| - 1] - datax[0], Step(datax), |datax|);
    Trunc((edge - datax[0]) / Step(datax))
  }

  /** For a span of n steps s > 0, the offset o lies below 0, in [0, span) or
      at or beyond the span exactly as o / s lies below 0, in [0, n) or at or
      beyond n. */
  lemma IndexOfEdge(o: real, span: real, s: real, n: nat)
    requires s != 0.0 && s * (n as real) == span
    ensures s > 0.0 ==>
              (o < 0.0 ==> o / s < 0.0) && (0.0 <= o ==> 0.0 <= o / s) &&
              (o < span ==> o / s < n as real) && (o >= span ==> o / s >= n as real)
  {
    if s < 0.0 {
      return;
    }
    var q := o / s;
    assert q * s == o;
    var m := n as real;
    if o < 0.0 && q >= 0.0 {
      NonNegativeProduct(q, s, o);
    }
    if 0.0 <= o && q < 0.0 {
      NegativeFactor(q, s, o);
    }
    if o < span && q >= m {
      NonNegativeProduct(q - m, s, o - span);
    }
    if o >= span && q < m {
      NegativeFactor(q - m, s, o - span);
    }
  }

  /** The two window edges mapped to indices and clamped into [0, len - 1]. */
  function ClampedEdges(width: real, center: real, datax: seq<real>): (e: (nat, nat))
    requires |datax| > 0 && Step(datax) != 0.0
    ensures e.0 < |datax| && e.1 < |datax|
  {
    (Clamp(RawIndex(center - width / 2.0, datax), |datax|),
     Clamp(RawIndex(center + width / 2.0, datax), |datax|))
  }

  function WidthToIndices(width: real, center: real, datax: seq<real>): (r: Result<(nat, nat), WindowError>)
    ensures r.Ok? ==> 0 <= r.value.0 < r.value.1 < |datax|
    ensures r == Err(EmptyData) <==> |datax| == 0
    ensures r == Err(ZeroStep) <==> |datax| > 0 && datax[0] == datax[|datax| - 1]
    ensures r.Err? && r.error.NoData? <==>
              |datax| > 0 && Step(datax) != 0.0 &&
              ClampedEdges(width, center, datax).0 == ClampedEdges(width, center, datax).1
    ensures r.Err? && r.error.NoData? ==> r.error.index == ClampedEdges(width, center, datax).0
    ensures r == Err(Inverted) <==>
              |datax| > 0 && Step(datax) != 0.0 &&
              ClampedEdges(width, center, datax).0 > ClampedEdges(width, center, datax).1
    ensures r.Ok? <==>
              |datax| > 0 && Step(datax) != 0.0 &&
              ClampedEdges(width, center, datax).0 < ClampedEdges(width, center, datax).1
  {
    if |datax| == 0 then Err(EmptyData)
    else if Step(datax) == 0.0 then Err(ZeroStep)
    else
      var (lo, hi) := ClampedEdges(width, center, datax);
      if lo == hi then Err(NoData(lo))
      else if lo > hi then Err(Inverted)
      else Ok((lo, hi))
  }

  lemma DivMonotone(a: real, b: real, s: real)
    requires a <= b && s > 0.0
    ensures a / s <= b / s
  {
    assert b / s - a / s == (b - a) / s;
    assert (b - a) / s * s == b - a;
  }

  /** For increasing data and a non-negative width, mapping and clamping are
      monotone, so the "min_index > max_index" branch cannot be reached. */
  lemma IncreasingNeverInverted(width: real, center: real, datax: seq<real>)
    requires |datax| > 0 && datax[0] < datax[|datax| - 1]
    requires width >= 0.0
    ensures WidthToIndices(width, center, datax) != Err(Inverted)
  {
    var s := Step(datax);
    var first := datax[0];
    DivMonotone(center - width / 2.0 - first, center + width / 2.0 - first, s);
    TruncMonotone((center - width / 2.0 - first) / s, (center + width / 2.0 - first) / s);
    ClampMonotone(RawIndex(center - width / 2.0, datax), RawIndex(center + width / 2.0, datax), |datax|);
  }

  /** For decreasing data and a positive width, the lower edge maps to an index
      at least as large as the upper edge's, so every call raises. */
  lemma DecreasingAlwaysRaises(width: real, center: real, datax: seq<real>)
    requires |datax| > 0 && datax[0] > datax[|datax| - 1]
    requires width > 0.0
    ensures WidthToIndices(width, center, datax).Err?
  {
    var s := Step(datax);
    var first := datax[0];
    var lo := center - width / 2.0 - first;
    var hi := center + width / 2.0 - first;
    assert s < 0.0;
    DivMonotone(-hi, -lo, -s);
    assert (-hi) / (-s) == hi / s;
    assert (-lo) / (-s) == lo / s;
    TruncMonotone(hi / s, lo / s);
    ClampMonotone(RawIndex(center + width / 2.0, datax), RawIndex(center - width / 2.0, datax), |datax|);
  }

  /** A window reaching from at or below the first sample to at or beyond the
      last one is clamped to the whole range (0, len - 1). */
  lemma CoveringWindowIsWholeRange(width: real, center: real, datax: seq<real>)
    requires |datax| >= 2 && datax[0] < datax[|datax| - 1]
    requires center - width / 2.0 <= datax[0]
    requires center + width / 2.0 >= datax[|datax| - 1]
    ensures WidthToIndices(width, center, datax) == Ok((0, |datax| - 1))
  {
    var s := Step(datax);
    var first := datax[0];
    var n := |datax| as real;
    assert (datax[|datax| - 1] - first) / s == n by {
      assert s * n == datax[|datax| - 1] - first;
    }
    DivMonotone(datax[|datax| - 1] - first, center + width / 2.0 - first, s);
    DivMonotone(center - width / 2.0 - first, 0.0, s);
  }

  /** A window lying wholly below the first sample collapses onto index 0. */
  lemma WindowBelowDataRaises(width: real, center: real, datax: seq<real>)
    requires |datax| > 0 && datax[0] < datax[|datax| - 1]
    requires width >= 0.0
    requires center + width / 2.0 < datax[0]
    ensures WidthToIndices(width, center, datax) == Err(NoData(0))
  {
    var s := Step(datax);
    var first := datax[0];
    DivMonotone(center - width / 2.0 - first, 0.0, s);
    DivMonotone(center + width / 2.0 - first, 0.0, s);
  }

  /** A window lying wholly beyond the last sample collapses onto index len - 1. */
  lemma WindowBeyondDataRaises(width: real, center: real, datax: seq<real>)
    requires |datax| > 0 && datax[0] < datax[|datax| - 1]
    requires width >= 0.0
    requires center - width / 2.0 > datax[|datax| - 1]
    ensures WidthToIndices(width, center, datax) == Err(NoData(|datax| - 1))
  {
    var s := Step(datax);
    var first := datax[0];
    var n := |datax| as real;
    assert (datax[|datax| - 1] - first) / s == n by {
      assert s * n == datax[|datax| - 1] - first;
    }
    DivMonotone(datax[|datax| - 1] - first, center - width / 2.0 - first, s);
    DivMonotone(datax[|datax| - 1] - first, center + width / 2.0 - first, s);
  }

  /** A zero-width window never yields indices. */
  lemma ZeroWidthRaises(center: real, datax: seq<real>)
    ensures WidthToIndices(0.0, center, datax).Err?
  {
  }

  /** Only datax[0], datax[-1] and len(datax) are read. */
  lemma EndpointsOnly(width: real, center: real, a: seq<real>, b: seq<real>)
    requires |a| == |b| > 0
    requires a[0] == b[0] && a[|a| - 1] == b[|b| - 1]
    ensures WidthToIndices(width, center, a) == WidthToIndices(width, center, b)
  {
  }
}
