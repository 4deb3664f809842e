/** `estimate_parameters` of src/cryofit/models.py: a closed-form first guess
    of the cavity parameters from one frequency sweep of S21 and S11. The
    measured sweep enters as magnitudes and phases (np.abs, np.angle), and
    np.tan as a function parameter. */
module Estimation {
  import opened Wrappers
  import opened Samples
  import IndexWindow
  import NaivePeakWidth
  import opened ResonanceModel
  import opened Arithmetic

  /** np.pi as the shortest decimal that rounds to its double. */
  const Pi: real := 3.141592653589793

  /** a and b differ by a whole number of turns 2 pi. */
  predicate SameAngle(a: real, b: real)
  {
    ((a - b) / (2.0 * Pi)).Floor as real == (a - b) / (2.0 * Pi)
  }

  /** The number of turns that brings theta into (-pi, pi]. */
  function Turns(theta: real): int
  {
    ((Pi - theta) / (2.0 * Pi)).Floor
  }

  /** np.angle(np.exp(1j * theta)): the principal value of the angle theta. */
  function Wrap(theta: real): (r: real)
    ensures -Pi < r <= Pi
    ensures SameAngle(r, theta)
  {
    var k := Turns(theta);
    assert (k as real) <= (Pi - theta) / (2.0 * Pi) < (k as real) + 1.0;
    assert ((theta + 2.0 * Pi * (k as real)) - theta) / (2.0 * Pi) == k as real;
    theta + 2.0 * Pi * (k as real)
  }

  lemma SameAngleTransitive(a: real, b: real, c: real)
    requires SameAngle(a, b) && SameAngle(b, c)
    ensures SameAngle(a, c)
  {
    var u := (a - b) / (2.0 * Pi);
    var v := (b - c) / (2.0 * Pi);
    var w := (a - c) / (2.0 * Pi);
    SumOfQuotients(a - b, b - c, a - c, 2.0 * Pi, u, v, w);
    assert w == (u.Floor + v.Floor) as real;
  }

  lemma SameAngleSymmetric(a: real, b: real)
    requires SameAngle(a, b)
    ensures SameAngle(b, a)
  {
    var u := (a - b) / (2.0 * Pi);
    var v := (b - a) / (2.0 * Pi);
    NegatedQuotient(a - b, b - a, 2.0 * Pi, u, v);
    assert v == (-u.Floor) as real;
  }

  lemma SumOfQuotients(x: real, y: real, z: real, d: real, u: real, v: real, w: real)
    requires d != 0.0 && z == x + y && u == x / d && v == y / d && w == z / d
    ensures w == u + v
  {
    assert u * d == x && v * d == y && w * d == z;
    assert (u + v) * d == u * d + v * d;
    Cancel(w, u + v, d);
  }

  lemma NegatedQuotient(x: real, y: real, d: real, u: real, v: real)
    requires d != 0.0 && y == -x && u == x / d && v == y / d
    ensures v == -u
  {
    assert u * d == x && v * d == y;
    assert (-u) * d == -(u * d);
    Cancel(v, -u, d);
  }

  /** Two principal values of the same angle are equal. */
  lemma PrincipalUnique(a: real, b: real)
    requires -Pi < a <= Pi && -Pi < b <= Pi && SameAngle(a, b)
    ensures a == b
  {
    var m := ((a - b) / (2.0 * Pi)).Floor;
    assert -1.0 < (a - b) / (2.0 * Pi) < 1.0;
  }

  /** Wrap leaves a principal value alone and gives the same value for the
      same angle. */
  lemma WrapCanonical(a: real, b: real)
    requires SameAngle(a, b)
    ensures Wrap(a) == Wrap(b)
    ensures -Pi < a <= Pi ==> Wrap(a) == a
  {
    SameAngleTransitive(Wrap(a), a, b);
    SameAngleSymmetric(Wrap(b), b);
    SameAngleTransitive(Wrap(a), b, Wrap(b));
    PrincipalUnique(Wrap(a), Wrap(b));
    if -Pi < a <= Pi {
      PrincipalUnique(Wrap(a), a);
    }
  }

  /** Lines 34-35: theta11 is theta11_up_to_pi, turned by pi and brought back
      into (-pi, pi] when B < 0. */
  function CorrectTheta11(raw: real, b: real): (t: real)
    ensures b >= 0.0 ==> t == raw
    ensures b < 0.0 ==> -Pi < t <= Pi && SameAngle(t, raw - Pi)
  {
    if b < 0.0 then Wrap(raw - Pi) else raw
  }

  /** At resonance S11 is e^{i theta11} A B: with A > 0 its measured phase is
      theta11 when B > 0 and theta11 + pi when B < 0. The correction gives
      theta11 back in both cases. */
  lemma Theta11RoundTrip(theta11: real, raw: real, b: real)
    requires -Pi < theta11 <= Pi && -Pi < raw <= Pi && b != 0.0
    requires if b < 0.0 then SameAngle(raw, theta11 + Pi) else SameAngle(raw, theta11)
    ensures CorrectTheta11(raw, b) == theta11
  {
    if b < 0.0 {
      assert SameAngle(raw - Pi, theta11) by {
        assert (raw - Pi) - theta11 == raw - (theta11 + Pi);
      }
      WrapCanonical(raw - Pi, theta11);
      WrapCanonical(theta11, theta11);
    } else {
      PrincipalUnique(raw, theta11);
    }
  }

  /** Line 22: the loaded quality factor QL = f0 / width. */
  function QualityFactor(f0: real, width: real): (ql: real)
    requires width != 0.0
    ensures ql * width == f0
    ensures f0 > 0.0 && width > 0.0 ==> ql > 0.0
    ensures f0 != 0.0 ==> ql != 0.0
  {
    QuotientSign(f0, width);
    f0 / width
  }

  lemma QuotientSign(n: real, d: real)
    requires d != 0.0
    ensures (n / d) * d == n
    ensures n > 0.0 && d > 0.0 ==> n / d > 0.0
    ensures n != 0.0 ==> n / d != 0.0
  {
    var q := n / d;
    assert q * d == n;
    if n > 0.0 && d > 0.0 && q <= 0.0 {
      NonPositiveProduct(q, d, q * d);
    }
  }

  /** Line 32: B from the tangent t of the phase at id_phi, the detuning d of
      that sample and QL, evaluated left to right as Python does. None stands
      for a division by zero. */
  function InvertReflection(t: real, d: real, ql: real): (r: Option<real>)
    ensures r.None? <==> d == 0.0 || ql == 0.0 || 1.0 + t / d / ql == 0.0
    ensures r.Some? ==> r.value * (1.0 + t / d / ql) == 1.0 - t * d * ql
  {
    if d == 0.0 || ql == 0.0 || 1.0 + t / d / ql == 0.0 then None
    else
      QuotientSign(1.0 - t * d * ql, 1.0 + t / d / ql);
      Some((1.0 - t * d * ql) / (1.0 + t / d / ql))
  }

  /** Line 32 inverts the phase of line 10: if t is the tangent of the line
      shape's phase at q = QL d, the formula returns exactly B, whatever the
      sign of B. */
  lemma ReflectionRoundTrip(b: real, d: real, ql: real)
    requires d != 0.0 && ql != 0.0 && b + Square(ql * d) != 0.0
    ensures InvertReflection(PhaseTangent(b, ql * d), d, ql) == Some(b)
  {
    var q := ql * d;
    var t := PhaseTangent(b, q);
    assert Square(q) == q * q;
    var g := b + q * q;
    assert t * g == q * (1.0 - b);
    var prod := t * d * ql;
    var quot := t / d / ql;
    StepsOfLine32(t, d, ql, q);
    assert prod == t * q && quot * q == t;
    InversionAlgebra(b, q, t, g, prod, quot);
    InvertReflectionValue(t, d, ql, prod, quot);
  }

  lemma InvertReflectionValue(t: real, d: real, ql: real, prod: real, quot: real)
    requires d != 0.0 && ql != 0.0 && prod == t * d * ql && quot == t / d / ql && 1.0 + quot != 0.0
    ensures InvertReflection(t, d, ql) == Some((1.0 - prod) / (1.0 + quot))
  {
  }

  /** t d QL = t q and (t / d / QL) q = t, for q = QL d. */
  lemma StepsOfLine32(t: real, d: real, ql: real, q: real)
    requires d != 0.0 && ql != 0.0 && q == ql * d
    ensures t * d * ql == t * q
    ensures (t / d / ql) * q == t
  {
    var e := t / d;
    assert e * d == t;
    var quot := e / ql;
    assert quot * ql == e;
    assert quot * q == (quot * ql) * d;
  }

  /** From quot q = t and t g = q c follows quot g = c. */
  lemma ScaledQuotient(quot: real, q: real, t: real, g: real, c: real)
    requires q != 0.0 && quot * q == t && t * g == q * c
    ensures quot * g == c
  {
    assert (quot * g) * q == (quot * q) * g;
    assert (quot * g) * q == c * q;
    Cancel(quot * g, c, q);
  }

  lemma InversionAlgebra(b: real, q: real, t: real, g: real, prod: real, quot: real)
    requires q != 0.0 && g == b + q * q && g != 0.0
    requires t * g == q * (1.0 - b)
    requires prod == t * q && quot * q == t
    ensures 1.0 + quot != 0.0
    ensures (1.0 - prod) / (1.0 + quot) == b
  {
    var n := 1.0 + q * q;
    assert q * q >= 0.0;
    var num := 1.0 - prod;
    var den := 1.0 + quot;
    assert num * g == g - (t * g) * q;
    assert num * g == b * n;
    ScaledQuotient(quot, q, t, g, 1.0 - b);
    assert den * g == n;
    assert den != 0.0;
    var r := num / den;
    assert r * den == num;
    assert r * n == b * n by {
      assert r * n == (r * den) * g;
    }
    Cancel(r, b, n);
  }

  /** Lines 40-41: A = |S11(f0)| / |B| and C = max |S21| / A. None stands for
      a division by zero. */
  function Amplitudes(s11Peak: real, s21Peak: real, b: real): (r: Option<(real, real)>)
    ensures r.None? <==> b == 0.0 || s11Peak == 0.0
    ensures r.Some? ==> r.value.0 * Abs(b) == s11Peak && r.value.0 * r.value.1 == s21Peak
  {
    if b == 0.0 then None
    else
      QuotientSign(s11Peak, Abs(b));
      var a := s11Peak / Abs(b);
      if a == 0.0 then None
      else
        QuotientSign(s21Peak, a);
        Some((a, s21Peak / a))
  }

  /** Lines 40-41 recover A and C from the resonance magnitudes |A B| and
      |A C| of lines 10 and 16, for A > 0 and B != 0. */
  lemma AmplitudesRoundTrip(a: real, b: real, c: real)
    requires a > 0.0 && b != 0.0
    ensures Amplitudes(a * Abs(b), a * c, b) == Some((a, c))
  {
    var m := a * Abs(b);
    PositiveProduct(a, Abs(b), m);
    var r := Amplitudes(m, a * c, b).value;
    Cancel(r.0, a, Abs(b));
    Cancel(r.1, c, a);
  }

  /** Lines 43-45: alpha = (1 - B) / (1 + B), k1 = 4 / (4 alpha - (C (alpha + 1))^2)
      and k2 = alpha k1 - 1. None stands for a division by zero. Whatever B
      and C, the couplings returned give back B through line 9 and C^2
      through line 15. */
  function Couplings(b: real, c: real): (k: Option<(real, real)>)
    ensures k.None? <==> b == -1.0 || CouplingDenominator(Alpha(b), c) == 0.0
    ensures k.Some? ==> 1.0 + k.value.0 + k.value.1 != 0.0 &&
                        ResonantReflection(k.value.0, k.value.1) == b &&
                        CouplingSquared(k.value.0, k.value.1) == Square(c)
  {
    if b == -1.0 then None
    else
      var alpha := Alpha(b);
      var den := CouplingDenominator(alpha, c);
      if den == 0.0 then None
      else
        var k1 := 4.0 / den;
        CouplingsConsistent(b, c, alpha, den, k1, alpha * k1 - 1.0);
        Some((k1, alpha * k1 - 1.0))
  }

  /** alpha = (1 - B) / (1 + B) of line 43: it solves alpha (1 + B) = 1 - B,
      is never -1, is positive for B in (-1, 1) and zero for B = 1. */
  function Alpha(b: real): (alpha: real)
    requires b != -1.0
    ensures alpha * (1.0 + b) == 1.0 - b
    ensures alpha != -1.0
    ensures -1.0 < b < 1.0 ==> alpha > 0.0
    ensures alpha == 0.0 <==> b == 1.0
  {
    QuotientSign(1.0 - b, 1.0 + b);
    (1.0 - b) / (1.0 + b)
  }

  /** The denominator 4 alpha - (C (alpha + 1))^2 of line 44: at most
      4 alpha, and equal to it exactly when C = 0 or alpha = -1. */
  function CouplingDenominator(alpha: real, c: real): (den: real)
    ensures den <= 4.0 * alpha
    ensures den == 4.0 * alpha <==> c == 0.0 || alpha == -1.0
  {
    SquareVanishes(c, alpha + 1.0);
    4.0 * alpha - Square(c * (alpha + 1.0))
  }

  /** (x y)^2 is non-negative, and zero exactly when x or y is. */
  lemma SquareVanishes(x: real, y: real)
    ensures Square(x * y) >= 0.0
    ensures Square(x * y) == 0.0 <==> x == 0.0 || y == 0.0
  {
    SquareNonNegative(x * y);
    if x * y != 0.0 {
      SquarePositive(x * y);
    } else {
      ZeroProduct(x, y);
    }
  }

  lemma CouplingsConsistent(b: real, c: real, alpha: real, den: real, k1: real, k2: real)
    requires b != -1.0 && alpha == Alpha(b)
    requires den == CouplingDenominator(alpha, c) && den != 0.0
    requires k1 == 4.0 / den && k2 == alpha * k1 - 1.0
    ensures 1.0 + k1 + k2 != 0.0
    ensures ResonantReflection(k1, k2) == b
    ensures CouplingSquared(k1, k2) == Square(c)
  {
    assert alpha * (1.0 + b) == 1.0 - b;
    assert k1 * den == 4.0;
    var s := 1.0 + k1 + k2;
    var e := 1.0 + alpha;
    assert e * (1.0 + b) == 2.0;
    assert s == k1 * e;
    NonZeroProduct(k1, e, s);
    assert b * e == 1.0 - alpha;
    assert k1 - 1.0 - k2 == k1 * (1.0 - alpha);
    ReflectionOf(k1, k2, s, b, e);
    SquareOfCoupling(c, alpha, den, k1, k2, e, s);
  }

  lemma NonZeroProduct(x: real, y: real, p: real)
    requires x != 0.0 && y != 0.0 && p == x * y
    ensures p != 0.0
  {
  }

  /** (k1 - 1 - k2) / s = B when s = k1 e and B e = 1 - alpha, k2 = alpha k1 - 1. */
  lemma ReflectionOf(k1: real, k2: real, s: real, b: real, e: real)
    requires s == 1.0 + k1 + k2 && s != 0.0 && s == k1 * e
    requires k1 - 1.0 - k2 == k1 * (b * e)
    ensures ResonantReflection(k1, k2) == b
  {
    var r := ResonantReflection(k1, k2);
    assert r * s == k1 - 1.0 - k2;
    assert k1 * (b * e) == b * s by {
      assert k1 * (b * e) == b * (k1 * e);
    }
    assert r * s == b * s;
    Cancel(r, b, s);
  }

  lemma SquareOfCoupling(c: real, alpha: real, den: real, k1: real, k2: real, e: real, s: real)
    requires e == 1.0 + alpha && s == k1 * e && s == 1.0 + k1 + k2 && s != 0.0
    requires den == 4.0 * alpha - Square(c * (alpha + 1.0)) && k1 * den == 4.0
    requires k2 == alpha * k1 - 1.0
    ensures CouplingSquared(k1, k2) == Square(c)
  {
    var w := Square(c * e);
    var kk := Square(k1);
    SquareOfProduct(c, e);
    SquareOfProduct(k1, e);
    ScaledDenominator(k1, den, alpha, w, kk);
    assert 4.0 * k1 * k2 == 4.0 * alpha * kk - 4.0 * k1 by {
      assert kk == k1 * k1;
    }
    assert kk * w == Square(c) * Square(s) by {
      assert kk * (Square(c) * Square(e)) == Square(c) * (kk * Square(e));
    }
    SquarePositive(s);
    QuotientValue(4.0 * k1 * k2, Square(s), Square(c));
  }

  lemma SquareOfProduct(x: real, y: real)
    ensures Square(x * y) == Square(x) * Square(y)
  {
  }

  /** k1 (4 alpha - w) = 4 gives 4 alpha k1^2 - k1^2 w = 4 k1. */
  lemma ScaledDenominator(k1: real, den: real, alpha: real, w: real, kk: real)
    requires kk == k1 * k1 && den == 4.0 * alpha - w && k1 * den == 4.0
    ensures 4.0 * alpha * kk - kk * w == 4.0 * k1
  {
    assert (k1 * den) * k1 == 4.0 * k1;
  }

  /** x / y = v when x = v y. */
  lemma QuotientValue(x: real, y: real, v: real)
    requires y != 0.0 && x == v * y
    ensures x / y == v
  {
    var q := x / y;
    assert q * y == x;
    Cancel(q, v, y);
  }

  /** Lines 43-45 invert lines 9 and 15: from B and any C with C^2 equal to
      4 k1 k2 / (1 + k1 + k2)^2 they give back k1 and k2 (k1 != 0). */
  lemma CouplingsRoundTrip(k1: real, k2: real, c: real)
    requires k1 != 0.0 && 1.0 + k1 + k2 != 0.0
    requires Square(c) == CouplingSquared(k1, k2)
    ensures Couplings(ResonantReflection(k1, k2), c) == Some((k1, k2))
  {
    var s := 1.0 + k1 + k2;
    var b := ResonantReflection(k1, k2);
    assert b * s == k1 - 1.0 - k2 && 1.0 + b != 0.0 by {
      ReflectionScaled(k1, k2, s, b);
    }
    var alpha := Alpha(b);
    assert alpha * k1 == 1.0 + k2 by {
      AlphaOfCouplings(b, s, k1, k2, alpha);
    }
    var den := CouplingDenominator(alpha, c);
    assert den * k1 == 4.0 by {
      CouplingSquaredScaled(k1, k2, s, Square(c));
      DenominatorOfCouplings(c, alpha, k1, k2, s, den);
    }
    CouplingsValue(b, c, alpha, den, k1, k2);
  }

  /** B (1 + k1 + k2) = k1 - 1 - k2, and so 1 + B != 0 when k1 != 0. */
  lemma ReflectionScaled(k1: real, k2: real, s: real, b: real)
    requires s == 1.0 + k1 + k2 && s != 0.0 && k1 != 0.0 && b == ResonantReflection(k1, k2)
    ensures b * s == k1 - 1.0 - k2
    ensures 1.0 + b != 0.0
  {
    assert b * s == k1 - 1.0 - k2;
    assert (1.0 + b) * s == 2.0 * k1;
    NonZeroFactor(1.0 + b, s, 2.0 * k1);
  }

  lemma CouplingSquaredScaled(k1: real, k2: real, s: real, cc: real)
    requires s == 1.0 + k1 + k2 && s != 0.0 && cc == CouplingSquared(k1, k2)
    ensures cc * Square(s) == 4.0 * k1 * k2
  {
    SquarePositive(s);
  }

  lemma CouplingsValue(b: real, c: real, alpha: real, den: real, k1: real, k2: real)
    requires b != -1.0 && alpha == Alpha(b)
    requires den == CouplingDenominator(alpha, c) && den * k1 == 4.0
    requires alpha * k1 - 1.0 == k2
    ensures Couplings(b, c) == Some((k1, k2))
  {
    NonZeroFactor(den, k1, 4.0);
    QuotientValue(4.0, den, k1);
    var r := Couplings(b, c);
    assert r.Some? && r.value.0 == k1 && r.value.1 == k2;
    assert r == Some((r.value.0, r.value.1));
  }

  lemma NonZeroFactor(x: real, y: real, p: real)
    requires x * y == p && p != 0.0
    ensures x != 0.0
  {
  }

  /** alpha k1 = 1 + k2 for alpha = (1 - B) / (1 + B) and B of line 9. */
  lemma AlphaOfCouplings(b: real, s: real, k1: real, k2: real, alpha: real)
    requires s == 1.0 + k1 + k2 && s != 0.0 && k1 != 0.0
    requires b * s == k1 - 1.0 - k2 && 1.0 + b != 0.0
    requires alpha == (1.0 - b) / (1.0 + b)
    ensures alpha * k1 == 1.0 + k2
  {
    assert alpha * (1.0 + b) == 1.0 - b;
    assert (alpha * (1.0 + b)) * s == (1.0 - b) * s;
    assert (1.0 + b) * s == 2.0 * k1;
    assert (1.0 - b) * s == 2.0 * (1.0 + k2);
    assert alpha * (2.0 * k1) == 2.0 * (1.0 + k2);
  }

  /** With alpha k1 = 1 + k2 and C^2 (1 + k1 + k2)^2 = 4 k1 k2, the denominator
      of line 44 is 4 / k1. */
  lemma DenominatorOfCouplings(c: real, alpha: real, k1: real, k2: real, s: real, den: real)
    requires s == 1.0 + k1 + k2 && k1 != 0.0
    requires alpha * k1 == 1.0 + k2
    requires Square(c) * Square(s) == 4.0 * k1 * k2
    requires den == 4.0 * alpha - Square(c * (alpha + 1.0))
    ensures den * k1 == 4.0
  {
    var e := alpha + 1.0;
    var cc, ee, kk, w := Square(c), Square(e), Square(k1), Square(c * e);
    assert e * k1 == s by {
      Distribute(alpha, 1.0, k1);
    }
    assert Square(s) == ee * kk by {
      SquareOfProduct(e, k1);
    }
    assert w == cc * ee by {
      SquareOfProduct(c, e);
    }
    assert cc * (ee * kk) == 4.0 * k1 * k2 by {
      Substitute(cc, Square(s), ee * kk, 4.0 * k1 * k2);
    }
    assert kk == k1 * k1;
    assert den == 4.0 * alpha - w;
    DenominatorAlgebra(cc, ee, kk, k1, k2, alpha, den, w);
  }

  lemma Distribute(x: real, y: real, k: real)
    ensures (x + y) * k == x * k + y * k
  {
  }

  lemma Substitute(f: real, x: real, y: real, r: real)
    requires f * x == r && x == y
    ensures f * y == r
  {
  }

  lemma Difference(x: real, y: real, z: real, u: real)
    requires x == y - z && y == u + z
    ensures x == u
  {
  }

  lemma DenominatorAlgebra(cc: real, ee: real, kk: real, k1: real, k2: real, alpha: real, den: real, w: real)
    requires w == cc * ee && cc * (ee * kk) == 4.0 * k1 * k2
    requires kk == k1 * k1 && alpha * k1 == 1.0 + k2 && k1 != 0.0
    requires den == 4.0 * alpha - w
    ensures den * k1 == 4.0
  {
    assert w * kk == 4.0 * k1 * k2;
    assert (den * k1) * k1 == 4.0 * (alpha * k1) * k1 - w * kk;
    assert 4.0 * (alpha * k1) * k1 == 4.0 * k1 + 4.0 * k1 * k2;
    assert 4.0 * (alpha * k1) * k1 == 4.0 * k1 + 4.0 * k1 * k2;
    Difference((den * k1) * k1, 4.0 * (alpha * k1) * k1, w * kk, 4.0 * k1);
    Cancel(den * k1, 4.0, k1);
  }

  /** Line 28: id_phi = peak - max(1, peak - lo), lo being the lower index of
      the window of width / 3 around f0. The sample is the one just left of
      the peak or the window's lower edge, whichever is further left; for a
      peak at index 0 the index is -1, which Python reads as the last sample. */
  function PhaseIndex(peak: nat, lo: nat, n: nat): (i: nat)
    requires peak < n
    ensures i < n
    ensures peak > 0 ==> i < peak && i == (if lo < peak - 1 then lo else peak - 1)
    ensures peak == 0 ==> i == n - 1
  {
    var raw := peak - (if 1 >= peak - lo then 1 else peak - lo);
    if raw < 0 then n + raw else raw
  }

  /** The dictionary `estimate_parameters` returns. */
  datatype Guess = Guess(f0: real, ql: real, k1: real, k2: real, a: real, b: real, c: real,
                         theta11: real, theta21: real, width: real)

  /** Why `estimate_parameters` gives no finite guess. */
  datatype EstimateError =
    | EmptyData                                 // np.argmax of an empty array
    | WidthFailed(NaivePeakWidth.WidthError)    // peak_width found no crossing
    | WindowFailed(IndexWindow.WindowError)     // width_to_indeces raised
    | NotFinite                                 // a division by zero: a field is inf or nan

  /** The guess reproduces the resonance magnitudes it was read from:
      |S11(f0)| = A |B| and |S21(f0)| = A C. */
  predicate MatchesResonance(g: Guess, s11Peak: real, s21Peak: real)
  {
    g.a * Abs(g.b) == s11Peak && g.a * g.c == s21Peak
  }

  /** The guess agrees with itself: QL width = f0, and k1, k2 give back B
      through line 9 and C^2 through line 15. */
  predicate SelfConsistent(g: Guess)
  {
    g.ql * g.width == g.f0 &&
    1.0 + g.k1 + g.k2 != 0.0 &&
    ResonantReflection(g.k1, g.k2) == g.b &&
    CouplingSquared(g.k1, g.k2) == Square(g.c)
  }

  /** The facts established one line at a time carry over to the assembled guess. */
  lemma SolvedGuess(f0: real, width: real, ql: real, k1: real, k2: real, a: real, b: real, c: real,
                    theta11: real, theta21: real, s11Peak: real, s21Peak: real)
    requires ql * width == f0 && a * Abs(b) == s11Peak && a * c == s21Peak
    requires 1.0 + k1 + k2 != 0.0 && ResonantReflection(k1, k2) == b && CouplingSquared(k1, k2) == Square(c)
    ensures MatchesResonance(Guess(f0, ql, k1, k2, a, b, c, theta11, theta21, width), s11Peak, s21Peak)
    ensures SelfConsistent(Guess(f0, ql, k1, k2, a, b, c, theta11, theta21, width))
  {
  }

  /** Lines 37-45 divide by nothing that is zero: A and C exist for B and
      |S11(f0)|, and k1, k2 exist for B and that C. */
  predicate Solvable(b: real, s11Peak: real, s21Peak: real)
  {
    Amplitudes(s11Peak, s21Peak, b).Some? && Couplings(b, Amplitudes(s11Peak, s21Peak, b).value.1).Some?
  }

  /** Lines 35-45, once QL and B are known: the corrected theta11, then A and
      C from the resonance magnitudes, then k1 and k2. */
  function SolveFromReflection(f0: real, width: real, ql: real, b: real, raw11: real, theta21: real,
                               s11Peak: real, s21Peak: real): (r: Result<Guess, EstimateError>)
    requires ql * width == f0
    ensures r.Err? ==> r.error == NotFinite
    ensures r.Ok? <==> Solvable(b, s11Peak, s21Peak)
    ensures r.Ok? ==> r.value.f0 == f0 && r.value.width == width && r.value.theta21 == theta21
    ensures r.Ok? ==> r.value.ql == ql && r.value.b == b
    ensures r.Ok? ==> MatchesResonance(r.value, s11Peak, s21Peak) && SelfConsistent(r.value)
    ensures r.Ok? && b >= 0.0 ==> r.value.theta11 == raw11
    ensures r.Ok? && b < 0.0 ==> -Pi < r.value.theta11 <= Pi && SameAngle(r.value.theta11, raw11 - Pi)
  {
    var theta11 := CorrectTheta11(raw11, b);
    match Amplitudes(s11Peak, s21Peak, b)
    case None => Err(NotFinite)
    case Some(ac) =>
      match Couplings(b, ac.1)
      case None => Err(NotFinite)
      case Some(k) =>
        SolvedGuess(f0, width, ql, k.0, k.1, ac.0, b, ac.1, theta11, theta21, s11Peak, s21Peak);
        Ok(Guess(f0, ql, k.0, k.1, ac.0, b, ac.1, theta11, theta21, width))
  }

  /** Lines 22 and 32-45, from the peak frequency, the width, the tangent t of
      the phase at id_phi, that sample's detuning, the raw phases at the peak
      and the resonance magnitudes. */
  function SolveParameters(f0: real, width: real, t: real, dPhi: real, raw11: real, theta21: real,
                           s11Peak: real, s21Peak: real): (r: Result<Guess, EstimateError>)
    requires width != 0.0
    ensures r.Err? ==> r.error == NotFinite
    ensures r.Ok? <==> InvertReflection(t, dPhi, QualityFactor(f0, width)).Some? &&
                       Solvable(InvertReflection(t, dPhi, QualityFactor(f0, width)).value, s11Peak, s21Peak)
    ensures r.Ok? ==> r.value.ql == QualityFactor(f0, width) && InvertReflection(t, dPhi, r.value.ql) == Some(r.value.b)
    ensures r.Ok? ==> r.value.f0 == f0 && r.value.width == width && r.value.theta21 == theta21
    ensures r.Ok? ==> MatchesResonance(r.value, s11Peak, s21Peak) && SelfConsistent(r.value)
    ensures r.Ok? && r.value.b >= 0.0 ==> r.value.theta11 == raw11
    ensures r.Ok? && r.value.b < 0.0 ==> -Pi < r.value.theta11 <= Pi && SameAngle(r.value.theta11, raw11 - Pi)
  {
    var ql := QualityFactor(f0, width);
    match InvertReflection(t, dPhi, ql)
    case None => Err(NotFinite)
    case Some(b) => SolveFromReflection(f0, width, ql, b, raw11, theta21, s11Peak, s21Peak)
  }

  /** From exact measurements of the model -- the resonance magnitudes A |B|
      and A C of lines 10 and 16, the width f0 / QL and the tangent of the
      line shape's phase at a detuned sample -- lines 22 and 32-45 recover
      every parameter of the model. */
  lemma SolveRecoversModel(f0: real, ql: real, k1: real, k2: real, a: real, root: real,
                           theta11: real, theta21: real, b: real, c: real,
                           width: real, d: real, raw11: real, s11Peak: real, s21Peak: real)
    requires ql != 0.0 && k1 != 0.0 && 1.0 + k1 + k2 != 0.0 && a > 0.0 && root * root == k1 * k2
    requires b == ResonantReflection(k1, k2) && c == ResonantTransmission(k1, k2, root) && b != 0.0
    requires width != 0.0 && ql * width == f0
    requires d != 0.0 && b + Square(ql * d) != 0.0
    requires s11Peak == a * Abs(b) && s21Peak == a * c
    requires -Pi < theta11 <= Pi && -Pi < raw11 <= Pi
    requires if b < 0.0 then SameAngle(raw11, theta11 + Pi) else SameAngle(raw11, theta11)
    ensures SolveParameters(f0, width, PhaseTangent(b, ql * d), d, raw11, theta21, s11Peak, s21Peak) ==
            Ok(Guess(f0, ql, k1, k2, a, b, c, theta11, theta21, width))
  {
    assert QualityFactor(f0, width) == ql by {
      QuotientValue(f0, width, ql);
    }
    ReflectionRoundTrip(b, d, ql);
    Theta11RoundTrip(theta11, raw11, b);
    AmplitudesRoundTrip(a, b, c);
    TransmissionSquared(k1, k2, root);
    CouplingsRoundTrip(k1, k2, c);
    var r := SolveParameters(f0, width, PhaseTangent(b, ql * d), d, raw11, theta21, s11Peak, s21Peak);
    assert r.Ok?;
    assert r.value == Guess(f0, ql, k1, k2, a, b, c, theta11, theta21, width);
    assert r == Ok(r.value);
  }

  /** What lines 19-31 read off the sweep before the algebra of lines 32-45. */
  datatype Reading = Reading(f0: real, width: real, t: real, dPhi: real, raw11: real, theta21: real,
                             s11Peak: real, s21Peak: real)

  /** Lines 19-31: the peak, its width, the phase sample id_phi and the values
      read at both. */
  function ReadSweep(freqs: seq<real>, mag21: seq<real>, arg21: seq<real>,
                     mag11: seq<real>, arg11: seq<real>, tan: real -> real): (r: Result<Reading, EstimateError>)
    requires |mag21| == |freqs| && |arg21| == |freqs| && |mag11| == |freqs| && |arg11| == |freqs|
    ensures r == Err(EmptyData) <==> |freqs| == 0
    ensures |freqs| > 0 ==> (r == Err(WidthFailed(NaivePeakWidth.NoCrossing)) <==> Min(mag21) == Max(mag21))
    ensures r.Err? && r.error.WidthFailed? <==> |freqs| > 0 && NaivePeakWidth.WidthOf(freqs, mag21).Err?
    ensures |freqs| > 0 && NaivePeakWidth.WidthOf(freqs, mag21).Ok? ==>
              r == ReadPeak(freqs, mag21, arg21, mag11, arg11, tan, NaivePeakWidth.WidthOf(freqs, mag21).value)
    ensures r.Ok? ==> |freqs| > 0 && NaivePeakWidth.WidthOf(freqs, mag21) == Ok(r.value.width) && r.value.width > 0.0 &&
                      ReadAtPhase(freqs, mag21, arg21, mag11, arg11, tan, r.value)
  {
    if |freqs| == 0 then Err(EmptyData)
    else
      match NaivePeakWidth.WidthOf(freqs, mag21)
      case Err(e) => Err(WidthFailed(e))
      case Ok(width) => ReadPeak(freqs, mag21, arg21, mag11, arg11, tan, width)
  }

  /** What lines 27-31 read for the reading m of width m.width: the window of
      width / 3 around the first argmax p of abs(S21) exists, id_phi is taken
      from its lower index, f0 = freqs[p], the values at the peak are those at
      p, dPhi is the detuning of freqs[id_phi] from f0 and t is the tangent of
      the principal phase difference of S11 between id_phi and p. */
  predicate ReadAtPhase(freqs: seq<real>, mag21: seq<real>, arg21: seq<real>,
                        mag11: seq<real>, arg11: seq<real>, tan: real -> real, m: Reading)
    requires |mag21| == |freqs| && |arg21| == |freqs| && |mag11| == |freqs| && |arg11| == |freqs|
    requires |freqs| > 0
  {
    var p := ArgMax(mag21);
    var w := IndexWindow.WidthToIndices(m.width / 3.0, freqs[p], freqs);
    w.Ok? &&
    var i := PhaseIndex(p, w.value.0, |freqs|);
    freqs[p] != 0.0 && freqs[i] != 0.0 &&
    m.f0 == freqs[p] && m.theta21 == arg21[p] && m.raw11 == arg11[p] &&
    m.s11Peak == mag11[p] && m.s21Peak == mag21[p] &&
    m.dPhi == Detuning(freqs[i], freqs[p]) &&
    m.t == tan(Wrap(arg11[i] - arg11[p]))
  }

  /** Lines 27-31, once the width is known: the window of width / 3 around
      the peak, then the values read at the peak and at id_phi. */
  function ReadPeak(freqs: seq<real>, mag21: seq<real>, arg21: seq<real>,
                    mag11: seq<real>, arg11: seq<real>, tan: real -> real,
                    width: real): (r: Result<Reading, EstimateError>)
    requires |mag21| == |freqs| && |arg21| == |freqs| && |mag11| == |freqs| && |arg11| == |freqs|
    requires |freqs| > 0
    ensures r.Err? ==> r == Err(NotFinite) || r.error.WindowFailed?
    ensures width == 0.0 ==> r.Err? && r.error.WindowFailed?
    ensures r.Err? && r.error.WindowFailed? <==>
              IndexWindow.WidthToIndices(width / 3.0, freqs[ArgMax(mag21)], freqs).Err?
    ensures r == Err(NotFinite) ==>
              var p := ArgMax(mag21);
              var w := IndexWindow.WidthToIndices(width / 3.0, freqs[p], freqs);
              w.Ok? && (freqs[p] == 0.0 || freqs[PhaseIndex(p, w.value.0, |freqs|)] == 0.0)
    ensures r.Ok? ==> r.value.width == width && ReadAtPhase(freqs, mag21, arg21, mag11, arg11, tan, r.value)
  {
    var f0 := freqs[ArgMax(mag21)];
    IndexWindow.ZeroWidthRaises(f0, freqs);
    match IndexWindow.WidthToIndices(width / 3.0, f0, freqs)
    case Err(e) => Err(WindowFailed(e))
    case Ok(window) => ReadAt(freqs, mag21, arg21, mag11, arg11, tan, width, window.0)
  }

  /** Lines 28-31, once the window's lower index lo is known: the values read
      at the peak p and at id_phi. */
  function ReadAt(freqs: seq<real>, mag21: seq<real>, arg21: seq<real>,
                  mag11: seq<real>, arg11: seq<real>, tan: real -> real,
                  width: real, lo: nat): (r: Result<Reading, EstimateError>)
    requires |mag21| == |freqs| && |arg21| == |freqs| && |mag11| == |freqs| && |arg11| == |freqs|
    requires |freqs| > 0
    ensures r.Err? ==> r == Err(NotFinite)
    ensures var p := ArgMax(mag21);
            var i := PhaseIndex(p, lo, |freqs|);
            (r.Ok? <==> freqs[p] != 0.0 && freqs[i] != 0.0) &&
            (r.Ok? ==> r.value.f0 == freqs[p] && r.value.width == width &&
                       r.value.theta21 == arg21[p] && r.value.raw11 == arg11[p] &&
                       r.value.s11Peak == mag11[p] && r.value.s21Peak == mag21[p] &&
                       r.value.dPhi == Detuning(freqs[i], freqs[p]) &&
                       r.value.t == tan(Wrap(arg11[i] - arg11[p])))
  {
    var p := ArgMax(mag21);
    var f0 := freqs[p];
    var idPhi := PhaseIndex(p, lo, |freqs|);
    var fPhi := freqs[idPhi];
    if f0 == 0.0 || fPhi == 0.0 then Err(NotFinite)
    else
      var phi := Wrap(arg11[idPhi] - arg11[p]);
      Ok(Reading(f0, width, tan(phi), Detuning(fPhi, f0), arg11[p], arg21[p], mag11[p], Max(mag21)))
  }

  /** `estimate_parameters(freqs, S21, S11)`, with S21 and S11 given by their
      magnitudes and phases and `tan` standing for np.tan. */
  function EstimateParameters(freqs: seq<real>, mag21: seq<real>, arg21: seq<real>,
                              mag11: seq<real>, arg11: seq<real>, tan: real -> real): (r: Result<Guess, EstimateError>)
    requires |mag21| == |freqs| && |arg21| == |freqs| && |mag11| == |freqs| && |arg11| == |freqs|
    ensures r == Err(EmptyData) <==> |freqs| == 0
    ensures |freqs| > 0 ==> (r == Err(WidthFailed(NaivePeakWidth.NoCrossing)) <==> Min(mag21) == Max(mag21))
    ensures r.Ok? ==> |freqs| > 0 &&
                      var p := ArgMax(mag21);
                      r.value.f0 == freqs[p] && r.value.theta21 == arg21[p] &&
                      MatchesResonance(r.value, mag11[p], mag21[p])
    ensures r.Ok? ==> r.value.width > 0.0 && SelfConsistent(r.value)
    ensures r.Ok? <==> ReadSweep(freqs, mag21, arg21, mag11, arg11, tan).Ok? &&
                       var m := ReadSweep(freqs, mag21, arg21, mag11, arg11, tan).value;
                       SolveParameters(m.f0, m.width, m.t, m.dPhi, m.raw11, m.theta21, m.s11Peak, m.s21Peak).Ok?
    ensures r.Ok? ==> var m := ReadSweep(freqs, mag21, arg21, mag11, arg11, tan).value;
                      r.value.ql == QualityFactor(m.f0, m.width) && InvertReflection(m.t, m.dPhi, r.value.ql) == Some(r.value.b)
  {
    match ReadSweep(freqs, mag21, arg21, mag11, arg11, tan)
    case Err(e) => Err(e)
    case Ok(m) => SolveParameters(m.f0, m.width, m.t, m.dPhi, m.raw11, m.theta21, m.s11Peak, m.s21Peak)
  }

  /** A sweep whose frequencies decrease never yields a guess: the width is
      either missing, zero (which `width_to_indeces` rejects) or positive
      (which `width_to_indeces` rejects on decreasing data). */
  lemma DecreasingSweepFails(freqs: seq<real>, mag21: seq<real>, arg21: seq<real>,
                             mag11: seq<real>, arg11: seq<real>, tan: real -> real)
    requires |mag21| == |freqs| && |arg21| == |freqs| && |mag11| == |freqs| && |arg11| == |freqs|
    requires |freqs| > 0 && freqs[0] > freqs[|freqs| - 1]
    ensures var r := EstimateParameters(freqs, mag21, arg21, mag11, arg11, tan);
            r.Err? && (r.error.WidthFailed? || r.error.WindowFailed?)
  {
    match NaivePeakWidth.WidthOf(freqs, mag21)
    case Err(_) =>
    case Ok(width) =>
      if width != 0.0 {
        IndexWindow.DecreasingAlwaysRaises(width / 3.0, freqs[ArgMax(mag21)], freqs);
      }
      assert ReadSweep(freqs, mag21, arg21, mag11, arg11, tan) == ReadPeak(freqs, mag21, arg21, mag11, arg11, tan, width);
  }
}
