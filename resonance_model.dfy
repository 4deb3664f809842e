/** The cavity response of src/cryofit/models.py: the reflection `model_S11`
    and the transmission `model_S21` at one frequency, over exact reals.
    The rotation e^{i theta} is taken as a complex input, and math.sqrt(k1 * k2)
    as a real input with the square root's defining property. */
module ResonanceModel {
  import opened Wrappers
  import opened Arithmetic

  /** The complex number re + i im. */
  datatype Complex = Complex(re: real, im: real)

  const Zero: Complex := Complex(0.0, 0.0)

  function Mul(z: Complex, w: Complex): Complex
  {
    Complex(z.re * w.re - z.im * w.im, z.re * w.im + z.im * w.re)
  }

  /** A complex number times a real one. */
  function Scale(z: Complex, c: real): Complex
  {
    Complex(z.re * c, z.im * c)
  }

  function Square(s: real): real
  {
    s * s
  }

  /** |w|^2 */
  function Norm(w: Complex): real
  {
    Square(w.re) + Square(w.im)
  }

  /** Complex division z / w; None stands for the division by zero. */
  function Div(z: Complex, w: Complex): (q: Option<Complex>)
    ensures q.Some? <==> w != Zero
    ensures q.Some? ==> Mul(q.value, w) == z
  {
    if w == Zero then None
    else
      NormPositive(w);
      QuotientInverts(z.re, z.im, w.re, w.im, Norm(w));
      Some(Complex((z.re * w.re + z.im * w.im) / Norm(w), (z.im * w.re - z.re * w.im) / Norm(w)))
  }

  lemma SquarePositive(s: real)
    requires s != 0.0
    ensures Square(s) > 0.0
  {
    if s < 0.0 {
      NegativeProduct(s, s, Square(s));
    } else {
      PositiveProduct(s, s, Square(s));
    }
  }

  lemma SquareNonNegative(s: real)
    ensures Square(s) >= 0.0
  {
    if s != 0.0 {
      SquarePositive(s);
    }
  }

  lemma NormPositive(w: Complex)
    requires w != Zero
    ensures Norm(w) > 0.0
  {
    SquareNonNegative(w.re);
    SquareNonNegative(w.im);
    if w.re != 0.0 {
      SquarePositive(w.re);
    } else {
      assert w.im != 0.0;
      SquarePositive(w.im);
    }
  }

  /** The defining equation of the quotient, component by component. */
  lemma QuotientInverts(x: real, y: real, a: real, b: real, n: real)
    requires n == Square(a) + Square(b) && n > 0.0
    ensures Mul(Complex((x * a + y * b) / n, (y * a - x * b) / n), Complex(a, b)) == Complex(x, y)
  {
    var u := x * a + y * b;
    var v := y * a - x * b;
    var p := u / n;
    var r := v / n;
    assert p * n == u;
    assert r * n == v;
    var re := p * a - r * b;
    var im := p * b + r * a;
    assert re * n == (p * n) * a - (r * n) * b;
    assert u * a - v * b == x * n;
    Cancel(re, x, n);
    assert im * n == (p * n) * b + (r * n) * a;
    assert u * b + v * a == y * n;
    Cancel(im, y, n);
  }

  lemma Cancel(p: real, q: real, n: real)
    requires n != 0.0 && p * n == q * n
    ensures p == q
  {
    assert (p - q) * n == 0.0;
  }

  /** A quotient is the only number that multiplies back to the dividend. */
  lemma DivUnique(z: Complex, w: Complex, q: Complex)
    requires w != Zero && Mul(q, w) == z
    ensures Div(z, w) == Some(q)
  {
    var d := Div(z, w).value;
    var n := Norm(w);
    NormPositive(w);
    assert n == w.re * w.re + w.im * w.im;
    var e := Complex(d.re - q.re, d.im - q.im);
    assert Mul(e, w) == Zero;
    assert Mul(Mul(e, w), Complex(w.re, -w.im)) == Scale(e, n);
    Cancel(e.re, 0.0, n);
    Cancel(e.im, 0.0, n);
  }

  lemma MulAssociative(a: Complex, b: Complex, c: Complex)
    ensures Mul(Mul(a, b), c) == Mul(a, Mul(b, c))
  {
  }

  /** The detuning delta = f / f0 - f0 / f (line 8 and line 14). */
  function Detuning(f: real, f0: real): (d: real)
    requires f != 0.0 && f0 != 0.0
    ensures d == 0.0 <==> f == f0 || f == -f0
    ensures f > 0.0 && f0 > 0.0 ==> (d > 0.0 <==> f > f0)
  {
    var d := f / f0 - f0 / f;
    DetuningScaled(f, f0);
    d
  }

  /** delta * f * f0 = (f - f0) (f + f0). */
  lemma DetuningScaled(f: real, f0: real)
    requires f != 0.0 && f0 != 0.0
    ensures var d := f / f0 - f0 / f;
            d * (f * f0) == (f - f0) * (f + f0) &&
            (d == 0.0 <==> f == f0 || f == -f0) &&
            (f > 0.0 && f0 > 0.0 ==> (d > 0.0 <==> f > f0))
  {
    var d := f / f0 - f0 / f;
    var u := f / f0;
    var v := f0 / f;
    var m := f * f0;
    assert u * f0 == f;
    assert v * f == f0;
    assert u * m == f * f by { assert u * m == (u * f0) * f; }
    assert v * m == f0 * f0 by { assert v * m == (v * f) * f0; }
    assert d * m == (f - f0) * (f + f0);
    assert m != 0.0;
    if d == 0.0 {
      assert (f - f0) * (f + f0) == 0.0;
      ZeroProduct(f - f0, f + f0);
    }
    if f > 0.0 && f0 > 0.0 {
      assert m > 0.0;
      SignOfProduct(d, m);
      SignOfProduct(f - f0, f + f0);
    }
  }

  lemma ZeroProduct(a: real, b: real)
    requires a * b == 0.0
    ensures a == 0.0 || b == 0.0
  {
  }

  /** With a positive second factor a product has the sign of the first. */
  lemma SignOfProduct(a: real, b: real)
    requires b > 0.0
    ensures a * b > 0.0 <==> a > 0.0
  {
    if a > 0.0 {
      assert a * b > 0.0;
    } else {
      assert (-a) * b >= 0.0;
    }
  }

  /** B = (k1 - 1 - k2) / (1 + k1 + k2) of line 9: zero at critical coupling
      k1 = 1 + k2, and in [-1, 1) for non-negative couplings. */
  function ResonantReflection(k1: real, k2: real): (b: real)
    requires 1.0 + k1 + k2 != 0.0
    ensures b == 0.0 <==> k1 == 1.0 + k2
    ensures k1 >= 0.0 && k2 >= 0.0 ==> -1.0 <= b < 1.0
  {
    ReflectionBounds(k1, k2);
    (k1 - 1.0 - k2) / (1.0 + k1 + k2)
  }

  lemma ReflectionBounds(k1: real, k2: real)
    requires 1.0 + k1 + k2 != 0.0
    ensures var b := (k1 - 1.0 - k2) / (1.0 + k1 + k2);
            (b == 0.0 <==> k1 == 1.0 + k2) &&
            (k1 >= 0.0 && k2 >= 0.0 ==> -1.0 <= b < 1.0)
  {
    var s := 1.0 + k1 + k2;
    var b := (k1 - 1.0 - k2) / s;
    assert b * s == k1 - 1.0 - k2;
    if k1 >= 0.0 && k2 >= 0.0 {
      assert (b + 1.0) * s == 2.0 * k1;
      assert (1.0 - b) * s == 2.0 * (1.0 + k2);
      SignOfProduct(1.0 - b, s);
      if b + 1.0 < 0.0 {
        SignOfProduct(-(b + 1.0), s);
      }
    }
  }

  /** C = 2 sqrt(k1 k2) / (1 + k1 + k2) of line 15, with `root` standing for
      math.sqrt(k1 * k2): zero exactly when the root is, and in [0, 1) for
      non-negative couplings. */
  function ResonantTransmission(k1: real, k2: real, root: real): (c: real)
    requires 1.0 + k1 + k2 != 0.0
    ensures c * (1.0 + k1 + k2) == 2.0 * root
    ensures c == 0.0 <==> root == 0.0
    ensures k1 >= 0.0 && k2 >= 0.0 && root >= 0.0 && root * root == k1 * k2 ==> 0.0 <= c < 1.0
  {
    TransmissionBounds(k1, k2, root);
    2.0 * root / (1.0 + k1 + k2)
  }

  lemma TransmissionBounds(k1: real, k2: real, root: real)
    requires 1.0 + k1 + k2 != 0.0
    ensures var c := 2.0 * root / (1.0 + k1 + k2);
            c * (1.0 + k1 + k2) == 2.0 * root &&
            (c == 0.0 <==> root == 0.0) &&
            (k1 >= 0.0 && k2 >= 0.0 && root >= 0.0 && root * root == k1 * k2 ==> 0.0 <= c < 1.0)
  {
    var s := 1.0 + k1 + k2;
    var c := 2.0 * root / s;
    assert c * s == 2.0 * root;
    if k1 >= 0.0 && k2 >= 0.0 && root >= 0.0 && root * root == k1 * k2 {
      RootBelowSum(k1, k2, root);
      NonNegativeFactor(c, s, 2.0 * root);
      assert (1.0 - c) * s == s - 2.0 * root;
      PositiveFactor(1.0 - c, s, s - 2.0 * root);
    }
  }

  /** 2 sqrt(k1 k2) <= k1 + k2: the geometric mean is at most the arithmetic. */
  lemma RootBelowSum(k1: real, k2: real, root: real)
    requires k1 >= 0.0 && k2 >= 0.0 && root >= 0.0 && root * root == k1 * k2
    ensures 2.0 * root <= k1 + k2
  {
    var u := k1 + k2;
    var lo, hi := u - 2.0 * root, u + 2.0 * root;
    assert lo * hi == Square(k1 - k2) by {
      assert lo * hi == u * u - 4.0 * (root * root);
    }
    SquareNonNegative(k1 - k2);
    if lo < 0.0 {
      assert hi > 0.0;
      NegativeFactor(lo, hi, lo * hi);
    }
  }

  /** C squared, free of the square root: 4 k1 k2 / (1 + k1 + k2)^2. */
  function CouplingSquared(k1: real, k2: real): real
    requires 1.0 + k1 + k2 != 0.0
  {
    SquarePositive(1.0 + k1 + k2);
    4.0 * k1 * k2 / Square(1.0 + k1 + k2)
  }


  /** With root * root = k1 * k2, the square of line 15's C is CouplingSquared. */
  lemma TransmissionSquared(k1: real, k2: real, root: real)
    requires 1.0 + k1 + k2 != 0.0 && root * root == k1 * k2
    ensures var c := ResonantTransmission(k1, k2, root);
            c * c == CouplingSquared(k1, k2)
  {
    var s := 1.0 + k1 + k2;
    var c := 2.0 * root / s;
    assert c * s == 2.0 * root;
    SquarePositive(s);
    var ss := Square(s);
    var cc := c * c;
    assert cc * ss == (c * s) * (c * s);
    assert cc * ss == 4.0 * k1 * k2;
    var g := 4.0 * k1 * k2 / ss;
    assert g * ss == 4.0 * k1 * k2;
    Cancel(cc, g, ss);
  }

  /** `model_S11(f, f0, QL, k1, k2, A, theta11)` with `rotation` standing for
      e^{i theta11}: rotation * A * (B + i QL delta) / (1 + i QL delta).
      None stands for a division by zero (f = 0, f0 = 0 or 1 + k1 + k2 = 0). */
  function ModelS11(f: real, f0: real, ql: real, k1: real, k2: real, a: real, rotation: Complex): (s: Option<Complex>)
    ensures s.Some? <==> f != 0.0 && f0 != 0.0 && 1.0 + k1 + k2 != 0.0
  {
    if f == 0.0 || f0 == 0.0 || 1.0 + k1 + k2 == 0.0 then None
    else
      var q := ql * Detuning(f, f0);
      Div(Mul(Scale(rotation, a), Complex(ResonantReflection(k1, k2), q)), Complex(1.0, q))
  }

  /** `model_S21(f, f0, QL, k1, k2, A, theta21)` with `rotation` standing for
      e^{i theta21} and `root` for math.sqrt(k1 * k2):
      rotation * A * C / (1 + i QL delta). None stands for a division by zero
      or for the math domain error of a negative k1 * k2. */
  function ModelS21(f: real, f0: real, ql: real, k1: real, k2: real, a: real, rotation: Complex, root: real): (s: Option<Complex>)
    requires k1 * k2 >= 0.0 ==> root >= 0.0 && root * root == k1 * k2
    ensures s.Some? <==> f != 0.0 && f0 != 0.0 && k1 * k2 >= 0.0 && 1.0 + k1 + k2 != 0.0
  {
    if f == 0.0 || f0 == 0.0 || k1 * k2 < 0.0 || 1.0 + k1 + k2 == 0.0 then None
    else
      var q := ql * Detuning(f, f0);
      Div(Scale(Scale(rotation, a), ResonantTransmission(k1, k2, root)), Complex(1.0, q))
  }

  /** At resonance (f = f0) the denominator 1 + i QL delta is 1, and the
      reflection is rotation * A * B. */
  lemma S11AtResonance(f0: real, ql: real, k1: real, k2: real, a: real, rotation: Complex)
    requires f0 != 0.0 && 1.0 + k1 + k2 != 0.0
    ensures ModelS11(f0, f0, ql, k1, k2, a, rotation) ==
            Some(Mul(Scale(rotation, a), Complex(ResonantReflection(k1, k2), 0.0)))
  {
    var q := ql * Detuning(f0, f0);
    assert q == 0.0;
    var z := Mul(Scale(rotation, a), Complex(ResonantReflection(k1, k2), q));
    assert Mul(z, Complex(1.0, 0.0)) == z;
    DivUnique(z, Complex(1.0, q), z);
  }

  /** At resonance the transmission is rotation * A * C. */
  lemma S21AtResonance(f0: real, ql: real, k1: real, k2: real, a: real, rotation: Complex, root: real)
    requires f0 != 0.0 && 1.0 + k1 + k2 != 0.0 && k1 * k2 >= 0.0
    requires root >= 0.0 && root * root == k1 * k2
    ensures ModelS21(f0, f0, ql, k1, k2, a, rotation, root) ==
            Some(Scale(Scale(rotation, a), ResonantTransmission(k1, k2, root)))
  {
    var q := ql * Detuning(f0, f0);
    assert q == 0.0;
    var z := Scale(Scale(rotation, a), ResonantTransmission(k1, k2, root));
    assert Mul(z, Complex(1.0, 0.0)) == z;
    DivUnique(z, Complex(1.0, q), z);
  }

  /** The line shape (B + i q) / (1 + i q) of line 10, with q = QL delta. */
  function ReflectionShape(b: real, q: real): (z: Complex)
    ensures Div(Complex(b, q), Complex(1.0, q)) == Some(z)
  {
    SquareNonNegative(q);
    var z := Complex((b + Square(q)) / (1.0 + Square(q)), q * (1.0 - b) / (1.0 + Square(q)));
    ShapeSolves(b, q, 1.0 + Square(q));
    DivUnique(Complex(b, q), Complex(1.0, q), z);
    z
  }

  lemma ShapeSolves(b: real, q: real, n: real)
    requires n == 1.0 + Square(q) && n > 0.0
    ensures Mul(Complex((b + Square(q)) / n, q * (1.0 - b) / n), Complex(1.0, q)) == Complex(b, q)
  {
    var u := (b + Square(q)) / n;
    var v := q * (1.0 - b) / n;
    assert u * n == b + Square(q);
    assert v * n == q * (1.0 - b);
    assert Square(q) == q * q;
    var re := u - v * q;
    var im := u * q + v;
    assert re * n == (u * n) - (v * n) * q;
    assert b * n == (b + q * q) - q * (1.0 - b) * q;
    Cancel(re, b, n);
    assert im * n == (u * n) * q + (v * n);
    assert q * n == (b + q * q) * q + q * (1.0 - b);
    Cancel(im, q, n);
  }

  /** Off resonance the reflection is rotation * A times the line shape: its
      phase relative to the rotation is that of ReflectionShape. */
  lemma S11Factors(f: real, f0: real, ql: real, k1: real, k2: real, a: real, rotation: Complex)
    requires f != 0.0 && f0 != 0.0 && 1.0 + k1 + k2 != 0.0
    ensures ModelS11(f, f0, ql, k1, k2, a, rotation) ==
            Some(Mul(Scale(rotation, a), ReflectionShape(ResonantReflection(k1, k2), ql * Detuning(f, f0))))
  {
    var b := ResonantReflection(k1, k2);
    var q := ql * Detuning(f, f0);
    var w := Scale(rotation, a);
    var shape := ReflectionShape(b, q);
    assert Mul(shape, Complex(1.0, q)) == Complex(b, q);
    MulAssociative(w, shape, Complex(1.0, q));
    DivUnique(Mul(w, Complex(b, q)), Complex(1.0, q), Mul(w, shape));
  }

  /** The tangent of the line shape's phase, q (1 - B) / (B + q^2): the phase
      of line 10's reflection relative to rotation * A. */
  function PhaseTangent(b: real, q: real): real
    requires b + Square(q) != 0.0
  {
    q * (1.0 - b) / (b + Square(q))
  }

  /** PhaseTangent is the ratio im / re of the line shape. */
  lemma ShapeTangent(b: real, q: real)
    requires b + Square(q) != 0.0
    ensures var z := ReflectionShape(b, q);
            z.re != 0.0 && z.im / z.re == PhaseTangent(b, q)
  {
    var z := ReflectionShape(b, q);
    SquareNonNegative(q);
    var n := 1.0 + Square(q);
    var g := b + Square(q);
    var h := q * (1.0 - b);
    assert z.re == g / n && z.im == h / n;
    RatioOfQuotients(g, h, n, z.re, z.im);
    assert PhaseTangent(b, q) == h / g;
  }

  /** (h / n) / (g / n) = h / g. */
  lemma RatioOfQuotients(g: real, h: real, n: real, x: real, y: real)
    requires n != 0.0 && g != 0.0 && x == g / n && y == h / n
    ensures x != 0.0 && y / x == h / g
  {
    assert x * n == g;
    assert y * n == h;
    var t := y / x;
    assert t * x == y;
    Associate(t, x, n, g);
    var p := h / g;
    assert p * g == h;
    Cancel(t, p, g);
  }

  lemma Associate(t: real, x: real, n: real, g: real)
    requires g == x * n
    ensures t * g == (t * x) * n
  {
  }
}
