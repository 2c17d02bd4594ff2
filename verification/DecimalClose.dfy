/** How far a power of decimals falls below the exact one: every cut costs less than a unit, and what follows a
    cut multiplies it. */
module DecimalClose {
  import opened ByteStrings
  import opened Words
  import opened DecimalPower

  /** A product is cut to the unit below. */
  lemma MulIsFloor(a: U256, b: U256)
    ensures CheckedMul(a, b).Some? ==> CheckedMul(a, b).value * ONE <= a * b < (CheckedMul(a, b).value + 1) * ONE
    ensures CheckedMul(a, b).None? <==> a * b >= TWO_256 * ONE
  {
    var q := a * b / ONE;
    assert q * ONE <= a * b < q * ONE + ONE;
  }

  /** The first power is the number itself, the second the square cut to the unit below. */
  lemma SmallPowers(a: U256)
    ensures PowOf(a, 1) == PowOk(a)
    ensures PowOf(a, 2) == if a * a / ONE < TWO_256 then PowOk(a * a / ONE) else Overflow
  {
    TimesOne(a);
    if a * a / ONE < TWO_256 {
      TimesOne(a * a / ONE);
      assert PowSteps(a, 2, ONE) == PowSteps(a * a / ONE, 1, ONE);
    }
  }

  lemma TimesOne(a: U256)
    ensures CheckedMul(a, ONE) == Some(a)
  {
  }

  /** The base, or one if that is more. */
  function AtLeastOne(a: nat): nat
  {
    if a < ONE then ONE else a
  }

  /** `v` in atomic units is short of the `m`th power of `a` by at most `c` units times the `m`th power of `b`,
      all as exact fractions. */
  predicate Near(v: nat, a: nat, b: nat, m: nat, c: nat)
  {
    ONE * Exp(a, m) <= v * Exp(ONE, m) + c * Exp(b, m)
  }

  lemma Chained(l: nat, ab: nat, xy: nat, af: nat, eb: nat, z: nat, r: nat)
    requires l == ab <= xy + af + eb && xy <= z && z + af + eb == r
    ensures l <= r
  {
  }

  /** The cut product and what the errors of its factors add. */
  function Terms(v: nat, e: nat, f: nat, g: nat, c: nat, d: nat): nat
  {
    (v + 1) * e + d * f + c * g
  }

  lemma ProductErrors(s: nat, v: nat, x: nat, y: nat, p: nat, q: nat, u: nat, r: nat, t: nat, w: nat, c: nat, d: nat)
    requires x * y <= (v + 1) * s
    requires x * q <= s * p <= x * q + c * u && s * r <= y * t + d * w
    ensures s * (s * (p * r)) <= s * Terms(v, q * t, p * w, u * r, c, d)
  {
    ErrorsMultiply(s * p, s * r, x * q, y * t, c * u, d * w);
    Regroup(x, q, y, t);
    MulMonotone(x * y, (v + 1) * s, q * t, q * t);
    Regroup(s, p, s, r);
    Associate(s, s, p * r);
    Factored(s, v, q * t, p, d, w, c, u, r);
    Chained(s * (s * (p * r)), (s * p) * (s * r), (x * q) * (y * t), (s * p) * (d * w), (c * u) * (s * r),
            ((v + 1) * s) * (q * t), s * ((v + 1) * (q * t) + d * (p * w) + c * (u * r)));
  }

  lemma NearArithmetic(s: nat, v: nat, x: nat, y: nat, p: nat, q: nat, u: nat, r: nat, t: nat, w: nat, c: nat, d: nat)
    requires s > 0 && x * y <= (v + 1) * s
    requires x * q <= s * p <= x * q + c * u && s * r <= y * t + d * w
    requires p <= u && q <= u && r <= w && t <= w
    ensures s * (p * r) <= v * (q * t) + (c + d + 1) * (u * w)
  {
    hide Terms;
    ProductErrors(s, v, x, y, p, q, u, r, t, w, c, d);
    ProductsBounded(p, q, u, r, t, w);
    Finished(s, s * (p * r), v, q * t, p * w, u * r, u * w, c, d);
  }

  lemma ProductsBounded(p: nat, q: nat, u: nat, r: nat, t: nat, w: nat)
    requires p <= u && q <= u && r <= w && t <= w
    ensures q * t <= u * w && p * w <= u * w && u * r <= u * w
  {
    MulMonotone(q, u, t, w);
    MulMonotone(p, u, w, w);
    MulMonotone(u, u, r, w);
  }

  lemma Finished(s: nat, l: nat, v: nat, e: nat, f: nat, g: nat, z: nat, c: nat, d: nat)
    requires s > 0 && s * l <= s * Terms(v, e, f, g, c, d) && e <= z && f <= z && g <= z
    ensures l <= v * e + (c + d + 1) * z
  {
    CancelFactor(s, l, Terms(v, e, f, g, c, d));
    Bounded(v, e, f, g, z, c, d);
  }

  lemma ErrorsMultiply(a: nat, b: nat, x: nat, y: nat, e: nat, f: nat)
    requires x <= a <= x + e && b <= y + f
    ensures a * b <= x * y + a * f + e * b
  {
    MulMonotone(a, x + e, b, b);
    MulMonotone(x, x, b, y + f);
    MulMonotone(x, a, f, f);
    Distribute(x, e, b);
    Distribute(y, f, x);
  }

  lemma Distribute(a: nat, b: nat, c: nat)
    ensures (a + b) * c == a * c + b * c
  {
  }

  lemma Factored(s: nat, v: nat, z: nat, p: nat, d: nat, w: nat, c: nat, u: nat, r: nat)
    ensures ((v + 1) * s) * z + (s * p) * (d * w) + (c * u) * (s * r) == s * ((v + 1) * z + d * (p * w) + c * (u * r))
  {
    Associate(s, v + 1, z);
    Regroup(s, p, d, w);
    Associate(s, d, p * w);
    Regroup(c, u, s, r);
    Associate(s, c, u * r);
  }

  lemma Bounded(v: nat, e: nat, f: nat, g: nat, z: nat, c: nat, d: nat)
    requires e <= z && f <= z && g <= z
    ensures Terms(v, e, f, g, c, d) <= v * e + (c + d + 1) * z
  {
    MulMonotone(d, d, f, z);
    MulMonotone(c, c, g, z);
  }

  /** A product of two that are near is near, the errors and one more unit added up. */
  lemma MulNear(x: U256, y: U256, a: nat, m: nat, k: nat, c: nat, d: nat)
    requires CheckedMul(x, y).Some? && Below(x, a, m) && Below(y, a, k)
    requires Near(x, a, AtLeastOne(a), m, c) && Near(y, a, AtLeastOne(a), k, d)
    ensures Near(CheckedMul(x, y).value, a, AtLeastOne(a), m + k, c + d + 1)
  {
    hide Exp;
    var b := AtLeastOne(a);
    ExpAdds(ONE, m, k);
    ExpAdds(a, m, k);
    ExpAdds(b, m, k);
    ExpMonotone(a, b, m);
    ExpMonotone(ONE, b, m);
    ExpMonotone(a, b, k);
    ExpMonotone(ONE, b, k);
    MulIsFloor(x, y);
    NearArithmetic(ONE, CheckedMul(x, y).value, x, y, Exp(a, m), Exp(ONE, m), Exp(b, m), Exp(a, k), Exp(ONE, k), Exp(b, k), c, d);
  }

  /** `x` is near the `m`th power, `y` near the `k`th, and `n` squarings' worth is to come: as many units as
      the whole exponent. */
  lemma {:induction false} StepsNear(a: nat, x: U256, n: nat, y: U256, m: nat, k: nat)
    requires n >= 1 && m >= 1 && Below(x, a, m) && Below(y, a, k)
    requires Near(x, a, AtLeastOne(a), m, m - 1) && Near(y, a, AtLeastOne(a), k, k)
    ensures PowSteps(x, n, y).PowOk? ==> Near(PowSteps(x, n, y).value, a, AtLeastOne(a), m * n + k, m * n + k)
    decreases n
  {
    hide Near, Below, CheckedMul, Exp;
    MulSound(x, y, a, m, k);
    if CheckedMul(x, y).Some? { MulNear(x, y, a, m, k, m - 1, k); }
    if n > 1 {
      MulSound(x, x, a, m, m);
      Halves(m, n, k);
      if CheckedMul(x, x).Some? {
        MulNear(x, x, a, m, m, m - 1, m - 1);
        if n % 2 == 0 {
          StepsNear(a, CheckedMul(x, x).value, n / 2, y, m + m, k);
        } else if CheckedMul(x, y).Some? {
          StepsNear(a, CheckedMul(x, x).value, n / 2, CheckedMul(x, y).value, m + m, m + k);
        }
      }
    }
  }

  /** A power that is given is short of the exact one by at most as many units as the exponent, each multiplied
      by the power of the base if that is above one. */
  lemma PowClose(a: U256, n: nat)
    requires n >= 1 && PowOf(a, n).PowOk?
    ensures ONE * Exp(a, n) <= PowOf(a, n).value * Exp(ONE, n) + n * Exp(AtLeastOne(a), n)
  {
    FirstPowers(a);
    assert Near(a, a, AtLeastOne(a), 1, 0) && Near(ONE, a, AtLeastOne(a), 0, 0) by {
      assert Exp(a, 1) == a * Exp(a, 0) && Exp(ONE, 1) == ONE * Exp(ONE, 0);
    }
    StepsNear(a, a, n, ONE, 1, 0);
  }

  /** For a base of at most one: within as many units as the exponent, and not above. */
  lemma SmallPowClose(a: U256, n: nat)
    requires n >= 1 && a <= ONE
    ensures PowOf(a, n).PowOk?
    ensures PowOf(a, n).value * Exp(ONE, n - 1) <= Exp(a, n) <= (PowOf(a, n).value + n) * Exp(ONE, n - 1)
  {
    hide PowSteps;
    SmallFits(a, n);
    PowSound(a, n);
    PowClose(a, n);
    var v := PowOf(a, n).value;
    Associate(v + n, ONE, Exp(ONE, n - 1));
    Associate(ONE, v + n, Exp(ONE, n - 1));
    CancelFactor(ONE, Exp(a, n), (v + n) * Exp(ONE, n - 1));
  }

  lemma SmallFits(a: nat, n: nat)
    requires n >= 1 && a <= ONE
    ensures Exp(a, n) < TWO_256 * Exp(ONE, n - 1)
  {
    ExpMonotone(a, ONE, n);
    ExpPositive(ONE, n - 1);
    MulStrict(ONE, TWO_256, Exp(ONE, n - 1));
  }
}
