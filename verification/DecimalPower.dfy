/** Powers of a fixed-point decimal with 18 places, by repeated squaring with truncation. */
module DecimalPower {
  import opened ByteStrings
  import opened Words

  /** 1.0, in atomic units. */
  const ONE: nat := 1_000_000_000_000_000_000

  function Exp(b: nat, n: nat): nat
  {
    if n == 0 then 1 else b * Exp(b, n - 1)
  }

  /** The product of two decimals, cut to 18 places; `None` is an overflow of 256 bits. */
  function CheckedMul(a: U256, b: U256): Option<U256>
  {
    if a * b / ONE < TWO_256 then Some(a * b / ONE) else None
  }

  /** The last product is not a checked one: it panics where the others report an overflow. */
  datatype PowResult = PowOk(value: U256) | Overflow | Panicked

  function PowSteps(x: U256, n: nat, y: U256): PowResult
    requires n >= 1
    decreases n
  {
    if n == 1 then
      if CheckedMul(x, y).Some? then PowOk(CheckedMul(x, y).value) else Panicked
    else
      var y' := if n % 2 == 0 then Some(y) else CheckedMul(x, y);
      if y'.None? || CheckedMul(x, x).None? then Overflow
      else PowSteps(CheckedMul(x, x).value, n / 2, y'.value)
  }

  function PowOf(a: U256, exp: nat): PowResult
  {
    if exp == 0 then PowOk(ONE) else PowSteps(a, exp, ONE)
  }

  method CheckedPow(a: U256, exp: nat) returns (r: PowResult)
    ensures r == PowOf(a, exp)
  {
    if exp == 0 {
      return PowOk(ONE);
    }
    var x, n := a, exp;
    var y: U256 := ONE;
    while n > 1
      invariant n >= 1 && PowSteps(x, n, y) == PowOf(a, exp)
    {
      if n % 2 == 0 {
        var square := CheckedMul(x, x);
        if square.None? {
          return Overflow;
        }
        x, n := square.value, n / 2;
      } else {
        var product := CheckedMul(x, y);
        if product.None? {
          return Overflow;
        }
        var square := CheckedMul(x, x);
        if square.None? {
          return Overflow;
        }
        x, n, y := square.value, (n - 1) / 2, product.value;
      }
    }
    var last := CheckedMul(x, y);
    r := if last.Some? then PowOk(last.value) else Panicked;
  }

  // ---------------------------------------------------------------- arithmetic

  lemma Associate(a: nat, b: nat, c: nat)
    ensures (a * b) * c == a * (b * c)
  {
  }

  lemma {:induction false} ExpAdds(b: nat, m: nat, k: nat)
    ensures Exp(b, m + k) == Exp(b, m) * Exp(b, k)
  {
    if m > 0 {
      ExpAdds(b, m - 1, k);
      Associate(b, Exp(b, m - 1), Exp(b, k));
    }
  }

  lemma {:induction false} ExpOfProduct(b: nat, c: nat, n: nat)
    ensures Exp(b * c, n) == Exp(b, n) * Exp(c, n)
  {
    if n > 0 {
      ExpOfProduct(b, c, n - 1);
      Regroup(b, c, Exp(b, n - 1), Exp(c, n - 1));
    }
  }

  lemma Regroup(a: nat, b: nat, c: nat, d: nat)
    ensures (a * b) * (c * d) == (a * c) * (b * d)
  {
  }

  lemma MulMonotone(a: nat, b: nat, c: nat, d: nat)
    requires a <= b && c <= d
    ensures a * c <= b * d
  {
    assert a * c <= b * c && b * c <= b * d;
  }

  lemma CancelFactor(s: nat, a: nat, b: nat)
    requires s > 0 && s * a <= s * b
    ensures a <= b
  {
    assert b < a ==> s * b < s * a;
  }

  lemma {:induction false} ExpMonotone(b: nat, c: nat, n: nat)
    requires b <= c
    ensures Exp(b, n) <= Exp(c, n)
  {
    if n > 0 {
      ExpMonotone(b, c, n - 1);
      MulMonotone(b, c, Exp(b, n - 1), Exp(c, n - 1));
    }
  }

  lemma {:induction false} ExpPositive(b: nat, n: nat)
    requires b > 0
    ensures Exp(b, n) > 0
  {
    if n > 0 { ExpPositive(b, n - 1); }
  }

  // ---------------------------------------------------------------- never above the exact power

  /** `v` in atomic units is at most the `m`th power of `a`, as exact fractions. */
  predicate Below(v: nat, a: nat, m: nat)
  {
    v * Exp(ONE, m) <= ONE * Exp(a, m)
  }

  /** A product of two lower bounds, divided by one, is a lower bound for the sum of the exponents. */
  lemma ProductBelow(v: nat, x: nat, y: nat, a: nat, m: nat, k: nat)
    requires v * ONE <= x * y && Below(x, a, m) && Below(y, a, k)
    ensures Below(v, a, m + k)
  {
    ExpAdds(ONE, m, k);
    ExpAdds(a, m, k);
    DivideOut(ONE, v, x, y, Exp(ONE, m), Exp(ONE, k), Exp(a, m), Exp(a, k));
  }

  lemma DivideOut(s: nat, v: nat, x: nat, y: nat, p: nat, q: nat, a: nat, b: nat)
    requires s > 0 && v * s <= x * y && x * p <= s * a && y * q <= s * b
    ensures v * (p * q) <= s * (a * b)
  {
    MulMonotone(v * s, x * y, p * q, p * q);
    Regroup(x, y, p, q);
    MulMonotone(x * p, s * a, y * q, s * b);
    Regroup(s, a, s, b);
    Regroup(v, s, p * q, 1);
    assert s * (v * (p * q)) == (v * s) * (p * q);
    assert s * (s * (a * b)) == (s * a) * (s * b);
    CancelFactor(s, v * (p * q), s * (a * b));
  }

  /** The exact power does not fit 256 bits. */
  predicate Exceeds(a: nat, n: nat)
  {
    Below(TWO_256, a, n)
  }

  lemma SmallStaysSmall(a: nat, p: nat)
    requires a <= ONE
    ensures !Exceeds(a, p)
  {
    ExpMonotone(a, ONE, p);
    ExpPositive(ONE, p);
    MulMonotone(ONE, ONE, Exp(a, p), Exp(ONE, p));
    MulStrict(ONE, TWO_256, Exp(ONE, p));
  }

  lemma MulStrict(a: nat, b: nat, c: nat)
    requires a < b && c > 0
    ensures a * c < b * c
  {
  }

  /** Once a power has left the range, every higher one has too. */
  lemma ExceedsOn(a: nat, p: nat, n: nat)
    requires Exceeds(a, p) && p <= n
    ensures Exceeds(a, n)
  {
    if a < ONE {
      SmallStaysSmall(a, p);
    } else {
      ExpMonotone(ONE, a, n - p);
      ExpAdds(ONE, p, n - p);
      ExpAdds(a, p, n - p);
      MulMonotone(TWO_256 * Exp(ONE, p), ONE * Exp(a, p), Exp(ONE, n - p), Exp(a, n - p));
      Associate(TWO_256, Exp(ONE, p), Exp(ONE, n - p));
      Associate(ONE, Exp(a, p), Exp(a, n - p));
    }
  }

  lemma MulSound(x: U256, y: U256, a: nat, m: nat, k: nat)
    requires Below(x, a, m) && Below(y, a, k)
    ensures CheckedMul(x, y).Some? ==> Below(CheckedMul(x, y).value, a, m + k)
    ensures CheckedMul(x, y).None? ==> Exceeds(a, m + k)
  {
    var v := x * y / ONE;
    assert v * ONE <= x * y;
    if v < TWO_256 {
      ProductBelow(v, x, y, a, m, k);
    } else {
      assert TWO_256 * ONE <= x * y;
      ProductBelow(TWO_256, x, y, a, m, k);
    }
  }

  /** `x` stands below the `m`th power, `y` below the `k`th, and `n` squarings' worth is to come. */
  lemma {:induction false} StepsSound(a: nat, x: U256, n: nat, y: U256, m: nat, k: nat)
    requires n >= 1 && Below(x, a, m) && Below(y, a, k)
    ensures PowSteps(x, n, y).PowOk? ==> Below(PowSteps(x, n, y).value, a, m * n + k)
    ensures !PowSteps(x, n, y).PowOk? ==> Exceeds(a, m * n + k)
    decreases n
  {
    MulSound(x, y, a, m, k);
    if n > 1 {
      MulSound(x, x, a, m, m);
      Halves(m, n, k);
      if CheckedMul(x, x).None? {
        ExceedsOn(a, m + m, m * n + k);
      } else if n % 2 == 0 {
        StepsSound(a, CheckedMul(x, x).value, n / 2, y, m + m, k);
      } else if CheckedMul(x, y).None? {
        ExceedsOn(a, m + k, m * n + k);
      } else {
        StepsSound(a, CheckedMul(x, x).value, n / 2, CheckedMul(x, y).value, m + m, m + k);
      }
    }
  }

  lemma Halves(m: nat, n: nat, k: nat)
    requires n >= 2
    ensures n % 2 == 0 ==> (m + m) * (n / 2) + k == m * n + k
    ensures n % 2 == 1 ==> (m + m) * (n / 2) + (m + k) == m * n + k
    ensures m + m <= m * n + k && m + k <= m * n + k
  {
    var h := n / 2;
    assert n == 2 * h + n % 2;
    assert (m + m) * h == m * (2 * h);
    assert m * (2 * h + n % 2) == m * (2 * h) + m * (n % 2);
    MulMonotone(m, m, 2, n);
  }

  lemma BelowByOne(v: nat, a: nat, n: nat)
    requires n >= 1 && Below(v, a, n)
    ensures v * Exp(ONE, n - 1) <= Exp(a, n)
  {
    Associate(v, ONE, Exp(ONE, n - 1));
    Associate(ONE, v, Exp(ONE, n - 1));
    CancelFactor(ONE, v * Exp(ONE, n - 1), Exp(a, n));
  }

  lemma FirstPowers(a: nat)
    ensures Below(a, a, 1) && Below(ONE, a, 0)
  {
    assert Exp(a, 1) == a * Exp(a, 0) && Exp(ONE, 1) == ONE * Exp(ONE, 0);
  }

  /** A power never exceeds the exact one, and one whose exact value fits is never refused: no product on
      the way overflows before the result does. */
  lemma PowSound(a: U256, n: nat)
    requires n >= 1
    ensures PowOf(a, n).PowOk? ==> PowOf(a, n).value * Exp(ONE, n - 1) <= Exp(a, n)
    ensures Exp(a, n) < TWO_256 * Exp(ONE, n - 1) ==> PowOf(a, n).PowOk?
  {
    hide Below, Exp, PowSteps;
    FirstPowers(a);
    StepsSound(a, a, n, ONE, 1, 0);
    BelowByOne(if PowOf(a, n).PowOk? then PowOf(a, n).value else TWO_256, a, n);
  }

  // ---------------------------------------------------------------- whole numbers are exact

  predicate Whole(x: nat, w: nat, m: nat)
  {
    x == ONE * Exp(w, m)
  }

  lemma WholeMul(x: U256, y: U256, w: nat, m: nat, k: nat)
    requires Whole(x, w, m) && Whole(y, w, k)
    ensures CheckedMul(x, y).Some? ==> Whole(CheckedMul(x, y).value, w, m + k)
  {
    ExpAdds(w, m, k);
    Regroup(ONE, Exp(w, m), ONE, Exp(w, k));
    Associate(ONE, ONE, Exp(w, m) * Exp(w, k));
    assert x * y == ONE * (ONE * (Exp(w, m) * Exp(w, k)));
  }

  lemma {:induction false} StepsWhole(w: nat, x: U256, n: nat, y: U256, m: nat, k: nat)
    requires n >= 1 && Whole(x, w, m) && Whole(y, w, k)
    ensures PowSteps(x, n, y).PowOk? ==> Whole(PowSteps(x, n, y).value, w, m * n + k)
    decreases n
  {
    hide Whole, CheckedMul;
    WholeMul(x, y, w, m, k);
    if n > 1 {
      WholeMul(x, x, w, m, m);
      Halves(m, n, k);
      if CheckedMul(x, x).Some? {
        if n % 2 == 0 {
          StepsWhole(w, CheckedMul(x, x).value, n / 2, y, m + m, k);
        } else if CheckedMul(x, y).Some? {
          StepsWhole(w, CheckedMul(x, x).value, n / 2, CheckedMul(x, y).value, m + m, m + k);
        }
      }
    }
  }

  /** For a whole number the exact power, at 18 places, is one times a whole power. */
  lemma WholeScales(w: nat, n: nat)
    requires n >= 1
    ensures Exp(w * ONE, n) == (ONE * Exp(w, n)) * Exp(ONE, n - 1)
  {
    ExpOfProduct(w, ONE, n);
    Associate(ONE, Exp(w, n), Exp(ONE, n - 1));
    Associate(Exp(w, n), ONE, Exp(ONE, n - 1));
  }

  /** A whole number's power is exact, and is given exactly when it fits. */
  lemma WholePower(w: nat, n: nat)
    requires w * ONE < TWO_256
    ensures PowOf(w * ONE, n).PowOk? <==> ONE * Exp(w, n) < TWO_256
    ensures PowOf(w * ONE, n).PowOk? ==> PowOf(w * ONE, n).value == ONE * Exp(w, n)
  {
    if n > 0 {
      assert Exp(w, 1) == w * Exp(w, 0);
      StepsWhole(w, w * ONE, n, ONE, 1, 0);
      PowSound(w * ONE, n);
      WholeScales(w, n);
      ExpPositive(ONE, n - 1);
      if ONE * Exp(w, n) < TWO_256 { MulStrict(ONE * Exp(w, n), TWO_256, Exp(ONE, n - 1)); }
    }
  }

  // ---------------------------------------------------------------- the last product

  /** To a power of two the last product is by one, and cannot overflow. */
  lemma {:induction false} PowersOfTwoNeverPanic(x: U256, e: nat)
    ensures Exp(2, e) >= 1 && !PowSteps(x, Exp(2, e), ONE).Panicked?
    decreases e
  {
    ExpPositive(2, e);
    if e == 0 {
      assert x * ONE / ONE == x;
    } else if CheckedMul(x, x).Some? {
      PowersOfTwoNeverPanic(CheckedMul(x, x).value, e - 1);
      EvenHalf(Exp(2, e - 1));
    }
  }

  lemma EvenHalf(h: nat)
    ensures 2 * h / 2 == h && 2 * h % 2 == 0
  {
  }

  /** Otherwise it can: 10 to the 25th, cubed, panics although every checked product is in range, where its
      fourth power is reported as an overflow. */
  lemma LastProductPanics()
    ensures PowOf(TEN_TO_25 * ONE, 3) == Panicked
    ensures PowOf(TEN_TO_25 * ONE, 4) == Overflow
  {
    var x: U256 := TEN_TO_25 * ONE;
    var square: U256 := TEN_TO_25 * TEN_TO_25 * ONE;
    assert CheckedMul(x, x) == Some(square);
    assert CheckedMul(x, ONE) == Some(x);
    assert CheckedMul(square, x) == None;
    assert CheckedMul(square, square) == None;
    assert PowSteps(x, 3, ONE) == PowSteps(square, 1, x);
    assert PowSteps(x, 4, ONE) == PowSteps(square, 2, ONE);
  }

  const TEN_TO_25: nat := 10_000_000_000_000_000_000_000_000
}
