/** Exactly when a checked power panics: its last product is not a checked one. */
module DecimalPanics {
  import opened ByteStrings
  import opened Words
  import opened DecimalPower

  /** The base squared until one bit of the exponent is left; `None` is an overflow on the way. */
  function Squares(x: U256, n: nat): Option<U256>
    requires n >= 1
    decreases n
  {
    if n == 1 then Some(x)
    else if CheckedMul(x, x).None? then None
    else Squares(CheckedMul(x, x).value, n / 2)
  }

  /** The product of the squares at the set bits of the exponent below its highest. */
  function Lower(x: U256, n: nat, y: nat): nat
    requires n >= 1
    decreases n
  {
    if n == 1 || CheckedMul(x, x).None? then y
    else Lower(CheckedMul(x, x).value, n / 2, if n % 2 == 0 then y else x * y / ONE)
  }

  /** The highest power of two in `n`. */
  function Top(n: nat): (t: nat)
    requires n >= 1
    ensures 1 <= t <= n
  {
    if n == 1 then 1 else 2 * Top(n / 2)
  }

  lemma {:induction false} TopIsHighest(n: nat) returns (e: nat)
    requires n >= 1
    ensures Top(n) == Exp(2, e) && Top(n) <= n < 2 * Top(n)
  {
    if n == 1 {
      e := 0;
    } else {
      e := TopIsHighest(n / 2);
      e := e + 1;
    }
  }

  /** The last product, of everything squared and everything set aside, does not fit. */
  predicate LastOverflows(x: U256, n: nat, y: nat)
    requires n >= 1
  {
    Squares(x, n).Some? && Squares(x, n).value * Lower(x, n, y) / ONE >= TWO_256
  }

  lemma AtLeastOne(x: nat, y: nat)
    requires ONE <= y <= x
    ensures x <= x * y / ONE <= x * x / ONE
  {
    MulMonotone(x, x, ONE, y);
    MulMonotone(x, x, y, x);
    DivideMonotone(x * ONE, x * y);
    DivideMonotone(x * y, x * x);
  }

  lemma DivideMonotone(a: nat, b: nat)
    requires a <= b
    ensures a / ONE <= b / ONE
  {
  }

  /** What is set aside never overtakes what is squared, so only a squaring can overflow on the way. */
  lemma {:induction false} StepsExactly(x: U256, n: nat, y: U256)
    requires n >= 1 && ONE <= y <= x
    ensures PowSteps(x, n, y).Overflow? <==> Squares(x, n).None?
    ensures PowSteps(x, n, y).Panicked? <==> LastOverflows(x, n, y)
    decreases n
  {
    if n > 1 {
      AtLeastOne(x, x);
      AtLeastOne(x, y);
      if CheckedMul(x, x).Some? {
        StepsExactly(CheckedMul(x, x).value, n / 2, if n % 2 == 0 then y else x * y / ONE);
      }
    }
  }

  lemma SmallGoesThrough(a: U256, n: nat)
    requires n >= 1 && a <= ONE
    ensures PowOf(a, n).PowOk?
  {
    hide Below, PowSteps;
    FirstPowers(a);
    StepsSound(a, a, n, ONE, 1, 0);
    SmallStaysSmall(a, n);
  }

  /** A power is an overflow exactly when a squaring is one, and a panic exactly when the squarings fit and
      the last product does not; for a base of at most one it is neither. */
  lemma PowFailsExactly(a: U256, n: nat)
    requires n >= 1
    ensures PowOf(a, n).Overflow? <==> a > ONE && Squares(a, n).None?
    ensures PowOf(a, n).Panicked? <==> a > ONE && LastOverflows(a, n, ONE)
  {
    if a > ONE { StepsExactly(a, n, ONE); } else { SmallGoesThrough(a, n); }
  }

  // ---------------------------------------------------------------- whole numbers

  lemma {:induction false} ExpGrows(w: nat, m: nat, n: nat)
    requires w >= 1 && m <= n
    ensures Exp(w, m) <= Exp(w, n)
    decreases n
  {
    if m < n {
      ExpGrows(w, m, n - 1);
      MulMonotone(1, w, Exp(w, n - 1), Exp(w, n - 1));
    }
  }

  /** One step of the exponents. */
  lemma TopHalves(m: nat, n: nat, k: nat)
    requires n >= 2
    ensures (m + m) * Top(n / 2) == m * Top(n)
    ensures n % 2 == 0 ==> (m + m) * (n / 2 - Top(n / 2)) + k == m * (n - Top(n)) + k
    ensures n % 2 == 1 ==> (m + m) * (n / 2 - Top(n / 2)) + (m + k) == m * (n - Top(n)) + k
    ensures m + m <= m * Top(n)
  {
    hide Top;
    var t, rest, bit := Top(n / 2), n / 2 - Top(n / 2), n % 2;
    TopDoubles(n);
    Doubled(m, t, 0, Top(n));
    Doubled(m, rest, bit, n - Top(n));
    AtLeastTwice(m, Top(n));
  }

  lemma TopDoubles(n: nat)
    requires n >= 2
    ensures Top(n) == 2 * Top(n / 2) && n - Top(n) == 2 * (n / 2 - Top(n / 2)) + n % 2
  {
  }

  lemma AtLeastTwice(m: nat, t: nat)
    requires t >= 2
    ensures m + m <= m * t
  {
  }

  lemma Doubled(m: nat, d: nat, bit: nat, n: nat)
    requires bit <= 1 && n == 2 * d + bit
    ensures m * n == (m + m) * d + if bit == 1 then m else 0
  {
    assert m * (2 * d) == (m + m) * d;
    if bit == 1 { assert m * (2 * d + 1) == m * (2 * d) + m; }
  }

  /** `x` is the `m`th power, `y` the `k`th: what the squarings and the products set aside come to. */
  lemma {:induction false} WholeSteps(w: nat, x: U256, n: nat, y: nat, m: nat, k: nat)
    requires w >= 1 && n >= 1 && Whole(x, w, m) && Whole(y, w, k)
    ensures Squares(x, n).Some? ==> Whole(Squares(x, n).value, w, m * Top(n)) && Whole(Lower(x, n, y), w, m * (n - Top(n)) + k)
    ensures Squares(x, n).None? ==> ONE * Exp(w, m * Top(n)) >= TWO_256
    decreases n
  {
    hide Whole, Exp, Top;
    if n > 1 {
      WholeProduct(x, x, w, m, m);
      WholeProduct(x, y, w, m, k);
      TopHalves(m, n, k);
      if CheckedMul(x, x).Some? {
        if n % 2 == 0 {
          WholeSteps(w, CheckedMul(x, x).value, n / 2, y, m + m, k);
        } else {
          WholeSteps(w, CheckedMul(x, x).value, n / 2, x * y / ONE, m + m, m + k);
        }
      } else {
        WholeMeans(x * x / ONE, w, m + m);
        ExpGrows(w, m + m, m * Top(n));
        MulMonotone(ONE, ONE, Exp(w, m + m), Exp(w, m * Top(n)));
      }
    }
  }

  lemma WholeMeans(x: nat, w: nat, m: nat)
    requires Whole(x, w, m)
    ensures x == ONE * Exp(w, m)
  {
  }

  lemma WholeProduct(x: nat, y: nat, w: nat, m: nat, k: nat)
    requires Whole(x, w, m) && Whole(y, w, k)
    ensures Whole(x * y / ONE, w, m + k)
  {
    ExpAdds(w, m, k);
    Regroup(ONE, Exp(w, m), ONE, Exp(w, k));
    Associate(ONE, ONE, Exp(w, m) * Exp(w, k));
    assert x * y == ONE * (ONE * (Exp(w, m) * Exp(w, k)));
  }

  /** A whole number's power panics exactly when it does not fit but the power to the highest bit of the
      exponent does, and is reported as an overflow exactly when even that does not fit. */
  lemma WholePanicsExactly(w: nat, n: nat)
    requires w >= 1 && n >= 1 && w * ONE < TWO_256
    ensures PowOf(w * ONE, n).Panicked? <==> ONE * Exp(w, Top(n)) < TWO_256 <= ONE * Exp(w, n)
    ensures PowOf(w * ONE, n).Overflow? <==> ONE * Exp(w, Top(n)) >= TWO_256
  {
    hide Squares, Lower, PowSteps;
    var x: U256 := w * ONE;
    assert Whole(x, w, 1) && Whole(ONE, w, 0) by { assert Exp(w, 1) == w * Exp(w, 0); }
    MulMonotone(1, w, ONE, ONE);
    StepsExactly(x, n, ONE);
    WholeSteps(w, x, n, ONE, 1, 0);
    ExpGrows(w, Top(n), n);
    MulMonotone(ONE, ONE, Exp(w, Top(n)), Exp(w, n));
    if Squares(x, n).Some? {
      WholeProduct(Squares(x, n).value, Lower(x, n, ONE), w, Top(n), n - Top(n));
    }
  }
}
