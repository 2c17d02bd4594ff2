/** Square roots of a decimal with 18 places, at the highest precision whose scaling fits 256 bits. */
module DecimalRoot {
  import opened ByteStrings
  import opened Words
  import opened DecimalPower

  predicate IsRoot(r: nat, n: nat)
  {
    r * r <= n < (r + 1) * (r + 1)
  }

  lemma {:induction false} RootExists(n: nat)
    ensures exists r: nat :: IsRoot(r, n)
  {
    if n == 0 {
      assert IsRoot(0, 0);
    } else {
      RootExists(n - 1);
      var r: nat :| IsRoot(r, n - 1);
      assert IsRoot(r, n) || IsRoot(r + 1, n);
    }
  }

  lemma RootUnique(r: nat, s: nat, n: nat)
    requires IsRoot(r, n) && IsRoot(s, n)
    ensures r == s
  {
    if r < s { MulMonotone(r + 1, s, r + 1, s); }
    if s < r { MulMonotone(s + 1, r, s + 1, r); }
  }

  /** `Uint256::isqrt` */
  function Isqrt(n: nat): (r: nat)
    ensures IsRoot(r, n)
  {
    RootExists(n);
    assert forall r: nat, s: nat :: IsRoot(r, n) && IsRoot(s, n) ==> r == s by {
      forall r: nat, s: nat | IsRoot(r, n) && IsRoot(s, n) ensures r == s { RootUnique(r, s, n); }
    }
    var r: nat :| IsRoot(r, n);
    r
  }

  /** `None` when the scaling overflows. The last product is an `unwrap`; see `RootFits`. */
  function SqrtWithPrecision(a: U256, precision: nat): Option<nat>
    requires precision <= 9
  {
    if a * Exp(100, precision) < TWO_256
    then Some(Isqrt(a * Exp(100, precision)) * Exp(10, 9 - precision))
    else None
  }

  /** Scaled by this precision the number still fits 256 bits, and one higher, up to nine, it would not. */
  predicate BestPrecision(a: U256, i: nat)
  {
    i <= 9 && a * Exp(100, i) < TWO_256 && (i < 9 ==> a * Exp(100, i + 1) >= TWO_256)
  }

  lemma {:induction false} PrecisionExists(a: U256, from: nat) returns (i: nat)
    requires from <= 9 && (from < 9 ==> a * Exp(100, from + 1) >= TWO_256)
    ensures BestPrecision(a, i)
  {
    i := from;
    if a * Exp(100, from) >= TWO_256 {
      assert Exp(100, 0) == 1;
      i := PrecisionExists(a, from - 1);
    }
  }

  lemma FitsBelow(a: U256, i: nat, j: nat)
    requires j <= i && a * Exp(100, i) < TWO_256
    ensures a * Exp(100, j) < TWO_256
  {
    hide Exp;
    ExpAdds(100, j, i - j);
    ExpPositive(100, i - j);
    MulMonotone(a * Exp(100, j), a * Exp(100, j), 1, Exp(100, i - j));
    Associate(a, Exp(100, j), Exp(100, i - j));
  }

  /** There is exactly one. */
  lemma OnePrecision(a: U256)
    ensures exists i: nat :: BestPrecision(a, i)
    ensures forall i: nat, j: nat :: BestPrecision(a, i) && BestPrecision(a, j) ==> i == j
  {
    var i := PrecisionExists(a, 9);
    forall i: nat, j: nat | BestPrecision(a, i) && BestPrecision(a, j) ensures i == j {
      if i < j { FitsBelow(a, j, i + 1); }
      if j < i { FitsBelow(a, i, j + 1); }
    }
  }

  /** From the highest precision down, the first that works. Where the full precision fits it is the root,
      cut to 18 places. */
  method Sqrt(a: U256) returns (root: U256)
    ensures forall i: nat :: BestPrecision(a, i) ==> Root(a, root, i) && IsMultiple(root, Exp(10, 9 - i))
    ensures a * ONE < TWO_256 ==> root * root <= a * ONE < (root + 1) * (root + 1)
  {
    hide Root, IsMultiple, Isqrt;
    OnePrecision(a);
    FullPrecision(a);
    var i: nat := 9;
    var r := SqrtWithPrecision(a, i);
    while r.None?
      invariant 0 <= i <= 9 && r == SqrtWithPrecision(a, i)
      invariant i < 9 ==> a * Exp(100, i + 1) >= TWO_256
      decreases i
    {
      assert Exp(100, 0) == 1;
      i := i - 1;
      r := SqrtWithPrecision(a, i);
    }
    RootBounds(a, i);
    root := r.value;
    assert BestPrecision(a, i);
  }

  lemma FullPrecision(a: U256)
    ensures a * ONE < TWO_256 <==> BestPrecision(a, 9)
    ensures forall r: nat :: Root(a, r, 9) ==> r * r <= a * ONE < (r + 1) * (r + 1)
  {
    HundredSplits(9);
    assert Exp(10, 0) == 1;
  }

  function Times(s: nat, u: nat): nat
  {
    s * u
  }

  ghost predicate IsMultiple(r: nat, u: nat)
  {
    exists s: nat :: Times(s, u) == r
  }

  /** At most the root of the number scaled to 36 places, and less than one unit of the precision below it. */
  predicate Root(a: nat, r: nat, precision: nat)
    requires precision <= 9
  {
    r * r <= a * ONE < (r + Exp(10, 9 - precision)) * (r + Exp(10, 9 - precision))
  }

  lemma HundredSplits(i: nat)
    requires i <= 9
    ensures Exp(100, i) * (Exp(10, 9 - i) * Exp(10, 9 - i)) == ONE
  {
    ExpOfProduct(10, 10, i);
    ExpAdds(10, i, 9 - i);
    Regroup(Exp(10, i), Exp(10, i), Exp(10, 9 - i), Exp(10, 9 - i));
    TenToNine();
  }

  lemma TenToNine()
    ensures Exp(10, 9) == 1_000_000_000 && Exp(10, 9) * Exp(10, 9) == ONE
  {
    assert Exp(10, 3) == 1000;
    ExpAdds(10, 3, 3);
    ExpAdds(10, 3, 6);
  }

  lemma ScaledSquare(s: nat, u: nat, a: nat, h: nat)
    ensures (s * u) * (s * u) == (s * s) * (u * u)
    ensures (a * h) * (u * u) == a * (h * (u * u))
    ensures s * u + u == (s + 1) * u
  {
    Regroup(s, u, s, u);
    Associate(a, h, u * u);
  }

  /** Scaling the root back keeps it within one unit of the precision, and within 256 bits. */
  lemma RootBounds(a: U256, precision: nat)
    requires precision <= 9 && SqrtWithPrecision(a, precision).Some?
    ensures Root(a, SqrtWithPrecision(a, precision).value, precision)
    ensures SqrtWithPrecision(a, precision).value < TWO_256
    ensures IsMultiple(SqrtWithPrecision(a, precision).value, Exp(10, 9 - precision))
  {
    var h, u := Exp(100, precision), Exp(10, 9 - precision);
    var s := Isqrt(a * h);
    HundredSplits(precision);
    ExpPositive(10, 9 - precision);
    ScaledSquare(s, u, a, h);
    ScaledSquare(s + 1, u, a, h);
    MulMonotone(s * s, a * h, u * u, u * u);
    MulStrict(a * h, (s + 1) * (s + 1), u * u);
    RootFits(s * u, a);
    assert Times(s, u) == s * u;
  }

  lemma RootFits(r: nat, a: U256)
    requires r * r <= a * ONE
    ensures r < TWO_256
  {
    if r >= TWO_256 {
      MulMonotone(TWO_256, r, TWO_256, r);
      MulMonotone(a, TWO_256, ONE, ONE);
    }
  }
}
