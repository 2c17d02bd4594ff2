/** A decimal is printed as the shortest text that spells it. */
module DecimalShortest {
  import opened ByteStrings
  import opened Words
  import opened DecimalPower
  import opened DecimalText

  /** No digits spell a number in fewer than it is printed in. */
  lemma {:induction false} DigitsShortest(s: Bytes)
    requires AllDigits(s) && s != []
    ensures |Digits(Val(s))| <= |s|
  {
    var n := |s| - 1;
    if Val(s) >= 10 {
      assert Val(s) / 10 == Val(s[..n]);
      DigitsShortest(s[..n]);
    }
  }

  /** Digits worth a multiple of a power of ten lose that many zeros. */
  lemma {:induction false} TrimsZeros(p: Bytes, w: nat, j: nat)
    requires AllDigits(p) && j <= |p| && Val(p) == w * Exp(10, j)
    ensures |Trimmed(p)| <= |p| - j
    decreases j
  {
    if j == 0 {
      TrimmedVal(p);
    } else {
      var n := |p| - 1;
      TenTimes(w, Exp(10, j - 1), 0, Exp(10, j));
      assert p[n] == ZERO && Val(p[..n]) == w * Exp(10, j - 1);
      TrimsZeros(p[..n], w, j - 1);
    }
  }

  /** A fraction of so many digits is printed in no more. */
  lemma FractionShortest(w: nat, length: nat)
    requires length <= PLACES && 0 < w * Exp(10, PLACES - length) < ONE
    ensures |Trimmed(Padded(Digits(w * Exp(10, PLACES - length))))| <= length
  {
    hide Exp, Val, Digits, Padded, Trimmed;
    PaddedVal(w * Exp(10, PLACES - length));
    TrimsZeros(Padded(Digits(w * Exp(10, PLACES - length))), w, PLACES - length);
  }

  lemma Quotients(n: nat, f: nat)
    requires f < ONE
    ensures (n * ONE + f) / ONE == n && (n * ONE + f) % ONE == f
  {
  }

  lemma UnsignedShortest(s: Bytes)
    requires IsNumber(s)
    ensures |Digits(Num(s))| <= |s|
  {
    DigitsShortest(Unsigned(s));
  }

  /** No decimal of 256 bits takes more than 79 characters. */
  lemma DisplayBounded(d: U256)
    ensures |Display(d)| <= 79
  {
    hide Exp, Digits, Padded, Trimmed;
    SixtyDigits();
    DigitsShort(d / ONE, 60);
    if d % ONE > 0 { FractionPrinted(d % ONE); }
  }

  lemma SixtyDigits()
    ensures TWO_256 / ONE < Exp(10, 60)
  {
    ExpTenPlaces();
    assert Exp(10, 6) == 1000000;
    ExpAdds(10, 18, 18);
    ExpAdds(10, 36, 18);
    ExpAdds(10, 54, 6);
  }

  lemma SmallFraction(part: Bytes)
    requires IsNumber(part) && |part| <= PLACES
    ensures Num(part) * Exp(10, PLACES - |part|) < ONE
  {
    var digits := Unsigned(part);
    ValBounded(digits);
    ExpAdds(10, |digits|, PLACES - |part|);
    ExpPositive(10, PLACES - |part|);
    MulStrict(Val(digits), Exp(10, |digits|), Exp(10, PLACES - |part|));
    ExpAdds(10, |digits| + (PLACES - |part|), |part| - |digits|);
    ExpPositive(10, |part| - |digits|);
    MulMonotone(Exp(10, |digits| + (PLACES - |part|)), Exp(10, |digits| + (PLACES - |part|)), 1, Exp(10, |part| - |digits|));
    ExpTenPlaces();
  }

  lemma SpelledAtIsLonger(s: Bytes, i: nat, d: U256)
    requires SpellsAt(s, i, d) && |s| - i - 1 < TWO_32
    ensures |Display(d)| <= |s|
  {
    hide Exp, Digits, Padded, Trimmed, IsNumber, Num;
    var whole, part := s[..i], s[i + 1..];
    var f := Num(part) * Exp(10, PLACES - |part|);
    SmallFraction(part);
    Quotients(Num(whole), f);
    UnsignedShortest(whole);
    if f > 0 { FractionShortest(Num(part), |part|); }
  }

  /** Whatever text spells a decimal, the printed one is no longer. */
  lemma DisplayShortest(s: Bytes, d: U256)
    requires Spells(s, d)
    ensures |Display(d)| <= |s|
  {
    hide Exp, Digits, Padded, Trimmed, IsNumber, Num;
    if SpellsWhole(s, d) {
      Quotients(Num(s), 0);
      UnsignedShortest(s);
    } else {
      var i :| SpellsAt(s, i, d);
      if |s| - i - 1 < TWO_32 { SpelledAtIsLonger(s, i, d); } else { DisplayBounded(d); }
    }
  }
}
