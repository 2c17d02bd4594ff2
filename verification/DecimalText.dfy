/** Decimals as text: digits, a dot, and up to 18 digits after it. */
module DecimalText {
  import opened ByteStrings
  import opened Words
  import opened DecimalPower

  const DOT: Byte := 46
  const PLUS: Byte := 43
  const ZERO: Byte := 48
  const PLACES: nat := 18

  predicate IsDigit(c: Byte)
  {
    48 <= c <= 57
  }

  predicate AllDigits(s: Bytes)
  {
    forall i :: 0 <= i < |s| ==> IsDigit(s[i])
  }

  /** The number the digits spell. */
  function Val(s: Bytes): nat
    requires AllDigits(s)
  {
    if s == [] then 0 else 10 * Val(s[..|s| - 1]) + (s[|s| - 1] - 48)
  }

  /** `Uint256::to_string`: no leading zeros, and zero is one. */
  function Digits(n: nat): (s: Bytes)
    ensures AllDigits(s) && s != [] && Val(s) == n
  {
    if n < 10 then [48 + n] else Digits(n / 10) + [48 + n % 10]
  }

  /** `parse::<Uint256>`: at least one digit, after at most one plus, and in range. */
  function ParseUint(s: Bytes): Option<U256>
  {
    if IsNumber(s) && Num(s) < TWO_256 then Some(Num(s)) else None
  }

  function Unsigned(s: Bytes): Bytes
  {
    if s != [] && s[0] == PLUS then s[1..] else s
  }

  predicate IsNumber(s: Bytes)
  {
    Unsigned(s) != [] && AllDigits(Unsigned(s))
  }

  function Num(s: Bytes): nat
    requires IsNumber(s)
  {
    Val(Unsigned(s))
  }

  // ---------------------------------------------------------------- printing

  function Zeros(n: nat): (s: Bytes)
    ensures |s| == n && forall c :: c in s ==> c == ZERO
  {
    seq(n, _ => ZERO)
  }

  /** `{:0>18}` */
  function Padded(s: Bytes): Bytes
  {
    if |s| >= PLACES then s else Zeros(PLACES - |s|) + s
  }

  /** `trim_end_matches('0')` */
  function Trimmed(s: Bytes): Bytes
  {
    if s != [] && s[|s| - 1] == ZERO then Trimmed(s[..|s| - 1]) else s
  }

  function Display(d: U256): Bytes
  {
    if d % ONE == 0 then Digits(d / ONE)
    else Digits(d / ONE) + [DOT] + Trimmed(Padded(Digits(d % ONE)))
  }

  // ---------------------------------------------------------------- parsing

  /** Where the first dot is, or the length. */
  function FirstDot(s: Bytes): (i: nat)
    ensures i <= |s| && (forall j :: 0 <= j < i ==> s[j] != DOT) && (i < |s| ==> s[i] == DOT)
  {
    if s == [] || s[0] == DOT then 0 else 1 + FirstDot(s[1..])
  }

  /** The parts between the dots; always at least one. */
  function Split(s: Bytes): (parts: seq<Bytes>)
    ensures parts != []
    decreases |s|
  {
    var i := FirstDot(s);
    if i == |s| then [s] else [s[..i]] + Split(s[i + 1..])
  }

  /** A length is cut to 32 bits before it is compared; `PanicsExactly` says when that is a panic. */
  datatype Parsed = Value(atomics: U256) | Refused | ParsePanic

  function AddFraction(whole: U256, part: Bytes): Parsed
  {
    var length := |part| % TWO_32;
    if ParseUint(part).None? || length > PLACES then Refused
    else
      var scaled := ParseUint(part).value * Exp(10, PLACES - length);
      if scaled >= TWO_256 then ParsePanic
      else if whole + scaled >= TWO_256 then Refused
      else Value(whole + scaled)
  }

  function FromStr(s: Bytes): Parsed
  {
    var parts := Split(s);
    if ParseUint(parts[0]).None? || ParseUint(parts[0]).value * ONE >= TWO_256 then Refused
    else
      var whole := ParseUint(parts[0]).value * ONE;
      if |parts| == 1 then Value(whole)
      else
        var r := AddFraction(whole, parts[1]);
        if r.Value? && |parts| > 2 then Refused else r
  }

  // ---------------------------------------------------------------- digits

  lemma {:induction false} ValOfConcat(a: Bytes, b: Bytes)
    requires AllDigits(a) && AllDigits(b)
    ensures AllDigits(a + b) && Val(a + b) == Val(a) * Exp(10, |b|) + Val(b)
  {
    if b == [] {
      assert a + b == a;
    } else {
      var n := |b| - 1;
      assert (a + b)[..|a + b| - 1] == a + b[..n];
      ValOfConcat(a, b[..n]);
      TenTimes(Val(a), Exp(10, n), Val(b[..n]), Exp(10, |b|));
    }
  }

  lemma TenTimes(v: nat, e: nat, w: nat, next: nat)
    requires next == 10 * e
    ensures 10 * (v * e + w) == v * next + 10 * w
  {
    Associate(v, 10, e);
    Associate(10, v, e);
  }

  lemma {:induction false} ValOfZeros(n: nat)
    ensures AllDigits(Zeros(n)) && Val(Zeros(n)) == 0
  {
    if n > 0 {
      assert Zeros(n)[..n - 1] == Zeros(n - 1);
      ValOfZeros(n - 1);
    }
  }

  lemma {:induction false} ValBounded(s: Bytes)
    requires AllDigits(s)
    ensures Val(s) < Exp(10, |s|)
  {
    if s != [] { ValBounded(s[..|s| - 1]); }
  }

  lemma {:induction false} DigitsShort(n: nat, k: nat)
    requires k >= 1 && n < Exp(10, k)
    ensures |Digits(n)| <= k
  {
    assert Exp(10, 1) == 10 * Exp(10, 0);
    if n >= 10 {
      DigitsShort(n / 10, k - 1);
    }
  }

  lemma PaddedVal(n: nat)
    requires n < ONE
    ensures |Padded(Digits(n))| == PLACES && AllDigits(Padded(Digits(n))) && Val(Padded(Digits(n))) == n
  {
    ExpTenPlaces();
    DigitsShort(n, PLACES);
    if |Digits(n)| < PLACES {
      ValOfZeros(PLACES - |Digits(n)|);
      ValOfConcat(Zeros(PLACES - |Digits(n)|), Digits(n));
    }
  }

  lemma ExpTenPlaces()
    ensures Exp(10, PLACES) == ONE
  {
    assert Exp(10, 3) == 1000;
    ExpAdds(10, 3, 3);
    ExpAdds(10, 6, 6);
    ExpAdds(10, 6, 12);
  }

  /** What is trimmed off scales the value by as many tens. */
  lemma {:induction false} TrimmedVal(s: Bytes)
    requires AllDigits(s)
    ensures |Trimmed(s)| <= |s| && AllDigits(Trimmed(s)) && Val(s) == Val(Trimmed(s)) * Exp(10, |s| - |Trimmed(s)|)
    ensures Val(s) > 0 ==> Trimmed(s) != []
  {
    if s != [] && s[|s| - 1] == ZERO {
      var t := s[..|s| - 1];
      TrimmedVal(t);
      var k := |t| - |Trimmed(t)|;
      TenTimes(Val(Trimmed(t)), Exp(10, k), 0, Exp(10, k + 1));
    } else {
      assert Exp(10, 0) == 1;
    }
  }

  // ---------------------------------------------------------------- the round trip

  lemma NoDotInNumber(s: Bytes)
    requires IsNumber(s)
    ensures FirstDot(s) == |s| && Split(s) == [s]
  {
    assert forall i :: 0 <= i < |s| ==> s[i] == PLUS || IsDigit(s[i]) by {
      assert forall i :: 1 <= i < |s| && s[0] == PLUS ==> s[i] == Unsigned(s)[i - 1];
    }
  }

  lemma DigitsAreNumber(s: Bytes)
    requires AllDigits(s) && s != []
    ensures IsNumber(s) && Num(s) == Val(s)
  {
  }

  lemma SplitAtDot(a: Bytes, b: Bytes)
    requires IsNumber(a) && IsNumber(b)
    ensures Split(a + [DOT] + b) == [a, b]
  {
    var s := a + [DOT] + b;
    NoDotInNumber(a);
    DotAfter(a, b);
    assert s[..|a|] == a && s[|a| + 1..] == b;
    NoDotInNumber(b);
  }

  lemma {:induction false} DotAfter(a: Bytes, b: Bytes)
    requires FirstDot(a) == |a|
    ensures FirstDot(a + [DOT] + b) == |a|
  {
    if a != [] { assert (a + [DOT] + b)[1..] == a[1..] + [DOT] + b; DotAfter(a[1..], b); }
  }

  /** The fraction as printed: digits, not too many, worth the fraction once scaled. */
  lemma FractionPrinted(f: nat)
    requires 0 < f < ONE
    ensures var part := Trimmed(Padded(Digits(f)));
            AllDigits(part) && 1 <= |part| <= PLACES && Val(part) * Exp(10, PLACES - |part|) == f
  {
    PaddedVal(f);
    TrimmedVal(Padded(Digits(f)));
  }

  lemma AtLeastItself(v: nat, e: nat)
    requires e > 0
    ensures v <= v * e
  {
  }

  /** Every one of the 2 to the 256 decimals, printed and read again, is itself. */
  lemma DecimalRoundTrip(d: U256)
    ensures FromStr(Display(d)) == Value(d)
  {
    hide AddFraction, Exp, Val, Digits, Trimmed, Padded, Split, IsNumber, Num;
    var whole, f := d / ONE, d % ONE;
    assert d == whole * ONE + f;
    DigitsAreNumber(Digits(whole));
    if f == 0 {
      NoDotInNumber(Digits(whole));
    } else {
      FractionPrinted(f);
      var part := Trimmed(Padded(Digits(f)));
      DigitsAreNumber(part);
      FractionSpells(whole * ONE, part, d);
      SplitAtDot(Digits(whole), part);
    }
  }

  /** A dot is where the first part ends, and there is a third part if and only if there is another. */
  lemma SplitTells(s: Bytes)
    ensures var i := FirstDot(s);
            if i == |s| then Split(s) == [s]
            else |Split(s)| > 1 && Split(s)[0] == s[..i]
                 && (FirstDot(s[i + 1..]) == |s| - i - 1 ==> Split(s) == [s[..i], s[i + 1..]])
                 && (FirstDot(s[i + 1..]) < |s| - i - 1 ==> |Split(s)| > 2)
  {
  }

  lemma SpellsAtFirstDot(s: Bytes, j: nat, v: nat)
    requires SpellsAt(s, j, v)
    ensures FirstDot(s) == j < |s| && FirstDot(s[j + 1..]) == |s| - j - 1
  {
    hide IsNumber, Num;
    var whole, part := s[..j], s[j + 1..];
    NoDotInNumber(whole);
    NoDotInNumber(part);
    assert s == whole + [DOT] + part;
    DotAfter(whole, part);
  }

  lemma FractionSpells(whole: U256, part: Bytes, v: U256)
    ensures AddFraction(whole, part) == Value(v)
            <==> IsNumber(part) && |part| % TWO_32 <= PLACES && v == whole + Num(part) * Exp(10, PLACES - |part| % TWO_32)
  {
    hide Exp, IsNumber, Num;
    if IsNumber(part) && |part| % TWO_32 <= PLACES {
      ExpPositive(10, PLACES - |part| % TWO_32);
      AtLeastItself(Num(part), Exp(10, PLACES - |part| % TWO_32));
    }
  }

  /** Two parts: the text spells what is read. */
  lemma PartsSpell(s: Bytes, i: nat, v: U256)
    requires i < |s| && s[i] == DOT && Split(s) == [s[..i], s[i + 1..]]
    ensures FromStr(s) == Value(v) <==> SpellsAt(s, i, v)
  {
    hide AddFraction, Exp, IsNumber, Num;
    var whole, part := s[..i], s[i + 1..];
    if ParseUint(whole).Some? && ParseUint(whole).value * ONE < TWO_256 {
      FractionSpells(ParseUint(whole).value * ONE, part, v);
    }
  }

  /** Text reads as a decimal exactly when it spells it. */
  lemma ParsesExactly(s: Bytes, v: U256)
    ensures FromStr(s) == Value(v) <==> Spells(s, v)
  {
    hide AddFraction, Split, SpellsAt, IsNumber, Num;
    var i := FirstDot(s);
    SplitTells(s);
    forall j: nat | SpellsAt(s, j, v) ensures i == j < |s| && FirstDot(s[j + 1..]) == |s| - j - 1 { SpellsAtFirstDot(s, j, v); }
    if i == |s| {
    } else {
      if SpellsWhole(s, v) { WholeHasNoDot(s, v); }
      if FirstDot(s[i + 1..]) == |s| - i - 1 { PartsSpell(s, i, v); }
    }
  }

  lemma WholeHasNoDot(s: Bytes, v: nat)
    requires SpellsWhole(s, v)
    ensures FirstDot(s) == |s|
  {
    NoDotInNumber(s);
  }

  // ---------------------------------------------------------------- when it panics

  /** The part after the first dot, up to the next one. */
  function Fraction(s: Bytes): Bytes
    requires FirstDot(s) < |s|
  {
    var rest := s[FirstDot(s) + 1..];
    rest[..FirstDot(rest)]
  }

  predicate Fits(s: Bytes)
  {
    ParseUint(s).Some? && ParseUint(s).value * ONE < TWO_256
  }

  /** The whole part fits, the length of the fraction passes once it is cut to 32 bits, and its number is
      too large for what the length stands for. */
  predicate Overlong(s: Bytes)
  {
    && FirstDot(s) < |s| && Fits(s[..FirstDot(s)])
    && var part := Fraction(s);
    && ParseUint(part).Some? && |part| % TWO_32 <= PLACES
    && ParseUint(part).value * Exp(10, PLACES - |part| % TWO_32) >= TWO_256
  }

  /** The text panics exactly when it is overlong, which takes a fraction of 2 to the 32 characters. */
  lemma PanicsExactly(s: Bytes)
    ensures FromStr(s) == ParsePanic <==> Overlong(s)
    ensures Overlong(s) ==> |Fraction(s)| >= TWO_32
  {
    hide Exp, ParseUint, Split, Fraction;
    SplitTells(s);
    if FirstDot(s) < |s| {
      SecondPart(s);
      FractionFits(Fraction(s));
    }
  }

  lemma SecondPart(s: Bytes)
    requires FirstDot(s) < |s|
    ensures |Split(s)| > 1 && Split(s)[0] == s[..FirstDot(s)] && Split(s)[1] == Fraction(s)
  {
    var rest := s[FirstDot(s) + 1..];
    SplitTells(rest);
    assert rest[..|rest|] == rest;
    assert Split(s) == [s[..FirstDot(s)]] + Split(rest);
  }

  lemma FractionFits(part: Bytes)
    ensures ParseUint(part).Some? && |part| <= PLACES ==> ParseUint(part).value * Exp(10, PLACES - |part|) < TWO_256
  {
    if IsNumber(part) && |part| <= PLACES {
      var digits := Unsigned(part);
      ValBounded(digits);
      ExpAdds(10, |digits|, PLACES - |part|);
      ExpAdds(10, |digits| + (PLACES - |part|), |part| - |digits|);
      ExpPositive(10, |part| - |digits|);
      ExpTenPlaces();
      MulMonotone(Val(digits), Exp(10, |digits|), Exp(10, PLACES - |part|), Exp(10, PLACES - |part|));
      AtLeastItself(Exp(10, |digits| + (PLACES - |part|)), Exp(10, |part| - |digits|));
    }
  }

  /** So no text below four gigabytes makes the parser panic. */
  lemma ParseNeverPanics(s: Bytes)
    requires |s| < TWO_32
    ensures FromStr(s) != ParsePanic
  {
    hide FromStr;
    PanicsExactly(s);
  }

  // ---------------------------------------------------------------- it does happen

  /** 4294967235 zeros, a one and 60 zeros after the dot: their number, cut to 32 bits, is none. */
  function LongText(): Bytes
  {
    [ZERO, DOT] + LongPart()
  }

  function LongPart(): Bytes
  {
    Zeros(TWO_32 - 61) + ([49] + Zeros(60))
  }

  lemma LongPartSpells()
    ensures |LongPart()| == TWO_32 && AllDigits(LongPart()) && Val(LongPart()) == Exp(10, 60)
  {
    hide Zeros;
    ValOfZeros(TWO_32 - 61);
    ValOfZeros(60);
    assert Val([49]) == 1 by { assert [49][..0] == []; }
    ValOfConcat([49], Zeros(60));
    ValOfConcat(Zeros(TWO_32 - 61), [49] + Zeros(60));
  }

  lemma LongPartIsNumber()
    ensures IsNumber(LongPart()) && Num(LongPart()) == Val(LongPart())
  {
    hide LongPart, Val;
    LongPartSpells();
    DigitsAreNumber(LongPart());
  }

  lemma LongPowers()
    ensures Exp(10, 60) < TWO_256 <= Exp(10, 60) * Exp(10, PLACES)
  {
    ExpTenPlaces();
    assert Exp(10, 6) == 1000000;
    ExpAdds(10, 18, 18);
    ExpAdds(10, 36, 18);
    ExpAdds(10, 54, 6);
  }

  /** So text of four gigabytes can make the parser panic. */
  lemma LongTextPanics()
    ensures FromStr(LongText()) == ParsePanic
  {
    hide LongPart, Val, Exp;
    DigitsAreNumber([ZERO]);
    LongPartIsNumber();
    LongPartSpells();
    LongPowers();
    assert Val([ZERO]) == 0 by { ValOfZeros(1); assert Zeros(1) == [ZERO]; }
    assert LongText() == [ZERO] + [DOT] + LongPart();
    SplitAtDot([ZERO], LongPart());
  }

  // ---------------------------------------------------------------- parsing, step by step

  /** What a text spells: a number, then perhaps a dot and a fraction of at most 18 characters, a plus among
      them, as the length is cut to 32 bits. */
  predicate SpellsWhole(s: Bytes, v: nat)
  {
    IsNumber(s) && v == Num(s) * ONE
  }

  predicate SpellsAt(s: Bytes, i: nat, v: nat)
  {
    && i < |s| && s[i] == DOT && IsNumber(s[..i]) && IsNumber(s[i + 1..])
    && var length := (|s| - i - 1) % TWO_32;
    && length <= PLACES && v == Num(s[..i]) * ONE + Num(s[i + 1..]) * Exp(10, PLACES - length)
  }

  ghost predicate Spells(s: Bytes, v: nat)
  {
    SpellsWhole(s, v) || exists i :: SpellsAt(s, i, v)
  }

  lemma ParseMeans(s: Bytes)
    ensures forall d: U256 :: s == Display(d) ==> FromStr(s) == Value(d)
    ensures forall v: U256 :: FromStr(s) == Value(v) <==> Spells(s, v)
  {
    hide Spells, Display, FromStr;
    forall d: U256 | s == Display(d) ensures FromStr(s) == Value(d) { DecimalRoundTrip(d); }
    forall v: U256 ensures FromStr(s) == Value(v) <==> Spells(s, v) { ParsesExactly(s, v); }
  }

  /** The steps as the program takes them, adding to the atomics. They read just the texts that spell a
      decimal in range, among them every decimal as printed, and panic just on overlong ones. */
  method Parse(s: Bytes) returns (r: Parsed)
    ensures r == FromStr(s)
    ensures forall d: U256 :: s == Display(d) ==> r == Value(d)
    ensures forall v: U256 :: r == Value(v) <==> Spells(s, v)
    ensures r == ParsePanic <==> Overlong(s)
  {
    hide Spells, Display, Exp, ParseUint, Split, Overlong;
    ParseMeans(s);
    PanicsExactly(s);
    var parts := Split(s);
    var whole := ParseUint(parts[0]);
    if whole.None? || whole.value * ONE >= TWO_256 {
      return Refused;
    }
    var atomics: U256 := whole.value * ONE;
    if |parts| > 1 {
      var fractional := ParseUint(parts[1]);
      if fractional.None? || |parts[1]| % TWO_32 > PLACES {
        return Refused;
      }
      var scaled := fractional.value * Exp(10, PLACES - |parts[1]| % TWO_32);
      if scaled >= TWO_256 {
        return ParsePanic;
      }
      if atomics + scaled >= TWO_256 {
        return Refused;
      }
      atomics := atomics + scaled;
    }
    if |parts| > 2 {
      return Refused;
    }
    r := Value(atomics);
  }
}
