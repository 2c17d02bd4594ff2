/** Node hashes as text: printed as two lower-case digits a byte, and read back. */
module Hex {
  import opened ByteStrings
  import opened IavlNode

  const PLUS: Byte := 43

  /** A digit below ten is 48 up, the rest 'a' up. */
  function Digit(d: nat): Byte
    requires d < 16
  {
    if d < 10 then 48 + d else 87 + d
  }

  /** `char::to_digit(16)`: either case is read. */
  function DigitValue(c: Byte): Option<nat>
  {
    if 48 <= c <= 57 then Some(c - 48)
    else if 97 <= c <= 102 then Some(c - 87)
    else if 65 <= c <= 70 then Some(c - 55)
    else None
  }

  /** `format!("{:02x}")` of every byte. */
  function ToHex(bytes: Bytes): (s: Bytes)
    ensures |s| == 2 * |bytes|
    ensures forall i :: 0 <= i < |bytes| ==> s[2 * i] == Digit(bytes[i] / 16) && s[2 * i + 1] == Digit(bytes[i] % 16)
  {
    if bytes == [] then [] else [Digit(bytes[0] / 16), Digit(bytes[0] % 16)] + ToHex(bytes[1..])
  }

  /** `u8::from_str_radix` on two characters; a leading plus is allowed. */
  function PairValue(a: Byte, b: Byte): Option<Byte>
  {
    match DigitValue(b)
    case None => None
    case Some(low) =>
      if a == PLUS then Some(low)
      else
        match DigitValue(a)
        case None => None
        case Some(high) => DigitBounds(a, b); Some(16 * high + low)
  }

  lemma DigitBounds(a: Byte, b: Byte)
    ensures DigitValue(a).Some? ==> DigitValue(a).value < 16
    ensures DigitValue(b).Some? ==> DigitValue(b).value < 16
  {
  }

  /** `s` spells `bytes`, two characters each. */
  predicate Spells(s: Bytes, bytes: Bytes)
  {
    |s| == 2 * |bytes| && forall i :: 0 <= i < |bytes| ==> PairValue(s[2 * i], s[2 * i + 1]) == Some(bytes[i])
  }

  /** `None` unless the text is 64 characters that pair up into bytes. */
  function ReadHex(s: Bytes): (r: Option<Hash>)
    ensures r.Some? ==> Spells(s, r.value)
    ensures r.None? ==> forall h: Hash :: !Spells(s, h)
  {
    if |s| == 64 && forall i :: 0 <= i < 32 ==> PairValue(s[2 * i], s[2 * i + 1]).Some?
    then Some(seq(32, i requires 0 <= i < 32 => PairValue(s[2 * i], s[2 * i + 1]).value))
    else Unreadable(s); None
  }

  lemma Unreadable(s: Bytes)
    requires !(|s| == 64 && forall i :: 0 <= i < 32 ==> PairValue(s[2 * i], s[2 * i + 1]).Some?)
    ensures forall h: Hash :: !Spells(s, h)
  {
    forall h: Hash ensures !Spells(s, h) {
      if |s| == 64 {
        var i :| 0 <= i < 32 && PairValue(s[2 * i], s[2 * i + 1]).None?;
        assert PairValue(s[2 * i], s[2 * i + 1]) != Some(h[i]);
      }
    }
  }

  method FromHex(s: Bytes) returns (r: Option<Hash>)
    ensures r == ReadHex(s)
  {
    if |s| != 64 {
      return None;
    }
    var bytes: Bytes := seq(32, _ => 0);
    for i := 0 to 32
      invariant |bytes| == 32
      invariant forall j :: 0 <= j < i ==> PairValue(s[2 * j], s[2 * j + 1]) == Some(bytes[j])
    {
      var byte := PairValue(s[2 * i], s[2 * i + 1]);
      if byte.None? {
        return None;
      }
      bytes := bytes[i := byte.value];
    }
    assert Spells(s, bytes);
    SpellsOnce(s, bytes, ReadHex(s).value);
    r := Some(bytes);
  }

  lemma SpellsOnce(s: Bytes, a: Bytes, b: Bytes)
    requires Spells(s, a) && Spells(s, b)
    ensures a == b
  {
    assert forall i :: 0 <= i < |a| ==> Some(a[i]) == Some(b[i]);
  }

  lemma DigitsReadBack(b: Byte)
    ensures PairValue(Digit(b / 16), Digit(b % 16)) == Some(b)
  {
  }

  /** What is printed reads back as the bytes printed, and as nothing else. */
  lemma HexRoundTrip(bytes: Bytes, other: Bytes)
    ensures Spells(ToHex(bytes), other) <==> other == bytes
  {
    forall i | 0 <= i < |bytes| ensures PairValue(ToHex(bytes)[2 * i], ToHex(bytes)[2 * i + 1]) == Some(bytes[i]) {
      DigitsReadBack(bytes[i]);
    }
    if Spells(ToHex(bytes), other) { SpellsOnce(ToHex(bytes), bytes, other); }
  }

  lemma PrintedReadsBack(h: Hash)
    ensures ReadHex(ToHex(h)) == Some(h)
  {
    HexRoundTrip(h, h);
    HexRoundTrip(h, ReadHex(ToHex(h)).value);
  }

  predicate LowerDigit(c: Byte)
  {
    48 <= c <= 57 || 97 <= c <= 102
  }

  lemma PairPrintsBack(a: Byte, b: Byte)
    requires PairValue(a, b).Some?
    ensures var v := PairValue(a, b).value; (Digit(v / 16) == a && Digit(v % 16) == b) <==> LowerDigit(a) && LowerDigit(b)
  {
  }

  /** Text that can be read prints back as itself exactly when it has neither capitals nor signs. */
  lemma HexCanonicalExactly(s: Bytes, bytes: Bytes)
    requires Spells(s, bytes)
    ensures ToHex(bytes) == s <==> forall c :: c in s ==> LowerDigit(c)
  {
    var t := ToHex(bytes);
    forall i | 0 <= i < |bytes|
      ensures (t[2 * i] == s[2 * i] && t[2 * i + 1] == s[2 * i + 1]) <==> LowerDigit(s[2 * i]) && LowerDigit(s[2 * i + 1])
    {
      PairPrintsBack(s[2 * i], s[2 * i + 1]);
    }
    if forall c :: c in s ==> LowerDigit(c) {
      forall j | 0 <= j < |s| ensures t[j] == s[j] {
        var i := j / 2;
        assert j == 2 * i || j == 2 * i + 1;
        assert s[2 * i] in s && s[2 * i + 1] in s;
      }
    }
    if t == s {
      forall j | 0 <= j < |s| ensures LowerDigit(s[j]) {
        var i := j / 2;
        assert j == 2 * i || j == 2 * i + 1;
        assert t[2 * i] == s[2 * i] && t[2 * i + 1] == s[2 * i + 1];
      }
    }
  }
}
