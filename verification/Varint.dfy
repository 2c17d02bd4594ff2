/** Self-delimiting integers (LEB128, as `integer_encoding::VarInt`) and length-prefixed byte
    strings (`encode_bytes` / `decode_bytes` of the tree). A decoder returns the value and the
    bytes that follow it; the program returns the value and how many bytes it took. */
module Varint {
  import opened ByteStrings

  datatype Read<+T> = Read(value: T, rest: Bytes)

  function EncodeVar(n: nat): Bytes
  {
    if n < 128 then [n] else [128 + n % 128] + EncodeVar(n / 128)
  }

  function DecodeVar(s: Bytes): Option<Read<nat>>
  {
    if s == [] then None
    else if s[0] < 128 then Some(Read(s[0], s[1..]))
    else
      match DecodeVar(s[1..])
      case None => None
      case Some(high) => Some(Read(s[0] - 128 + 128 * high.value, high.rest))
  }

  /** Decoding into a narrower type refuses a value the type cannot hold. */
  function DecodeVarUpTo(s: Bytes, max: nat): Option<Read<nat>>
  {
    match DecodeVar(s)
    case None => None
    case Some(r) => if r.value <= max then Some(r) else None
  }

  /** Signed integers map to naturals before encoding: 0, -1, 1, -2, ... */
  function ZigZag(i: int): nat
  {
    if i >= 0 then 2 * i else -2 * i - 1
  }

  function EncodeSigned(i: int): Bytes
  {
    EncodeVar(ZigZag(i))
  }

  function EncodeBytes(b: Bytes): Bytes
  {
    EncodeVar(|b|) + b
  }

  function DecodeBytes(s: Bytes): Option<Read<Bytes>>
  {
    match DecodeVar(s)
    case None => None
    case Some(length) =>
      if length.value <= |length.rest|
      then Some(Read(length.rest[..length.value], length.rest[length.value..]))
      else None
  }

  lemma {:induction false} DecodeVarPrefix(n: nat, rest: Bytes)
    ensures DecodeVar(EncodeVar(n) + rest) == Some(Read(n, rest))
  {
    var s := EncodeVar(n) + rest;
    if n < 128 {
      assert s[0] == n && s[1..] == rest;
    } else {
      assert s[0] == 128 + n % 128;
      assert s[1..] == EncodeVar(n / 128) + rest;
      DecodeVarPrefix(n / 128, rest);
    }
  }

  lemma DecodeBytesPrefix(b: Bytes, rest: Bytes)
    ensures DecodeBytes(EncodeBytes(b) + rest) == Some(Read(b, rest))
  {
    assert EncodeBytes(b) + rest == EncodeVar(|b|) + (b + rest);
    DecodeVarPrefix(|b|, b + rest);
  }

  /** No encoding is a proper prefix of another, so concatenations split in one way. */
  lemma VarSplits(m: nat, r: Bytes, n: nat, s: Bytes)
    requires EncodeVar(m) + r == EncodeVar(n) + s
    ensures m == n && r == s
  {
    DecodeVarPrefix(m, r);
    DecodeVarPrefix(n, s);
  }

  lemma SignedSplits(i: int, r: Bytes, j: int, s: Bytes)
    requires EncodeSigned(i) + r == EncodeSigned(j) + s
    ensures i == j && r == s
  {
    VarSplits(ZigZag(i), r, ZigZag(j), s);
  }

  lemma BytesSplit(a: Bytes, r: Bytes, b: Bytes, s: Bytes)
    requires EncodeBytes(a) + r == EncodeBytes(b) + s
    ensures a == b && r == s
  {
    DecodeBytesPrefix(a, r);
    DecodeBytesPrefix(b, s);
  }
}
