/** The bytes of nodes as another reader would take them apart: numbers in groups of seven bits, then strings
    behind their lengths. */
module IavlFormat {
  import opened ByteStrings
  import opened Varint
  import opened IavlNode

  // ---------------------------------------------------------------- numbers

  function Power128(n: nat): nat
  {
    if n == 0 then 1 else Power128(n - 1) * 128
  }

  /** The low seven bits of every byte, the first counting least. */
  function LittleEndian(s: Bytes): nat
  {
    if s == [] then 0
    else var n := |s| - 1; LittleEndian(s[..n]) + s[n] % 128 * Power128(n)
  }

  lemma {:induction false} LowestFirst(b: Byte, s: Bytes)
    ensures LittleEndian([b] + s) == b % 128 + 128 * LittleEndian(s)
  {
    if s == [] {
      assert LittleEndian([]) == 0 && ([b] + s)[..0] == [];
      assert Power128(0) == 1;
    } else {
      var n := |s| - 1;
      assert ([b] + s)[..n + 1] == [b] + s[..n];
      LowestFirst(b, s[..n]);
      assert Power128(n + 1) == Power128(n) * 128;
      Regrouped(s[n] % 128, Power128(n));
    }
  }

  lemma Regrouped(d: nat, p: nat)
    ensures d * (p * 128) == 128 * (d * p)
  {
  }

  /** A number is its seven-bit groups, lowest first; the high bit says that more follow, and none too many do. */
  lemma {:induction false} VarIsLittleEndian(n: nat)
    ensures var s := EncodeVar(n);
            && s != [] && LittleEndian(s) == n
            && (forall i :: 0 <= i < |s| ==> (s[i] >= 128 <==> i + 1 < |s|))
            && (|s| > 1 ==> s[|s| - 1] > 0)
  {
    if n < 128 {
      LowestFirst(n, []);
      assert [n] + [] == [n];
    } else {
      VarIsLittleEndian(n / 128);
      LowestFirst(128 + n % 128, EncodeVar(n / 128));
    }
  }

  // ---------------------------------------------------------------- fields

  /** Three numbers, and strings to the end. */
  datatype Fields = Fields(numbers: seq<nat>, strings: seq<Bytes>)

  function ReadStrings(s: Bytes): Option<seq<Bytes>>
    decreases |s|
  {
    if s == [] then Some([])
    else
      match DecodeBytes(s)
      case None => None
      case Some(first) =>
        if |first.rest| >= |s| then None
        else
          match ReadStrings(first.rest)
          case None => None
          case Some(more) => Some([first.value] + more)
  }

  function ReadFields(s: Bytes): Option<Fields>
  {
    match DecodeVar(s)
    case None => None
    case Some(a) =>
      match DecodeVar(a.rest)
      case None => None
      case Some(b) =>
        match DecodeVar(b.rest)
        case None => None
        case Some(c) =>
          match ReadStrings(c.rest)
          case None => None
          case Some(strings) => Some(Fields([a.value, b.value, c.value], strings))
  }

  lemma {:induction false} StringRead(b: Bytes, s: Bytes, more: seq<Bytes>)
    requires ReadStrings(s) == Some(more)
    ensures ReadStrings(EncodeBytes(b) + s) == Some([b] + more)
  {
    hide EncodeVar;
    VarIsLittleEndian(|b|);
    DecodeBytesPrefix(b, s);
  }

  lemma NumbersRead(a: nat, b: nat, c: nat, s: Bytes, strings: seq<Bytes>)
    requires ReadStrings(s) == Some(strings)
    ensures ReadFields(EncodeVar(a) + (EncodeVar(b) + (EncodeVar(c) + s))) == Some(Fields([a, b, c], strings))
  {
    DecodeVarPrefix(a, EncodeVar(b) + (EncodeVar(c) + s));
    DecodeVarPrefix(b, EncodeVar(c) + s);
    DecodeVarPrefix(c, s);
  }

  lemma Nested(a: Bytes, b: Bytes, c: Bytes, d: Bytes, e: Bytes, f: Bytes)
    ensures a + b + c + d + e == a + (b + (c + (d + e)))
    ensures a + b + c + d + e + f == a + (b + (c + (d + e + f)))
  {
  }

  lemma NoStrings()
    ensures ReadStrings([]) == Some([])
  {
  }

  lemma TwoStrings(a: Bytes, b: Bytes)
    ensures ReadStrings(EncodeBytes(a) + EncodeBytes(b)) == Some([a, b])
  {
    hide EncodeBytes, ReadStrings;
    NoStrings();
    StringRead(b, [], []);
    assert EncodeBytes(b) + [] == EncodeBytes(b) && [b] + [] == [b];
    StringRead(a, EncodeBytes(b), [b]);
    assert [a] + [b] == [a, b];
  }

  lemma ThreeStrings(a: Bytes, b: Bytes, c: Bytes)
    ensures ReadStrings(EncodeBytes(a) + EncodeBytes(b) + EncodeBytes(c)) == Some([a, b, c])
  {
    hide EncodeBytes, ReadStrings;
    TwoStrings(b, c);
    StringRead(a, EncodeBytes(b) + EncodeBytes(c), [b, c]);
    assert EncodeBytes(a) + EncodeBytes(b) + EncodeBytes(c) == EncodeBytes(a) + (EncodeBytes(b) + EncodeBytes(c));
    assert [a] + [b, c] == [a, b, c];
  }

  /** A stored leaf is height 0, size 1 and its version, then key and value; a stored inner node its measures
      and version, then key, left hash and right hash. */
  lemma SerializeFields(node: Node)
    ensures ReadFields(Serialize(node)) ==
            match node
            case LeafNode(key, value, version) => Some(Fields([0, 1, version], [key, value]))
            case InnerNode(_, _, key, height, size, leftHash, rightHash, version) =>
              Some(Fields([height, size, version], [key, leftHash, rightHash]))
  {
    hide EncodeVar, EncodeBytes, ReadFields, ReadStrings;
    match node
    case LeafNode(key, value, version) =>
      TwoStrings(key, value);
      NumbersRead(0, 1, version, EncodeBytes(key) + EncodeBytes(value), [key, value]);
      Nested(EncodeVar(0), EncodeVar(1), EncodeVar(version), EncodeBytes(key), EncodeBytes(value), []);
    case InnerNode(_, _, key, height, size, leftHash, rightHash, version) =>
      ThreeStrings(key, leftHash, rightHash);
      NumbersRead(height, size, version, EncodeBytes(key) + EncodeBytes(leftHash) + EncodeBytes(rightHash), [key, leftHash, rightHash]);
      Nested(EncodeVar(height), EncodeVar(size), EncodeVar(version), EncodeBytes(key), EncodeBytes(leftHash), EncodeBytes(rightHash));
  }

  /** What is hashed of a leaf is 0, 1 and its version, each doubled, then the key and the hash of the value; of
      an inner node its measures and version, doubled, then the left hash and the right hash. */
  lemma PreimageFields(H: Hasher, node: Node)
    ensures var doubled := 2 * (node.version % (MAX_U32 + 1));
            ReadFields(HashSerialize(H, node)) ==
            match node
            case LeafNode(key, value, _) => Some(Fields([0, 2, doubled], [key, H(value)]))
            case InnerNode(_, _, _, height, size, leftHash, rightHash, _) =>
              Some(Fields([2 * height, 2 * size, doubled], [leftHash, rightHash]))
  {
    hide EncodeVar, EncodeBytes, ReadFields, ReadStrings;
    var version := 2 * (node.version % (MAX_U32 + 1));
    match node
    case LeafNode(key, value, _) =>
      TwoStrings(key, H(value));
      NumbersRead(0, 2, version, EncodeBytes(key) + EncodeBytes(H(value)), [key, H(value)]);
      Nested(EncodeVar(0), EncodeVar(2), EncodeVar(version), EncodeBytes(key), EncodeBytes(H(value)), []);
    case InnerNode(_, _, _, height, size, leftHash, rightHash, _) =>
      TwoStrings(leftHash, rightHash);
      NumbersRead(2 * height, 2 * size, version, EncodeBytes(leftHash) + EncodeBytes(rightHash), [leftHash, rightHash]);
      Nested(EncodeVar(2 * height), EncodeVar(2 * size), EncodeVar(version), EncodeBytes(leftHash), EncodeBytes(rightHash), []);
  }
}
