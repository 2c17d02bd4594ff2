/** Nodes of the IAVL+ tree as the program holds them: values sit in leaves, an inner node caches
    the hashes of its children, and an absent child means "load it by hash from the database". */
module IavlNode {
  import opened ByteStrings
  import opened Varint

  type Hash = h: Bytes | |h| == 32 witness seq(32, _ => 0)
  type Hasher = Bytes -> Hash

  const MAX_U8: nat := 255
  const MAX_U32: nat := 0xFFFF_FFFF

  datatype Node =
    | LeafNode(key: Bytes, value: Bytes, version: nat)
    | InnerNode(left: Option<Node>, right: Option<Node>, key: Bytes, height: nat, size: nat,
                leftHash: Hash, rightHash: Hash, version: nat)
  {
    function GetHeight(): nat
    {
      if LeafNode? then 0 else height
    }

    function GetSize(): nat
    {
      if LeafNode? then 1 else size
    }
  }

  /** The bytes a node's hash is taken over; an inner node's key is not part of them, and the
      version is cut to 32 bits. */
  function HashSerialize(H: Hasher, node: Node): Bytes
  {
    match node
    case LeafNode(key, value, version) =>
      EncodeSigned(0) + EncodeSigned(1) + EncodeSigned(version % (MAX_U32 + 1))
      + EncodeBytes(key) + EncodeBytes(H(value))
    case InnerNode(_, _, _, height, size, leftHash, rightHash, version) =>
      EncodeSigned(height) + EncodeSigned(size) + EncodeSigned(version % (MAX_U32 + 1))
      + EncodeBytes(leftHash) + EncodeBytes(rightHash)
  }

  function NodeHash(H: Hasher, node: Node): Hash
  {
    H(HashSerialize(H, node))
  }

  function Serialize(node: Node): Bytes
  {
    match node
    case LeafNode(key, value, version) =>
      EncodeVar(0) + EncodeVar(1) + EncodeVar(version) + EncodeBytes(key) + EncodeBytes(value)
    case InnerNode(_, _, key, height, size, leftHash, rightHash, version) =>
      EncodeVar(height) + EncodeVar(size) + EncodeVar(version) + EncodeBytes(key)
      + EncodeBytes(leftHash) + EncodeBytes(rightHash)
  }

  datatype Header = Header(height: nat, size: nat, version: nat)

  /** The three numbers every stored node starts with. */
  function DecodeHeader(s: Bytes): Option<Read<Header>>
  {
    match DecodeVarUpTo(s, MAX_U8)
    case None => None
    case Some(height) =>
      match DecodeVarUpTo(height.rest, MAX_U32)
      case None => None
      case Some(size) =>
        match DecodeVarUpTo(size.rest, MAX_U32)
        case None => None
        case Some(version) => Some(Read(Header(height.value, size.value, version.value), version.rest))
  }

  function DecodeLeaf(key: Bytes, version: nat, s: Bytes): Option<Node>
  {
    match DecodeBytes(s)
    case None => None
    case Some(value) => Some(LeafNode(key, value.value, version))
  }

  function DecodeInner(key: Bytes, header: Header, s: Bytes): Option<Node>
  {
    match DecodeBytes(s)
    case None => None
    case Some(left) =>
      match DecodeBytes(left.rest)
      case None => None
      case Some(right) =>
        if |left.value| == 32 && |right.value| == 32
        then Some(InnerNode(None, None, key, header.height, header.size, left.value, right.value, header.version))
        else None
  }

  /** `None` stands for `Error::NodeDeserialize`. */
  function Deserialize(s: Bytes): Option<Node>
  {
    match DecodeHeader(s)
    case None => None
    case Some(header) =>
      match DecodeBytes(header.rest)
      case None => None
      case Some(key) =>
        if header.value.height == 0
        then DecodeLeaf(key.value, header.value.version, key.rest)
        else DecodeInner(key.value, header.value, key.rest)
  }

  /** The node as it comes back from the database. */
  function Unlinked(node: Node): Node
  {
    match node
    case LeafNode(_, _, _) => node
    case InnerNode(_, _, _, _, _, _, _, _) => node.(left := None, right := None)
  }

  /** The values the stored form has room for; a height of zero marks a leaf. */
  predicate Storable(node: Node)
  {
    node.version <= MAX_U32 &&
    (node.InnerNode? ==> 1 <= node.height <= MAX_U8 && node.size <= MAX_U32)
  }

  lemma DecodeHeaderOf(height: nat, size: nat, version: nat, rest: Bytes)
    requires height <= MAX_U8 && size <= MAX_U32
    ensures DecodeHeader(EncodeVar(height) + (EncodeVar(size) + (EncodeVar(version) + rest))) ==
            if version <= MAX_U32 then Some(Read(Header(height, size, version), rest)) else None
  {
    DecodeVarPrefix(height, EncodeVar(size) + (EncodeVar(version) + rest));
    DecodeVarPrefix(size, EncodeVar(version) + rest);
    DecodeVarPrefix(version, rest);
  }

  lemma DecodeBodyOf(node: Node)
    requires Storable(node)
    ensures node.LeafNode? ==>
              DecodeLeaf(node.key, node.version, EncodeBytes(node.value)) == Some(node)
    ensures node.InnerNode? ==>
              DecodeInner(node.key, Header(node.height, node.size, node.version),
                          EncodeBytes(node.leftHash) + EncodeBytes(node.rightHash)) == Some(Unlinked(node))
  {
    if node.LeafNode? {
      assert EncodeBytes(node.value) == EncodeBytes(node.value) + [];
      DecodeBytesPrefix(node.value, []);
    } else {
      assert EncodeBytes(node.rightHash) == EncodeBytes(node.rightHash) + [];
      DecodeBytesPrefix(node.leftHash, EncodeBytes(node.rightHash));
      DecodeBytesPrefix(node.rightHash, []);
    }
  }

  function Body(node: Node): Bytes
  {
    if node.LeafNode? then EncodeBytes(node.value) else EncodeBytes(node.leftHash) + EncodeBytes(node.rightHash)
  }

  lemma SerializeForm(node: Node)
    ensures Serialize(node) ==
            EncodeVar(node.GetHeight()) + (EncodeVar(node.GetSize()) + (EncodeVar(node.version) + (EncodeBytes(node.key) + Body(node))))
  {
    var a, b, c, d := EncodeVar(node.GetHeight()), EncodeVar(node.GetSize()), EncodeVar(node.version), EncodeBytes(node.key);
    if node.InnerNode? {
      var l, r := EncodeBytes(node.leftHash), EncodeBytes(node.rightHash);
      assert a + b + c + d + l + r == a + (b + (c + (d + (l + r))));
    } else {
      var v := EncodeBytes(node.value);
      assert a + b + c + d + v == a + (b + (c + (d + v)));
    }
  }

  /** Reading back what was stored gives the node with its children cleared, and the only thing
      that can go wrong is a version that needs more than 32 bits. */
  lemma SerializeRoundTrip(node: Node)
    requires Storable(node.(version := 0))
    ensures Deserialize(Serialize(node)) ==
            if node.version <= MAX_U32 then Some(Unlinked(node)) else None
  {
    SerializeForm(node);
    DecodeHeaderOf(node.GetHeight(), node.GetSize(), node.version, EncodeBytes(node.key) + Body(node));
    DecodeBytesPrefix(node.key, Body(node));
    if node.version <= MAX_U32 {
      DecodeBodyOf(node);
    }
  }

  /** Equal leaf preimages name the same key, the same value hash, and the same cut version. */
  lemma LeafPreimage(H: Hasher, a: Node, b: Node)
    requires a.LeafNode? && b.LeafNode? && HashSerialize(H, a) == HashSerialize(H, b)
    ensures a.key == b.key && H(a.value) == H(b.value)
    ensures a.version % (MAX_U32 + 1) == b.version % (MAX_U32 + 1)
  {
    hide EncodeVar;
    var va, vb := a.version % (MAX_U32 + 1), b.version % (MAX_U32 + 1);
    var ra, rb := EncodeBytes(a.key) + EncodeBytes(H(a.value)), EncodeBytes(b.key) + EncodeBytes(H(b.value));
    HeaderSplits(0, 1, va, ra, 0, 1, vb, rb, HashSerialize(H, a));
    BytesSplit(a.key, EncodeBytes(H(a.value)), b.key, EncodeBytes(H(b.value)));
    BytesSplit(H(a.value), [], H(b.value), []);
  }

  lemma InnerPreimage(H: Hasher, a: Node, b: Node)
    requires a.InnerNode? && b.InnerNode? && HashSerialize(H, a) == HashSerialize(H, b)
    ensures a.height == b.height && a.size == b.size
    ensures a.leftHash == b.leftHash && a.rightHash == b.rightHash
    ensures a.version % (MAX_U32 + 1) == b.version % (MAX_U32 + 1)
  {
    var va, vb := a.version % (MAX_U32 + 1), b.version % (MAX_U32 + 1);
    var ra, rb := EncodeBytes(a.leftHash) + EncodeBytes(a.rightHash), EncodeBytes(b.leftHash) + EncodeBytes(b.rightHash);
    HeaderSplits(a.height, a.size, va, ra, b.height, b.size, vb, rb, HashSerialize(H, a));
    BytesSplit(a.leftHash, EncodeBytes(a.rightHash), b.leftHash, EncodeBytes(b.rightHash));
    BytesSplit(a.rightHash, [], b.rightHash, []);
  }

  /** A leaf and an inner node are never hashed over the same bytes. */
  lemma PreimageKinds(H: Hasher, a: Node, b: Node)
    requires a.LeafNode? && b.InnerNode? && b.height >= 1
    ensures HashSerialize(H, a) != HashSerialize(H, b)
  {
    if HashSerialize(H, a) == HashSerialize(H, b) {
      var va, vb := a.version % (MAX_U32 + 1), b.version % (MAX_U32 + 1);
      HeaderSplits(0, 1, va, EncodeBytes(a.key) + EncodeBytes(H(a.value)),
                   b.height, b.size, vb, EncodeBytes(b.leftHash) + EncodeBytes(b.rightHash), HashSerialize(H, a));
    }
  }

  lemma HeaderSplits(h1: nat, s1: nat, v1: nat, r1: Bytes, h2: nat, s2: nat, v2: nat, r2: Bytes, whole: Bytes)
    requires whole == EncodeSigned(h1) + EncodeSigned(s1) + EncodeSigned(v1) + r1
    requires whole == EncodeSigned(h2) + EncodeSigned(s2) + EncodeSigned(v2) + r2
    ensures h1 == h2 && s1 == s2 && v1 == v2 && r1 == r2
  {
    assert whole == EncodeSigned(h1) + (EncodeSigned(s1) + (EncodeSigned(v1) + r1));
    assert whole == EncodeSigned(h2) + (EncodeSigned(s2) + (EncodeSigned(v2) + r2));
    SignedSplits(h1, EncodeSigned(s1) + (EncodeSigned(v1) + r1), h2, EncodeSigned(s2) + (EncodeSigned(v2) + r2));
    SignedSplits(s1, EncodeSigned(v1) + r1, s2, EncodeSigned(v2) + r2);
    SignedSplits(v1, r1, v2, r2);
  }
}
