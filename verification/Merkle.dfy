/** The Merkle tree over a list of byte strings, as in section 2.1 of RFC 6962. */
module Merkle {
  import opened ByteStrings
  import opened IavlNode
  import opened IavlHash

  const LEAF_PREFIX: Bytes := [0]
  const INNER_PREFIX: Bytes := [1]

  /** 2 to the power `n`, a left shift of one. */
  function Shift(n: nat): nat
  {
    if n == 0 then 1 else 2 * Shift(n - 1)
  }

  function Ilog2(n: nat): nat
    requires n >= 1
  {
    if n == 1 then 0 else 1 + Ilog2(n / 2)
  }

  /** Where a list of `n` items is split; zero items is a panic. */
  function SplitPoint(n: nat): nat
    requires n >= 1
  {
    var k := Shift(Ilog2(n));
    if k == n then k / 2 else k
  }

  lemma {:induction false} ShiftOfLog(n: nat)
    requires n >= 1
    ensures Shift(Ilog2(n)) <= n < 2 * Shift(Ilog2(n))
  {
    if n > 1 { ShiftOfLog(n / 2); }
  }

  /** The split is the largest power of two below the length. */
  lemma SplitPointExact(n: nat)
    requires n >= 2
    ensures exists e :: SplitPoint(n) == Shift(e)
    ensures SplitPoint(n) < n <= 2 * SplitPoint(n)
  {
    ShiftOfLog(n);
    var e := Ilog2(n);
    if Shift(e) == n {
      assert Shift(e) == 2 * Shift(e - 1);
      assert SplitPoint(n) == Shift(e - 1);
    } else {
      assert SplitPoint(n) == Shift(e);
    }
  }

  function LeafHash(H: Hasher, leaf: Bytes): Hash
  {
    H(LEAF_PREFIX + leaf)
  }

  function InnerHash(H: Hasher, left: Hash, right: Hash): Hash
  {
    H(INNER_PREFIX + left + right)
  }

  function MerkleRoot(H: Hasher, items: seq<Bytes>): Hash
    decreases |items|
  {
    if |items| == 0 then H([])
    else if |items| == 1 then LeafHash(H, items[0])
    else
      SplitPointExact(|items|);
      var k := SplitPoint(|items|);
      InnerHash(H, MerkleRoot(H, items[..k]), MerkleRoot(H, items[k..]))
  }

  /** What the root hash is taken over. */
  function TopPreimage(H: Hasher, items: seq<Bytes>): Bytes
    decreases |items|
  {
    if |items| == 0 then []
    else if |items| == 1 then LEAF_PREFIX + items[0]
    else
      SplitPointExact(|items|);
      var k := SplitPoint(|items|);
      INNER_PREFIX + MerkleRoot(H, items[..k]) + MerkleRoot(H, items[k..])
  }

  function MerklePreimages(H: Hasher, items: seq<Bytes>): set<Bytes>
    decreases |items|
  {
    {TopPreimage(H, items)} +
    if |items| <= 1 then {}
    else
      SplitPointExact(|items|);
      MerklePreimages(H, items[..SplitPoint(|items|)]) + MerklePreimages(H, items[SplitPoint(|items|)..])
  }

  lemma RootIsTopHash(H: Hasher, items: seq<Bytes>)
    ensures MerkleRoot(H, items) == H(TopPreimage(H, items))
  {
  }

  lemma InnerSplits(a: Hash, b: Hash, c: Hash, d: Hash)
    requires INNER_PREFIX + a + b == INNER_PREFIX + c + d
    ensures a == c && b == d
  {
    assert a == (INNER_PREFIX + a + b)[1..33] && c == (INNER_PREFIX + c + d)[1..33];
    assert b == (INNER_PREFIX + a + b)[33..] && d == (INNER_PREFIX + c + d)[33..];
  }

  /** Equal roots mean equal lists, lengths included, or a collision among what was hashed. */
  lemma {:induction false} MerkleBinding(H: Hasher, a: seq<Bytes>, b: seq<Bytes>)
    requires MerkleRoot(H, a) == MerkleRoot(H, b)
    ensures a == b || Collide(H, MerklePreimages(H, a), MerklePreimages(H, b))
    decreases |a|
  {
    RootIsTopHash(H, a);
    RootIsTopHash(H, b);
    var x, y := TopPreimage(H, a), TopPreimage(H, b);
    if x != y {
      assert Collision(H, x, y);
    } else if |a| >= 2 && |b| >= 2 {
      SplitPointExact(|a|);
      SplitPointExact(|b|);
      var k, m := SplitPoint(|a|), SplitPoint(|b|);
      InnerSplits(MerkleRoot(H, a[..k]), MerkleRoot(H, a[k..]), MerkleRoot(H, b[..m]), MerkleRoot(H, b[m..]));
      MerkleBinding(H, a[..k], b[..m]);
      MerkleBinding(H, a[k..], b[m..]);
      if a[..k] == b[..m] && a[k..] == b[m..] {
        assert a == a[..k] + a[k..] && b == b[..m] + b[m..];
      } else if a[..k] != b[..m] {
        CollideWider(H, MerklePreimages(H, a[..k]), MerklePreimages(H, b[..m]), MerklePreimages(H, a), MerklePreimages(H, b));
      } else {
        CollideWider(H, MerklePreimages(H, a[k..]), MerklePreimages(H, b[m..]), MerklePreimages(H, a), MerklePreimages(H, b));
      }
    } else {
      SmallListsDiffer(H, a, b);
    }
  }

  /** Lists of fewer than two items are told apart by the first byte hashed. */
  lemma SmallListsDiffer(H: Hasher, a: seq<Bytes>, b: seq<Bytes>)
    requires TopPreimage(H, a) == TopPreimage(H, b) && (|a| < 2 || |b| < 2)
    ensures a == b
  {
    var x, y := TopPreimage(H, a), TopPreimage(H, b);
    TopByte(H, a);
    TopByte(H, b);
    if |a| == 1 && |b| == 1 {
      assert x[1..] == a[0] && y[1..] == b[0];
      assert a == [a[0]] && b == [b[0]];
    }
  }

  lemma TopByte(H: Hasher, items: seq<Bytes>)
    ensures TopPreimage(H, items) == [] <==> items == []
    ensures |items| == 1 ==> TopPreimage(H, items)[0] == 0
    ensures |items| >= 2 ==> TopPreimage(H, items)[0] == 1
  {
  }

  // ---------------------------------------------------------------- audit paths

  /** The root of the half beside, and on which side it is. */
  datatype Beside = OnLeft(hash: Hash) | OnRight(hash: Hash)

  /** What is beside the `i`th item, from its leaf up. */
  function AuditPath(H: Hasher, items: seq<Bytes>, i: nat): seq<Beside>
    requires i < |items|
    decreases |items|
  {
    if |items| == 1 then []
    else
      SplitPointExact(|items|);
      var k := SplitPoint(|items|);
      if i < k then AuditPath(H, items[..k], i) + [OnRight(MerkleRoot(H, items[k..]))]
      else AuditPath(H, items[k..], i - k) + [OnLeft(MerkleRoot(H, items[..k]))]
  }

  /** A hash folded with what is beside it, left before right, behind a one. */
  function Folded(H: Hasher, hash: Hash, path: seq<Beside>): Hash
  {
    if path == [] then hash
    else
      var below, last := Folded(H, hash, path[..|path| - 1]), path[|path| - 1];
      if last.OnLeft? then H([1] + last.hash + below) else H([1] + below + last.hash)
  }

  /** Every item, behind a zero, folds along its audit path to the root. */
  lemma {:induction false} AuditFolds(H: Hasher, items: seq<Bytes>, i: nat)
    requires i < |items|
    ensures Folded(H, H([0] + items[i]), AuditPath(H, items, i)) == MerkleRoot(H, items)
    decreases |items|
  {
    if |items| > 1 {
      SplitPointExact(|items|);
      var k := SplitPoint(|items|);
      var path := AuditPath(H, items, i);
      if i < k {
        AuditFolds(H, items[..k], i);
        assert path[..|path| - 1] == AuditPath(H, items[..k], i);
      } else {
        AuditFolds(H, items[k..], i - k);
        assert path[..|path| - 1] == AuditPath(H, items[k..], i - k);
      }
    }
  }
}
