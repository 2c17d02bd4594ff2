/** The node database as a finite map: nodes under their hash, root hashes under their version. */
module IavlDb {
  import opened ByteStrings
  import opened Varint
  import opened IavlNode
  import opened IavlSpec
  import opened IavlHash

  type Db = map<Bytes, Bytes>

  const ROOTS_PREFIX: Bytes := [1]
  const NODES_PREFIX: Bytes := [2]

  function RootKey(version: nat): Bytes
  {
    ROOTS_PREFIX + EncodeVar(version)
  }

  function NodeKey(hash: Hash): Bytes
  {
    NODES_PREFIX + hash
  }

  /** Absent or unreadable; every caller that needs the node panics on either. */
  function GetNode(db: Db, hash: Hash): Option<Node>
  {
    if NodeKey(hash) in db then Deserialize(db[NodeKey(hash)]) else None
  }

  /** `None` is `Error::VersionNotFound`. */
  function GetRootHash(db: Db, version: nat): Option<Hash>
  {
    if RootKey(version) in db && |db[RootKey(version)]| == 32 then Some(db[RootKey(version)]) else None
  }

  /** The version of a root record's key, the prefix stripped. */
  function VersionOf(key: Bytes): Option<nat>
  {
    if ROOTS_PREFIX <= key && DecodeVar(key[1..]).Some? then Some(DecodeVar(key[1..]).value.value) else None
  }

  /** The versions of all keys under the roots prefix. */
  function GetVersions(db: Db): set<nat>
  {
    set k | k in db && VersionOf(k).Some? :: VersionOf(k).value
  }

  lemma RootKeyDecodes(v: nat)
    ensures ROOTS_PREFIX <= RootKey(v) && VersionOf(RootKey(v)) == Some(v)
  {
    assert RootKey(v)[1..] == EncodeVar(v) == EncodeVar(v) + [];
    DecodeVarPrefix(v, []);
  }

  lemma KeysApart(version: nat, hash: Hash)
    ensures RootKey(version) != NodeKey(hash)
  {
    assert RootKey(version)[0] == 1 && NodeKey(hash)[0] == 2;
  }

  lemma RootKeysApart(v: nat, w: nat)
    requires RootKey(v) == RootKey(w)
    ensures v == w
  {
    assert EncodeVar(v) == RootKey(v)[1..] == EncodeVar(w);
    VarSplits(v, [], w, []);
  }

  lemma NodeKeysApart(a: Hash, b: Hash)
    requires NodeKey(a) == NodeKey(b)
    ensures a == b
  {
    assert a == NodeKey(a)[1..] && b == NodeKey(b)[1..];
  }

  // ---------------------------------------------------------------- trees in the database

  function Subtrees(t: Avl): set<Avl>
  {
    {t} + if t.Leaf? then {} else Subtrees(t.left) + Subtrees(t.right)
  }

  predicate Stored(H: Hasher, db: Db, s: Avl)
  {
    && NodeKey(RootHash(H, s)) in db
    && db[NodeKey(RootHash(H, s))] == Serialize(Collapse(H, s))
  }

  /** Every node of `t` is in the database under its own hash. */
  ghost predicate InDb(H: Hasher, db: Db, t: Avl)
  {
    forall s :: s in Subtrees(t) ==> Stored(H, db, s)
  }

  /** `node` with `db` behind it stands for `t`: same fields, cached hashes equal to the hashes of
      the children recomputed from scratch, and an absent child wholly in the database. */
  ghost predicate Rep(H: Hasher, db: Db, node: Node, t: Avl)
    decreases t
  {
    match t
    case Leaf(k, v, version) => node == LeafNode(k, v, version)
    case Inner(k, height, size, version, l, r) =>
      && node.InnerNode? && node.key == k && node.height == height && node.size == size && node.version == version
      && node.leftHash == RootHash(H, l) && node.rightHash == RootHash(H, r)
      && (if node.left.Some? then Rep(H, db, node.left.value, l) else InDb(H, db, l))
      && (if node.right.Some? then Rep(H, db, node.right.value, r) else InDb(H, db, r))
  }

  lemma {:induction false} SubtreesOfSubtree(t: Avl, s: Avl)
    requires s in Subtrees(t)
    ensures Subtrees(s) <= Subtrees(t)
  {
    if s != t {
      if s in Subtrees(t.left) { SubtreesOfSubtree(t.left, s); } else { SubtreesOfSubtree(t.right, s); }
    }
  }

  lemma {:induction false} SubtreeIsSound(H: Hasher, t: Avl, s: Avl)
    requires s in Subtrees(t)
    ensures Preimages(H, s) <= Preimages(H, t)
    ensures SearchTree(t) ==> SearchTree(s)
    ensures Encodable(t) ==> Encodable(s)
  {
    if s != t {
      if s in Subtrees(t.left) { SubtreeIsSound(H, t.left, s); } else { SubtreeIsSound(H, t.right, s); }
    }
  }

  /** A stored, encodable node reads back as its collapsed form, which stands for the tree. */
  lemma StoredReadsBack(H: Hasher, db: Db, t: Avl)
    requires Stored(H, db, t) && Encodable(t)
    ensures GetNode(db, RootHash(H, t)) == Some(Collapse(H, t))
  {
    SerializeRoundTrip(Collapse(H, t));
  }

  lemma LoadedStandsFor(H: Hasher, db: Db, t: Avl)
    requires InDb(H, db, t) && Encodable(t)
    ensures GetNode(db, RootHash(H, t)) == Some(Collapse(H, t))
    ensures Rep(H, db, Collapse(H, t), t)
  {
    assert t in Subtrees(t);
    StoredReadsBack(H, db, t);
  }

  /** The hash of a node is that of its tree, however much of it is loaded. */
  lemma RepHash(H: Hasher, db: Db, node: Node, t: Avl)
    requires Rep(H, db, node, t)
    ensures NodeHash(H, node) == RootHash(H, t)
    ensures node.GetHeight() == t.GetHeight() && node.GetSize() == t.GetSize() && node.key == t.key
    ensures Unlinked(node) == Collapse(H, t)
  {
    assert HashSerialize(H, node) == HashSerialize(H, Collapse(H, t));
  }

  /** What the database holds at a hash determines the tree, collisions or not. */
  lemma {:induction false} StoredTreeUnique(H: Hasher, db: Db, a: Avl, b: Avl)
    requires InDb(H, db, a) && InDb(H, db, b) && RootHash(H, a) == RootHash(H, b)
    requires Encodable(a) && Encodable(b)
    ensures a == b
  {
    LoadedStandsFor(H, db, a);
    LoadedStandsFor(H, db, b);
    assert Collapse(H, a) == Collapse(H, b);
    if a.Inner? {
      StoredTreeUnique(H, db, a.left, b.left);
      StoredTreeUnique(H, db, a.right, b.right);
    }
  }

  // ---------------------------------------------------------------- saving a tree

  /** What `recursive_tree_save` writes: the loaded nodes only, children before parents. */
  function Written(node: Node, hash: Hash): Db
  {
    (if node.InnerNode? then WrittenChild(node.left, node.leftHash) + WrittenChild(node.right, node.rightHash) else map[])
    [NodeKey(hash) := Serialize(node)]
  }

  function WrittenChild(child: Option<Node>, hash: Hash): Db
  {
    if child.Some? then Written(child.value, hash) else map[]
  }

  /** A map of nodes each under its own hash, all of them nodes of `t`. */
  ghost predicate HoldsNodesOf(H: Hasher, m: Db, t: Avl)
  {
    forall k :: k in m ==>
      exists s :: s in Subtrees(t) && k == NodeKey(RootHash(H, s)) && m[k] == Serialize(Collapse(H, s))
  }

  /** Every node of `t` is in the map `m`, or in the database already. */
  ghost predicate Covers(H: Hasher, db: Db, m: Db, t: Avl)
  {
    forall s :: s in Subtrees(t) ==> NodeKey(RootHash(H, s)) in m || Stored(H, db, s)
  }

  lemma AddNode(H: Hasher, db: Db, t: Avl, l: Db, r: Db)
    requires t.Inner? && HoldsNodesOf(H, l, t.left) && HoldsNodesOf(H, r, t.right)
    requires Covers(H, db, l, t.left) && Covers(H, db, r, t.right)
    ensures HoldsNodesOf(H, (l + r)[NodeKey(RootHash(H, t)) := Serialize(Collapse(H, t))], t)
    ensures Covers(H, db, (l + r)[NodeKey(RootHash(H, t)) := Serialize(Collapse(H, t))], t)
  {
    var self, bytes := NodeKey(RootHash(H, t)), Serialize(Collapse(H, t));
    var m := (l + r)[self := bytes];
    assert t in Subtrees(t);
    forall k | k in m
      ensures exists s :: s in Subtrees(t) && k == NodeKey(RootHash(H, s)) && m[k] == Serialize(Collapse(H, s))
    {
      if k == self {
      } else if k in r {
        var s :| s in Subtrees(t.right) && k == NodeKey(RootHash(H, s)) && r[k] == Serialize(Collapse(H, s));
        assert s in Subtrees(t);
      } else {
        var s :| s in Subtrees(t.left) && k == NodeKey(RootHash(H, s)) && l[k] == Serialize(Collapse(H, s));
        assert s in Subtrees(t);
      }
    }
  }

  /** A tree that may be stored: ordered, in range, and hashed over preimages already accounted for. */
  ghost predicate Sound(H: Hasher, t: Avl, seen: set<Bytes>)
  {
    SearchTree(t) && Encodable(t) && Preimages(H, t) <= seen
  }

  lemma SoundSubtree(H: Hasher, t: Avl, s: Avl, seen: set<Bytes>)
    requires Sound(H, t, seen) && s in Subtrees(t)
    ensures Sound(H, s, seen)
  {
    SubtreeIsSound(H, t, s);
  }

  /** Writing nodes of one tree never damages another, so long as no hashes collide. */
  lemma WritesKeepStored(H: Hasher, db: Db, w: Db, t: Avl, s: Avl, seen: set<Bytes>)
    requires NoCollisions(H, seen) && Sound(H, t, seen) && Sound(H, s, seen)
    requires HoldsNodesOf(H, w, t)
    requires Stored(H, db, s) || NodeKey(RootHash(H, s)) in w
    ensures Stored(H, db + w, s)
  {
    var k := NodeKey(RootHash(H, s));
    if k in w {
      var u :| u in Subtrees(t) && k == NodeKey(RootHash(H, u)) && w[k] == Serialize(Collapse(H, u));
      NodeKeysApart(RootHash(H, s), RootHash(H, u));
      SoundSubtree(H, t, u, seen);
      HashDetermines(H, s, u, seen);
    }
  }

  lemma WritesKeepInDb(H: Hasher, db: Db, w: Db, t: Avl, u: Avl, seen: set<Bytes>)
    requires NoCollisions(H, seen) && Sound(H, t, seen) && Sound(H, u, seen)
    requires HoldsNodesOf(H, w, t) && InDb(H, db, u)
    ensures InDb(H, db + w, u)
  {
    forall s | s in Subtrees(u) ensures Stored(H, db + w, s) {
      SoundSubtree(H, u, s, seen);
      WritesKeepStored(H, db, w, t, s, seen);
    }
  }

  /** Writing every node of a tree that the database lacks puts the whole tree there. */
  lemma WritesComplete(H: Hasher, db: Db, w: Db, t: Avl, seen: set<Bytes>)
    requires NoCollisions(H, seen) && Sound(H, t, seen)
    requires HoldsNodesOf(H, w, t) && Covers(H, db, w, t)
    ensures InDb(H, db + w, t)
  {
    forall s | s in Subtrees(t) ensures Stored(H, db + w, s) {
      SoundSubtree(H, t, s, seen);
      WritesKeepStored(H, db, w, t, s, seen);
    }
  }

  lemma RootRecordsDoNotTouchNodes(H: Hasher, db: Db, version: nat, bytes: Bytes, t: Avl)
    requires InDb(H, db, t)
    ensures InDb(H, db[RootKey(version) := bytes], t)
  {
    forall s | s in Subtrees(t) ensures Stored(H, db[RootKey(version) := bytes], s) {
      assert Stored(H, db, s);
      KeysApart(version, RootHash(H, s));
    }
  }

  /** What is written are nodes of the tree, and what is not written was there before. */
  lemma {:induction false} WrittenCovers(H: Hasher, db: Db, node: Node, t: Avl)
    requires Rep(H, db, node, t)
    ensures HoldsNodesOf(H, Written(node, RootHash(H, t)), t)
    ensures Covers(H, db, Written(node, RootHash(H, t)), t)
  {
    RepHash(H, db, node, t);
    if t.Inner? {
      if node.left.Some? { WrittenCovers(H, db, node.left.value, t.left); }
      if node.right.Some? { WrittenCovers(H, db, node.right.value, t.right); }
      AddNode(H, db, t, WrittenChild(node.left, node.leftHash), WrittenChild(node.right, node.rightHash));
    } else {
      assert t in Subtrees(t);
    }
  }
}
