/** Hashes of whole trees, recomputed bottom-up, and what an equal root hash tells. */
module IavlHash {
  import opened ByteStrings
  import opened IavlNode
  import opened IavlSpec

  /** The node that stands for `t` in the database: children absent, their hashes recomputed. */
  function Collapse(H: Hasher, t: Avl): Node
    decreases t, 0
  {
    match t
    case Leaf(k, v, version) => LeafNode(k, v, version)
    case Inner(k, height, size, version, l, r) =>
      InnerNode(None, None, k, height, size, RootHash(H, l), RootHash(H, r), version)
  }

  function RootHash(H: Hasher, t: Avl): Hash
    decreases t, 1
  {
    NodeHash(H, Collapse(H, t))
  }

  /** Everything hashed when the root hash of `t` is computed from scratch. */
  function Preimages(H: Hasher, t: Avl): set<Bytes>
  {
    {HashSerialize(H, Collapse(H, t))} +
    if t.Leaf? then {t.value} else Preimages(H, t.left) + Preimages(H, t.right)
  }

  predicate Collision(H: Hasher, x: Bytes, y: Bytes)
  {
    x != y && H(x) == H(y)
  }

  ghost predicate Collide(H: Hasher, a: set<Bytes>, b: set<Bytes>)
  {
    exists x, y :: x in a && y in b && Collision(H, x, y)
  }

  ghost predicate NoCollisions(H: Hasher, seen: set<Bytes>)
  {
    forall x, y :: x in seen && y in seen ==> !Collision(H, x, y)
  }

  predicate HeightsPositive(t: Avl)
  {
    t.Inner? ==> t.height >= 1 && HeightsPositive(t.left) && HeightsPositive(t.right)
  }

  /** Equal trees, up to the part of a version the hash does not see. */
  predicate Twins(a: Avl, b: Avl)
  {
    && a.key == b.key && a.version % (MAX_U32 + 1) == b.version % (MAX_U32 + 1)
    && (a.Leaf? ==> b.Leaf? && a.value == b.value)
    && (a.Inner? ==> b.Inner? && a.height == b.height && a.size == b.size
                     && Twins(a.left, b.left) && Twins(a.right, b.right))
  }

  lemma {:induction false} TwinsReadAlike(a: Avl, b: Avl)
    requires Twins(a, b)
    ensures Contents(a) == Contents(b) && Entries(a) == Entries(b) && FirstKey(a) == FirstKey(b)
  {
    if a.Inner? {
      TwinsReadAlike(a.left, b.left);
      TwinsReadAlike(a.right, b.right);
    }
  }

  lemma {:induction false} EncodableTwinsEqual(a: Avl, b: Avl)
    requires Twins(a, b) && Encodable(a) && Encodable(b)
    ensures a == b
  {
    if a.Inner? {
      EncodableTwinsEqual(a.left, b.left);
      EncodableTwinsEqual(a.right, b.right);
    }
  }

  lemma {:induction false} FirstKeyIsLeast(t: Avl)
    requires SearchTree(t)
    ensures forall k :: k in Contents(t) ==> AtMost(FirstKey(t), k)
  {
    if t.Leaf? {
      LessIrreflexive(t.key);
    } else {
      FirstKeyIsLeast(t.left);
      forall k | k in Contents(t) ensures AtMost(FirstKey(t), k) {
        if k in Contents(t.right) && Less(k, FirstKey(t)) {
          LessTransitive(k, FirstKey(t), t.key);
        }
      }
    }
  }

  /** A separator need not be hashed: it can be read off the right subtree. */
  lemma SeparatorIsFirstKey(t: Avl)
    requires SearchTree(t) && t.Inner?
    ensures t.key == FirstKey(t.right)
  {
    FirstKeyIsLeast(t.right);
    LessTotal(t.key, FirstKey(t.right));
  }

  lemma CollideWider(H: Hasher, a: set<Bytes>, b: set<Bytes>, a': set<Bytes>, b': set<Bytes>)
    requires Collide(H, a, b) && a <= a' && b <= b'
    ensures Collide(H, a', b')
  {
  }

  /** Two search trees with one root hash hold the same map, or two distinct byte strings with the
      same hash are among those hashed for them. */
  lemma {:induction false} RootBinding(H: Hasher, a: Avl, b: Avl)
    requires RootHash(H, a) == RootHash(H, b)
    requires SearchTree(a) && SearchTree(b) && HeightsPositive(a) && HeightsPositive(b)
    ensures (Twins(a, b) && Contents(a) == Contents(b)) || Collide(H, Preimages(H, a), Preimages(H, b))
  {
    var x, y := HashSerialize(H, Collapse(H, a)), HashSerialize(H, Collapse(H, b));
    if x != y {
      assert Collision(H, x, y);
    } else if a.Leaf? && b.Leaf? {
      LeafPreimage(H, Collapse(H, a), Collapse(H, b));
      if a.value != b.value { assert Collision(H, a.value, b.value); }
    } else if a.Inner? && b.Inner? {
      InnerPreimage(H, Collapse(H, a), Collapse(H, b));
      RootBinding(H, a.left, b.left);
      RootBinding(H, a.right, b.right);
      if Twins(a.left, b.left) && Twins(a.right, b.right) {
        SeparatorIsFirstKey(a);
        SeparatorIsFirstKey(b);
        TwinsReadAlike(a.right, b.right);
        TwinsReadAlike(a, b);
      } else if !Twins(a.left, b.left) {
        CollideWider(H, Preimages(H, a.left), Preimages(H, b.left), Preimages(H, a), Preimages(H, b));
      } else {
        CollideWider(H, Preimages(H, a.right), Preimages(H, b.right), Preimages(H, a), Preimages(H, b));
      }
    } else if a.Leaf? {
      PreimageKinds(H, Collapse(H, a), Collapse(H, b));
    } else {
      PreimageKinds(H, Collapse(H, b), Collapse(H, a));
    }
  }

  lemma {:induction false} EncodableHeightsPositive(t: Avl)
    requires Encodable(t)
    ensures HeightsPositive(t)
  {
    if t.Inner? {
      EncodableHeightsPositive(t.left);
      EncodableHeightsPositive(t.right);
    }
  }

  /** Without collisions the root hash determines the tree. */
  lemma HashDetermines(H: Hasher, a: Avl, b: Avl, seen: set<Bytes>)
    requires RootHash(H, a) == RootHash(H, b)
    requires SearchTree(a) && SearchTree(b) && Encodable(a) && Encodable(b)
    requires NoCollisions(H, seen) && Preimages(H, a) <= seen && Preimages(H, b) <= seen
    ensures a == b
  {
    EncodableHeightsPositive(a);
    EncodableHeightsPositive(b);
    RootBinding(H, a, b);
    EncodableTwinsEqual(a, b);
  }
}
