/** Rotations on nodes, with their cached hashes and absent children, against rotations on trees. */
module IavlRotate {
  import opened ByteStrings
  import opened IavlNode
  import opened IavlSpec
  import opened IavlHash
  import opened IavlDb

  /** A rotation moves one subtree under a new parent and then reads that subtree's measures. If the
      subtree is absent it is read by the hash its new slot holds at that moment: the hash of what
      was there before (`SlotHash`, as written), or its own, if that is installed first (`OwnHash`). */
  datatype MovedLookup = SlotHash | OwnHash

  /** `get_left_node`; `None` is a panic. */
  function LeftOf(db: Db, node: Node): Option<Node>
    requires node.InnerNode?
  {
    if node.left.Some? then node.left else GetNode(db, node.leftHash)
  }

  function RightOf(db: Db, node: Node): Option<Node>
    requires node.InnerNode?
  {
    if node.right.Some? then node.right else GetNode(db, node.rightHash)
  }

  /** Height, size and version as every insertion and rotation updates them; `None` is a missing
      child or an overflow. */
  function Remeasure(db: Db, node: Node, version: nat): Option<Node>
    requires node.InnerNode?
  {
    var l, r := LeftOf(db, node), RightOf(db, node);
    if l.None? || r.None? then None
    else
      var height := 1 + Max(l.value.GetHeight(), r.value.GetHeight());
      var size := l.value.GetSize() + r.value.GetSize();
      if height <= MAX_U8 && size <= MAX_U32
      then Some(node.(height := height, size := size, version := version))
      else None
  }

  /** The node that moves down, with the moved subtree in its new slot. */
  function RightLower(order: MovedLookup, db: Db, node: Node, y: Node, version: nat): Option<Node>
    requires node.InnerNode? && y.InnerNode?
  {
    match Remeasure(db, node.(left := y.right, leftHash := if order.OwnHash? then y.rightHash else node.leftHash), version)
    case None => None
    case Some(z) => Some(z.(leftHash := y.rightHash))
  }

  function LeftLower(order: MovedLookup, db: Db, node: Node, y: Node, version: nat): Option<Node>
    requires node.InnerNode? && y.InnerNode?
  {
    match Remeasure(db, node.(right := y.left, rightHash := if order.OwnHash? then y.leftHash else node.rightHash), version)
    case None => None
    case Some(z) => Some(z.(rightHash := y.leftHash))
  }

  /** The node that moves up, over the one that moved down. */
  function RightUpper(H: Hasher, db: Db, y: Node, lower: Node, version: nat): Option<Node>
    requires y.InnerNode?
  {
    Remeasure(db, y.(right := Some(lower), rightHash := NodeHash(H, lower)), version)
  }

  function LeftUpper(H: Hasher, db: Db, y: Node, lower: Node, version: nat): Option<Node>
    requires y.InnerNode?
  {
    Remeasure(db, y.(left := Some(lower), leftHash := NodeHash(H, lower)), version)
  }

  function RightRotateNode(H: Hasher, order: MovedLookup, db: Db, node: Node, version: nat): Option<Node>
  {
    if node.LeafNode? || LeftOf(db, node).None? || LeftOf(db, node).value.LeafNode? then None
    else
      var y := LeftOf(db, node).value;
      match RightLower(order, db, node, y, version)
      case None => None
      case Some(lower) => RightUpper(H, db, y, lower, version)
  }

  function LeftRotateNode(H: Hasher, order: MovedLookup, db: Db, node: Node, version: nat): Option<Node>
  {
    if node.LeafNode? || RightOf(db, node).None? || RightOf(db, node).value.LeafNode? then None
    else
      var y := RightOf(db, node).value;
      match LeftLower(order, db, node, y, version)
      case None => None
      case Some(lower) => LeftUpper(H, db, y, lower, version)
  }

  // ---------------------------------------------------------------- the rotations, step by step

  method RightRotate(H: Hasher, order: MovedLookup, db: Db, node: Node, version: nat) returns (r: Option<Node>)
    ensures r == RightRotateNode(H, order, db, node, version)
  {
    if node.LeafNode? {
      return None;
    }
    var z := node;
    var taken := LeftOf(db, z);
    if taken.None? || taken.value.LeafNode? {
      return None;
    }
    var y := taken.value;
    z := z.(left := y.right);
    if order.OwnHash? {
      z := z.(leftHash := y.rightHash);
    }
    var measured := Remeasure(db, z, version);
    if measured.None? {
      return None;
    }
    z := measured.value.(leftHash := y.rightHash);
    y := y.(rightHash := NodeHash(H, z));
    y := y.(right := Some(z));
    r := Remeasure(db, y, version);
  }

  method LeftRotate(H: Hasher, order: MovedLookup, db: Db, node: Node, version: nat) returns (r: Option<Node>)
    ensures r == LeftRotateNode(H, order, db, node, version)
  {
    if node.LeafNode? {
      return None;
    }
    var z := node;
    var taken := RightOf(db, z);
    if taken.None? || taken.value.LeafNode? {
      return None;
    }
    var y := taken.value;
    z := z.(right := y.left);
    if order.OwnHash? {
      z := z.(rightHash := y.leftHash);
    }
    var measured := Remeasure(db, z, version);
    if measured.None? {
      return None;
    }
    z := measured.value.(rightHash := y.leftHash);
    y := y.(leftHash := NodeHash(H, z));
    y := y.(left := Some(z));
    r := Remeasure(db, y, version);
  }

  // ---------------------------------------------------------------- what they stand for

  /** One child slot stands for `t`: the child is loaded, or it is in the database under the hash
      the slot caches. The cached hash of a loaded child may be out of date. */
  ghost predicate SlotRep(H: Hasher, db: Db, child: Option<Node>, hash: Hash, t: Avl)
  {
    if child.Some? then Rep(H, db, child.value, t) else hash == RootHash(H, t) && InDb(H, db, t)
  }

  /** As `Rep`, except that cached hashes of loaded children may be out of date. */
  ghost predicate LooseRep(H: Hasher, db: Db, node: Node, t: Avl)
  {
    && node.InnerNode? && t.Inner?
    && node.key == t.key && node.height == t.height && node.size == t.size && node.version == t.version
    && SlotRep(H, db, node.left, node.leftHash, t.left)
    && SlotRep(H, db, node.right, node.rightHash, t.right)
  }

  lemma RepIsLoose(H: Hasher, db: Db, node: Node, t: Avl)
    ensures t.Inner? ==>
              (Rep(H, db, node, t) <==>
               LooseRep(H, db, node, t) && node.leftHash == RootHash(H, t.left) && node.rightHash == RootHash(H, t.right))
  {
  }

  lemma SlotReads(H: Hasher, db: Db, child: Option<Node>, hash: Hash, t: Avl)
    requires SlotRep(H, db, child, hash, t) && Encodable(t)
    ensures var n := if child.Some? then child else GetNode(db, hash);
            n.Some? && Rep(H, db, n.value, t) && NodeHash(H, n.value) == RootHash(H, t)
            && n.value.GetHeight() == t.GetHeight() && n.value.GetSize() == t.GetSize() && n.value.key == t.key
            && (n.value.LeafNode? <==> t.Leaf?)
  {
    if child.None? { LoadedStandsFor(H, db, t); }
    RepHash(H, db, if child.Some? then child.value else GetNode(db, hash).value, t);
  }

  /** New measures over slots that stand for `l` and `r` are those of the joined tree. */
  lemma RemeasureJoins(H: Hasher, db: Db, node: Node, version: nat, l: Avl, r: Avl)
    requires node.InnerNode?
    requires SlotRep(H, db, node.left, node.leftHash, l) && Encodable(l)
    requires SlotRep(H, db, node.right, node.rightHash, r) && Encodable(r)
    ensures Remeasure(db, node, version).Some? <==> Join(node.key, version, l, r).Some?
    ensures Remeasure(db, node, version).Some? ==>
              LooseRep(H, db, Remeasure(db, node, version).value, Join(node.key, version, l, r).value)
  {
    hide IavlDb.GetNode, IavlDb.Rep, IavlHash.RootHash, IavlDb.InDb, IavlSpec.Encodable;
    SlotReads(H, db, node.left, node.leftHash, l);
    SlotReads(H, db, node.right, node.rightHash, r);
  }

  /** The subtree a right rotation moves is loaded. */
  predicate RightMoverLoaded(db: Db, node: Node)
    requires node.InnerNode?
  {
    var y := LeftOf(db, node);
    y.Some? && y.value.InnerNode? ==> y.value.right.Some?
  }

  predicate LeftMoverLoaded(db: Db, node: Node)
    requires node.InnerNode?
  {
    var y := RightOf(db, node);
    y.Some? && y.value.InnerNode? ==> y.value.left.Some?
  }

  /** Ready for a right rotation: only the hash cached for the left child may be out of date. */
  ghost predicate CanRotateRight(H: Hasher, db: Db, node: Node, t: Avl, version: nat)
  {
    && LooseRep(H, db, node, t) && node.rightHash == RootHash(H, t.right)
    && Encodable(t.left) && Encodable(t.right) && version <= MAX_U32
  }

  ghost predicate CanRotateLeft(H: Hasher, db: Db, node: Node, t: Avl, version: nat)
  {
    && LooseRep(H, db, node, t) && node.leftHash == RootHash(H, t.left)
    && Encodable(t.left) && Encodable(t.right) && version <= MAX_U32
  }

  /** `r` stands for `s`, or both are a panic. */
  ghost predicate Refines(H: Hasher, db: Db, r: Option<Node>, s: Option<Avl>)
  {
    (r.Some? <==> s.Some?) && (r.Some? ==> Rep(H, db, r.value, s.value) && Encodable(s.value))
  }

  lemma RightLowerRefines(H: Hasher, order: MovedLookup, db: Db, node: Node, y: Node, t: Avl, version: nat)
    requires CanRotateRight(H, db, node, t, version) && t.left.Inner? && Rep(H, db, y, t.left)
    requires order.OwnHash? || y.right.Some?
    ensures Refines(H, db, RightLower(order, db, node, y, version), Join(t.key, version, t.left.right, t.right))
  {
    var z := node.(left := y.right, leftHash := if order.OwnHash? then y.rightHash else node.leftHash);
    RemeasureJoins(H, db, z, version, t.left.right, t.right);
  }

  lemma LeftLowerRefines(H: Hasher, order: MovedLookup, db: Db, node: Node, y: Node, t: Avl, version: nat)
    requires CanRotateLeft(H, db, node, t, version) && t.right.Inner? && Rep(H, db, y, t.right)
    requires order.OwnHash? || y.left.Some?
    ensures Refines(H, db, LeftLower(order, db, node, y, version), Join(t.key, version, t.left, t.right.left))
  {
    var z := node.(right := y.left, rightHash := if order.OwnHash? then y.leftHash else node.rightHash);
    RemeasureJoins(H, db, z, version, t.left, t.right.left);
  }

  lemma RightUpperRefines(H: Hasher, db: Db, y: Node, t: Avl, lower: Node, low: Avl, version: nat)
    requires t.Inner? && Rep(H, db, y, t) && Rep(H, db, lower, low) && Encodable(t) && Encodable(low) && version <= MAX_U32
    ensures Refines(H, db, RightUpper(H, db, y, lower, version),
                    Join(t.key, version, t.left, low))
  {
    RepHash(H, db, lower, low);
    RemeasureJoins(H, db, y.(right := Some(lower), rightHash := NodeHash(H, lower)), version, t.left, low);
  }

  lemma LeftUpperRefines(H: Hasher, db: Db, y: Node, t: Avl, lower: Node, low: Avl, version: nat)
    requires t.Inner? && Rep(H, db, y, t) && Rep(H, db, lower, low) && Encodable(t) && Encodable(low) && version <= MAX_U32
    ensures Refines(H, db, LeftUpper(H, db, y, lower, version),
                    Join(t.key, version, low, t.right))
  {
    RepHash(H, db, lower, low);
    RemeasureJoins(H, db, y.(left := Some(lower), leftHash := NodeHash(H, lower)), version, low, t.right);
  }

  /** When the moved subtree is loaded, or read by its own hash, the rotation of the node is the
      rotation of the tree, all cached hashes included. */
  lemma RightRotateRefines(H: Hasher, order: MovedLookup, db: Db, node: Node, t: Avl, version: nat)
    requires CanRotateRight(H, db, node, t, version) && (order.OwnHash? || RightMoverLoaded(db, node))
    ensures Refines(H, db, RightRotateNode(H, order, db, node, version), TurnRight(t, version))
  {
    hide IavlHash.RootHash;
    SlotReads(H, db, node.left, node.leftHash, t.left);
    if t.left.Inner? {
      var y := LeftOf(db, node).value;
      RightLowerRefines(H, order, db, node, y, t, version);
      var lower := RightLower(order, db, node, y, version);
      if lower.Some? {
        RightUpperRefines(H, db, y, t.left, lower.value, Join(t.key, version, t.left.right, t.right).value, version);
      }
    }
  }

  lemma LeftRotateRefines(H: Hasher, order: MovedLookup, db: Db, node: Node, t: Avl, version: nat)
    requires CanRotateLeft(H, db, node, t, version) && (order.OwnHash? || LeftMoverLoaded(db, node))
    ensures Refines(H, db, LeftRotateNode(H, order, db, node, version), TurnLeft(t, version))
  {
    hide IavlHash.RootHash;
    SlotReads(H, db, node.right, node.rightHash, t.right);
    if t.right.Inner? {
      var y := RightOf(db, node).value;
      LeftLowerRefines(H, order, db, node, y, t, version);
      var lower := LeftLower(order, db, node, y, version);
      if lower.Some? {
        LeftUpperRefines(H, db, y, t.right, lower.value, Join(t.key, version, t.left, t.right.left).value, version);
      }
    }
  }

  /** As written the moved subtree may be read by a stale hash. Whatever that finds, a rotation that
      returns gives a node that stands for the rotated tree, though possibly under wrong measures. */
  lemma RightRotateAny(H: Hasher, order: MovedLookup, db: Db, node: Node, t: Avl, version: nat) returns (t': Avl)
    requires CanRotateRight(H, db, node, t, version)
    requires RightRotateNode(H, order, db, node, version).Some?
    ensures Rep(H, db, RightRotateNode(H, order, db, node, version).value, t')
    ensures RightRotated(t, t') && Encodable(t') && t'.version == t'.right.version == version
  {
    SlotReads(H, db, node.left, node.leftHash, t.left);
    var y := LeftOf(db, node).value;
    var r := RightRotateNode(H, order, db, node, version).value;
    var lower := r.right.value;
    var low := Inner(t.key, lower.height, lower.size, version, t.left.right, t.right);
    RepHash(H, db, lower, low);
    t' := Inner(t.left.key, r.height, r.size, version, t.left.left, low);
  }

  lemma LeftRotateAny(H: Hasher, order: MovedLookup, db: Db, node: Node, t: Avl, version: nat) returns (t': Avl)
    requires CanRotateLeft(H, db, node, t, version)
    requires LeftRotateNode(H, order, db, node, version).Some?
    ensures Rep(H, db, LeftRotateNode(H, order, db, node, version).value, t')
    ensures LeftRotated(t, t') && Encodable(t') && t'.version == t'.left.version == version
  {
    SlotReads(H, db, node.right, node.rightHash, t.right);
    var y := RightOf(db, node).value;
    var r := LeftRotateNode(H, order, db, node, version).value;
    var lower := r.left.value;
    var low := Inner(t.key, lower.height, lower.size, version, t.left, t.right.left);
    RepHash(H, db, lower, low);
    t' := Inner(t.right.key, r.height, r.size, version, low, t.right.right);
  }

  // ---------------------------------------------------------------- exactly when the stale read is harmless

  /** Given up-to-date hashes, and a database that holds nothing else at the hash of the left child,
      a right rotation that reads the moved subtree by the old hash gives what was meant if and only if the
      moved subtree is loaded. */
  lemma RightStaleReadExactly(H: Hasher, db: Db, node: Node, t: Avl, version: nat)
    requires Rep(H, db, node, t) && CanRotateRight(H, db, node, t, version) && t.left.Inner?
    requires Measured(t.left) && TurnRight(t, version).Some?
    requires GetNode(db, RootHash(H, t.left)) in {None, Some(Collapse(H, t.left))}
    ensures RightRotateNode(H, SlotHash, db, node, version) == RightRotateNode(H, OwnHash, db, node, version)
            <==> RightMoverLoaded(db, node)
  {
    if RightMoverLoaded(db, node) {
      RightLoadedMoverNeedsNoHash(H, db, node, version);
    } else {
      RightStaleReadDiffers(H, db, node, t, version);
    }
  }

  lemma RightLoadedMoverNeedsNoHash(H: Hasher, db: Db, node: Node, version: nat)
    requires node.InnerNode? && RightMoverLoaded(db, node)
    ensures RightRotateNode(H, SlotHash, db, node, version) == RightRotateNode(H, OwnHash, db, node, version)
  {
    var y := LeftOf(db, node);
    if y.Some? && y.value.InnerNode? {
      assert RightLower(SlotHash, db, node, y.value, version) == RightLower(OwnHash, db, node, y.value, version);
    }
  }

  lemma RightStaleReadDiffers(H: Hasher, db: Db, node: Node, t: Avl, version: nat)
    requires Rep(H, db, node, t) && CanRotateRight(H, db, node, t, version) && t.left.Inner?
    requires Measured(t.left) && TurnRight(t, version).Some?
    requires GetNode(db, RootHash(H, t.left)) in {None, Some(Collapse(H, t.left))}
    requires !RightMoverLoaded(db, node)
    ensures RightRotateNode(H, SlotHash, db, node, version) != RightRotateNode(H, OwnHash, db, node, version)
  {
    SlotReads(H, db, node.left, node.leftHash, t.left);
    var y := LeftOf(db, node).value;
    RightRotateRefines(H, OwnHash, db, node, t, version);
    RightStaleLowerDiffers(H, db, node, y, t, version);
    var stale, own := RightLower(SlotHash, db, node, y, version), RightLower(OwnHash, db, node, y, version);
    if stale.Some? {
      RightUpperShowsLower(H, db, y, stale.value, version);
      RightUpperShowsLower(H, db, y, own.value, version);
    }
  }

  lemma RightUpperShowsLower(H: Hasher, db: Db, y: Node, lower: Node, version: nat)
    requires y.InnerNode?
    ensures RightUpper(H, db, y, lower, version).Some? ==>
              RightUpper(H, db, y, lower, version).value.right == Some(lower)
  {
  }

  lemma RightStaleLowerDiffers(H: Hasher, db: Db, node: Node, y: Node, t: Avl, version: nat)
    requires Rep(H, db, node, t) && CanRotateRight(H, db, node, t, version) && t.left.Inner? && Rep(H, db, y, t.left)
    requires y.right.None? && Measured(t.left)
    requires GetNode(db, RootHash(H, t.left)) in {None, Some(Collapse(H, t.left))}
    ensures var stale, own := RightLower(SlotHash, db, node, y, version), RightLower(OwnHash, db, node, y, version);
            stale.None? || own.None? || stale.value.size > own.value.size
  {
    SlotReads(H, db, y.right, y.rightHash, t.left.right);
    SlotReads(H, db, node.right, node.rightHash, t.right);
    assert t.left.GetSize() == LeafCount(t.left.left) + t.left.right.GetSize();
    LeavesAtLeastOne(t.left.left);
  }

  /** The mirror image. */
  lemma LeftStaleReadExactly(H: Hasher, db: Db, node: Node, t: Avl, version: nat)
    requires Rep(H, db, node, t) && CanRotateLeft(H, db, node, t, version) && t.right.Inner?
    requires Measured(t.right) && TurnLeft(t, version).Some?
    requires GetNode(db, RootHash(H, t.right)) in {None, Some(Collapse(H, t.right))}
    ensures LeftRotateNode(H, SlotHash, db, node, version) == LeftRotateNode(H, OwnHash, db, node, version)
            <==> LeftMoverLoaded(db, node)
  {
    if LeftMoverLoaded(db, node) {
      LeftLoadedMoverNeedsNoHash(H, db, node, version);
    } else {
      LeftStaleReadDiffers(H, db, node, t, version);
    }
  }

  lemma LeftLoadedMoverNeedsNoHash(H: Hasher, db: Db, node: Node, version: nat)
    requires node.InnerNode? && LeftMoverLoaded(db, node)
    ensures LeftRotateNode(H, SlotHash, db, node, version) == LeftRotateNode(H, OwnHash, db, node, version)
  {
    var y := RightOf(db, node);
    if y.Some? && y.value.InnerNode? {
      assert LeftLower(SlotHash, db, node, y.value, version) == LeftLower(OwnHash, db, node, y.value, version);
    }
  }

  lemma LeftStaleReadDiffers(H: Hasher, db: Db, node: Node, t: Avl, version: nat)
    requires Rep(H, db, node, t) && CanRotateLeft(H, db, node, t, version) && t.right.Inner?
    requires Measured(t.right) && TurnLeft(t, version).Some?
    requires GetNode(db, RootHash(H, t.right)) in {None, Some(Collapse(H, t.right))}
    requires !LeftMoverLoaded(db, node)
    ensures LeftRotateNode(H, SlotHash, db, node, version) != LeftRotateNode(H, OwnHash, db, node, version)
  {
    SlotReads(H, db, node.right, node.rightHash, t.right);
    var y := RightOf(db, node).value;
    LeftRotateRefines(H, OwnHash, db, node, t, version);
    LeftStaleLowerDiffers(H, db, node, y, t, version);
    var stale, own := LeftLower(SlotHash, db, node, y, version), LeftLower(OwnHash, db, node, y, version);
    if stale.Some? {
      LeftUpperShowsLower(H, db, y, stale.value, version);
      LeftUpperShowsLower(H, db, y, own.value, version);
    }
  }

  lemma LeftUpperShowsLower(H: Hasher, db: Db, y: Node, lower: Node, version: nat)
    requires y.InnerNode?
    ensures LeftUpper(H, db, y, lower, version).Some? ==>
              LeftUpper(H, db, y, lower, version).value.left == Some(lower)
  {
  }

  lemma LeftStaleLowerDiffers(H: Hasher, db: Db, node: Node, y: Node, t: Avl, version: nat)
    requires Rep(H, db, node, t) && CanRotateLeft(H, db, node, t, version) && t.right.Inner? && Rep(H, db, y, t.right)
    requires y.left.None? && Measured(t.right)
    requires GetNode(db, RootHash(H, t.right)) in {None, Some(Collapse(H, t.right))}
    ensures var stale, own := LeftLower(SlotHash, db, node, y, version), LeftLower(OwnHash, db, node, y, version);
            stale.None? || own.None? || stale.value.size > own.value.size
  {
    SlotReads(H, db, y.left, y.leftHash, t.right.left);
    SlotReads(H, db, node.left, node.leftHash, t.left);
    assert t.right.GetSize() == LeafCount(t.right.right) + t.right.left.GetSize();
    LeavesAtLeastOne(t.right.right);
  }

  lemma {:induction false} LeavesAtLeastOne(t: Avl)
    ensures LeafCount(t) >= 1
  {
    if t.Inner? { LeavesAtLeastOne(t.left); }
  }
}
