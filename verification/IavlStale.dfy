/** The stale hash read of a rotation, at the level of a whole insertion: exactly when the insertion
    as written returns, once part of the tree is only in the database. */
module IavlStale {
  import opened ByteStrings
  import opened IavlNode
  import opened IavlSpec
  import opened IavlHash
  import opened IavlDb
  import opened IavlRotate
  import opened IavlLoads
  import opened IavlInsert

  /** The database has no node under the hash of `t`. */
  predicate Unstored(H: Hasher, db: Db, t: Avl)
  {
    GetNode(db, RootHash(H, t)).None?
  }

  /** What Case 2 as written makes of a node when it reads its right child in place of that child's
      left subtree: the right subtree, under the measures of another. */
  function Misread(t: Avl, version: nat): Avl
    requires t.Inner? && t.right.Inner?
  {
    Inner(t.key, 1 + Max(t.left.GetHeight(), t.right.GetHeight()), t.left.GetSize() + t.right.GetSize(), version,
          t.left, t.right.left)
  }

  /** A lookup by the hash of a tree that the insertion has just made, or of the misread one, finds nothing;
      of one it has not touched, that tree or nothing. */
  predicate BlindAt(H: Hasher, db: Db, c: CaseTwo, t: Avl, k: Bytes, version: nat)
    requires t.Inner?
  {
    match CaseOf(t, k)
    case Still => true
    case CaseOne => Unstored(H, db, t.left)
    case CaseTwo =>
      if c.LeftChildFirst? then Unstored(H, db, t.left) && (t.left.Inner? ==> Unstored(H, db, t.left.right))
      else t.right.Inner? ==>
        && GetNode(db, RootHash(H, t.right)) in {None, Some(Collapse(H, t.right))}
        && Unstored(H, db, Misread(t, version))
    case CaseThree => Unstored(H, db, t.right)
    case CaseFour => Unstored(H, db, t.right) && (t.right.Inner? ==> Unstored(H, db, t.right.left))
  }

  /** At every level of the search path. */
  predicate Blind(H: Hasher, db: Db, c: CaseTwo, t: Avl, k: Bytes, v: Bytes, version: nat)
  {
    t.Inner? ==>
      && (if Less(k, t.key) then Blind(H, db, c, t.left, k, v, version) else Blind(H, db, c, t.right, k, v, version))
      && (Grown(c, t, k, v, version).Some? ==> BlindAt(H, db, c, Grown(c, t, k, v, version).value, k, version))
  }

  // ---------------------------------------------------------------- one rotation

  lemma StaleRightPanics(H: Hasher, db: Db, node: Node, version: nat)
    requires node.InnerNode? && !RightMoverLoaded(db, node) && GetNode(db, node.leftHash).None?
    ensures RightRotateNode(H, SlotHash, db, node, version).None?
  {
    hide IavlDb.GetNode;
  }

  lemma StaleLeftPanics(H: Hasher, db: Db, node: Node, version: nat)
    requires node.InnerNode? && !LeftMoverLoaded(db, node) && GetNode(db, node.rightHash).None?
    ensures LeftRotateNode(H, SlotHash, db, node, version).None?
  {
    hide IavlDb.GetNode;
  }

  // ---------------------------------------------------------------- one rebalancing

  lemma CaseOnePanics(H: Hasher, db: Db, node: Node, t: Avl, version: nat)
    requires LooseRep(H, db, node, t) && Encodable(t.left)
    requires !RightSafe(t, LoadsOf(node)) && GetNode(db, node.leftHash).None?
    ensures RightRotateNode(H, SlotHash, db, node, version).None?
  {
    hide IavlRotate.RightRotateNode, IavlDb.GetNode, IavlDb.Rep, IavlHash.RootHash;
    RightSafeIsLoaded(H, db, node, t);
    StaleRightPanics(H, db, node, version);
  }

  lemma CaseThreePanics(H: Hasher, db: Db, node: Node, t: Avl, version: nat)
    requires LooseRep(H, db, node, t) && Encodable(t.right)
    requires !LeftSafe(t, LoadsOf(node)) && GetNode(db, node.rightHash).None?
    ensures LeftRotateNode(H, SlotHash, db, node, version).None?
  {
    hide IavlRotate.LeftRotateNode, IavlDb.GetNode, IavlDb.Rep, IavlHash.RootHash;
    LeftSafeIsLoaded(H, db, node, t);
    StaleLeftPanics(H, db, node, version);
  }

  /** The lower node of the left turn when the moved subtree was read as the whole right child. */
  lemma MisreadLower(H: Hasher, db: Db, node: Node, y: Node, t: Avl, version: nat)
    requires LooseRep(H, db, node, t) && Encodable(t.left) && t.right.Inner? && Rep(H, db, y, t.right) && y.left.None?
    requires node.leftHash == RootHash(H, t.left)
    requires GetNode(db, node.rightHash) == Some(Collapse(H, t.right))
    ensures var z := LeftLower(SlotHash, db, node, y, version);
            z.Some? ==> z.value.InnerNode? && z.value.right.None? && NodeHash(H, z.value) == RootHash(H, Misread(t, version))
  {
    hide IavlDb.GetNode;
    SlotReads(H, db, node.left, node.leftHash, t.left);
    var z := LeftLower(SlotHash, db, node, y, version);
    if z.Some? { assert Unlinked(z.value) == Collapse(H, Misread(t, version)); }
  }

  lemma LeftUpperLinks(H: Hasher, db: Db, y: Node, lower: Node, version: nat)
    requires y.InnerNode?
    ensures var u := LeftUpper(H, db, y, lower, version);
            u.Some? ==> u.value.InnerNode? && u.value.left == Some(lower) && u.value.leftHash == NodeHash(H, lower)
  {
  }

  /** Case 2 as written reads the old right child in place of the moved subtree, and then looks for
      the node with its measures. */
  lemma CaseTwoWrittenPanics(H: Hasher, db: Db, node: Node, t: Avl, version: nat)
    requires LooseRep(H, db, node, t) && Encodable(t.left) && Encodable(t.right)
    requires node.leftHash == RootHash(H, t.left) && node.rightHash == RootHash(H, t.right)
    requires !LeftSafe(t, LoadsOf(node)) && t.right.Inner?
    requires GetNode(db, RootHash(H, t.right)) in {None, Some(Collapse(H, t.right))}
    requires Unstored(H, db, Misread(t, version))
    ensures var u := LeftRotateNode(H, SlotHash, db, node, version);
            u.None? || RightRotateNode(H, SlotHash, db, u.value, version).None?
  {
    hide IavlDb.GetNode, IavlRotate.RightRotateNode, IavlRotate.LeftLower, IavlRotate.LeftUpper, IavlHash.RootHash, Misread;
    LeftSafeIsLoaded(H, db, node, t);
    SlotReads(H, db, node.right, node.rightHash, t.right);
    var y := RightOf(db, node).value;
    var z := LeftLower(SlotHash, db, node, y, version);
    if z.Some? {
      var u := LeftUpper(H, db, y, z.value, version);
      LeftUpperLinks(H, db, y, z.value, version);
      if GetNode(db, node.rightHash).None? {
        StaleLeftPanics(H, db, node, version);
      } else {
        MisreadLower(H, db, node, y, t, version);
        if u.Some? { StaleRightPanics(H, db, u.value, version); }
      }
    }
  }

  /** The left child first: either of the two turns may look for a tree that was never stored. */
  lemma CaseTwoMeantPanics(H: Hasher, db: Db, node: Node, t: Avl, version: nat)
    requires Insertable(H, db, node, t, version) && t.Inner? && node.left.Some? && t.left.Inner?
    requires !PivotSafe(t.left.right, Opened(LoadsOf(node).left).right)
    requires Unstored(H, db, t.left) && Unstored(H, db, t.left.right)
    ensures var u := LeftRotateNode(H, SlotHash, db, node.left.value, version);
            u.None? || RightRotateNode(H, SlotHash, db, node.(left := u), version).None?
  {
    hide IavlRotate.LeftRotateNode, IavlRotate.RightRotateNode, IavlDb.Rep, IavlHash.RootHash, IavlDb.GetNode, IavlSpec.SearchTree, IavlSpec.TurnLeft, IavlSpec.Contents;
    ChildInsertable(H, db, node, t, version);
    TurnedStands(H, db, node, t);
    var left := node.left.value;
    TurnedStands(H, db, left, t.left);
    if !LeftSafe(t.left, LoadsOf(left)) {
      CaseThreePanics(H, db, left, t.left, version);
    } else {
      var u := LeftRotateNode(H, SlotHash, db, left, version);
      var s := LeftRotateRebalances(H, Code(LeftChildFirst, SlotHash), db, left, t.left, version);
      if u.Some? {
        TurnedInner(t.left, version);
        CaseOnePanics(H, db, node.(left := u), t.(left := s), version);
      }
    }
  }

  lemma TurnedInner(t: Avl, version: nat)
    ensures TurnLeft(t, version).Some? ==> TurnLeft(t, version).value.Inner?
    ensures TurnRight(t, version).Some? ==> TurnRight(t, version).value.Inner?
  {
  }

  lemma CaseFourPanics(H: Hasher, db: Db, node: Node, t: Avl, version: nat)
    requires Insertable(H, db, node, t, version) && t.Inner? && node.right.Some? && t.right.Inner?
    requires !PivotSafe(t.right.left, Opened(LoadsOf(node).right).left)
    requires Unstored(H, db, t.right) && Unstored(H, db, t.right.left)
    ensures var u := RightRotateNode(H, SlotHash, db, node.right.value, version);
            u.None? || LeftRotateNode(H, SlotHash, db, node.(right := u), version).None?
  {
    hide IavlRotate.LeftRotateNode, IavlRotate.RightRotateNode, IavlDb.Rep, IavlHash.RootHash, IavlDb.GetNode, IavlSpec.SearchTree, IavlSpec.TurnRight, IavlSpec.Contents;
    ChildInsertable(H, db, node, t, version);
    TurnedStands(H, db, node, t);
    var right := node.right.value;
    TurnedStands(H, db, right, t.right);
    if !RightSafe(t.right, LoadsOf(right)) {
      CaseOnePanics(H, db, right, t.right, version);
    } else {
      var u := RightRotateNode(H, SlotHash, db, right, version);
      var s := RightRotateRebalances(H, Code(LeftChildFirst, SlotHash), db, right, t.right, version);
      if u.Some? {
        TurnedInner(t.right, version);
        CaseThreePanics(H, db, node.(right := u), t.(right := s), version);
      }
    }
  }

  /** Rebalancing that would move a subtree only the database has finds nothing under the old hash. */
  lemma RebalancePanics(H: Hasher, c: CaseTwo, db: Db, node: Node, t: Avl, key: Bytes, version: nat)
    requires Insertable(H, db, node, t, version) && t.Inner? && node.InnerNode? && BlindAt(H, db, c, t, key, version)
    requires !RebalanceSafe(c, t, LoadsOf(node), key)
    ensures RebalancedNode(H, Code(c, SlotHash), db, node, key, version).None?
  {
    hide IavlRotate.LeftRotateNode, IavlRotate.RightRotateNode, IavlDb.Rep, IavlHash.RootHash, IavlDb.GetNode, IavlSpec.SearchTree, LoadsOf;
    ChildTaken(H, db, node, t, version);
    TakenSame(c, t, LoadsOf(node), key);
    var withLeft, withRight := node.(left := LeftOf(db, node)), node.(right := RightOf(db, node));
    TurnedStands(H, db, withLeft, t);
    TurnedStands(H, db, withRight, t);
    match CaseOf(t, key)
    case CaseOne => CaseOnePanics(H, db, withLeft, t, version);
    case CaseTwo =>
      if c.AsWritten? { CaseTwoWrittenPanics(H, db, withLeft, t, version); } else { CaseTwoMeantPanics(H, db, withLeft, t, version); }
    case CaseThree => CaseThreePanics(H, db, withRight, t, version);
    case CaseFour => CaseFourPanics(H, db, withRight, t, version);
    case Still =>
  }

  // ---------------------------------------------------------------- the whole insertion

  lemma UnsafeHerePanics(H: Hasher, c: CaseTwo, db: Db, node: Node, t: Avl, key: Bytes, value: Bytes, version: nat)
    requires Insertable(H, db, node, t, version) && Blind(H, db, c, t, key, value, version) && t.Inner?
    requires !Safe(c, t, LoadsOf(node), key, value, version) && SafeBelow(c, t, LoadsOf(node), key, value, version)
    ensures SetNode(H, Code(c, SlotHash), db, node, key, value, version, t).None?
  {
    hide LoadsOf, GrownLoads, BlindAt, RebalanceSafe, RebalancedNode, GrownNode, IavlDb.Rep, IavlHash.RootHash, IavlSpec.SearchTree, IavlSpec.Contents, IavlSpec.Grown;
    var code := Code(c, SlotHash);
    var g := GrownMeans(H, code, db, node, t, key, value, version);
    var grown := GrownNode(H, code, db, node, key, value, version, t);
    if grown.Some? { RebalancePanics(H, c, db, grown.value, g, key, version); }
    ChildTaken(H, db, node, t, version);
  }

  lemma {:induction false} UnsafePanics(H: Hasher, c: CaseTwo, db: Db, node: Node, t: Avl, key: Bytes, value: Bytes, version: nat)
    requires Insertable(H, db, node, t, version) && Blind(H, db, c, t, key, value, version)
    requires !Safe(c, t, LoadsOf(node), key, value, version)
    ensures SetNode(H, Code(c, SlotHash), db, node, key, value, version, t).None?
    decreases t
  {
    hide LoadsOf, GrownLoads, BlindAt, RebalanceSafe, RebalancedNode, IavlDb.Rep, IavlHash.RootHash, IavlSpec.SearchTree, IavlSpec.Contents, IavlSpec.Grown, IavlRotate.Remeasure;
    ChildInsertable(H, db, node, t, version);
    TurnedStands(H, db, node, t);
    if SafeBelow(c, t, LoadsOf(node), key, value, version) {
      UnsafeHerePanics(H, c, db, node, t, key, value, version);
    } else if Less(key, t.key) {
      UnsafePanics(H, c, db, LeftOf(db, node).value, t.left, key, value, version);
    } else {
      UnsafePanics(H, c, db, RightOf(db, node).value, t.right, key, value, version);
    }
  }

  /** Trees and what is in memory of them determine the node. */
  lemma {:induction false} LoadsDetermine(H: Hasher, db: Db, a: Node, b: Node, t: Avl)
    requires Rep(H, db, a, t) && Rep(H, db, b, t) && LoadsOf(a) == LoadsOf(b)
    ensures a == b
  {
    if t.Inner? {
      if a.left.Some? { LoadsDetermine(H, db, a.left.value, b.left.value, t.left); }
      if a.right.Some? { LoadsDetermine(H, db, a.right.value, b.right.value, t.right); }
    }
  }

  /** Where the database is blind to the trees under way, the insertion that reads stale hashes
      returns exactly when the insertion into the tree does and moves only what is in memory; and it
      gives what reading straight would have given exactly then, or when both panic. */
  lemma StaleInsertExactly(H: Hasher, c: CaseTwo, db: Db, node: Node, t: Avl, key: Bytes, value: Bytes, version: nat)
    requires Insertable(H, db, node, t, version) && Blind(H, db, c, t, key, value, version)
    ensures var stale := SetNode(H, Code(c, SlotHash), db, node, key, value, version, t);
            var straight := SetNode(H, Code(c, OwnHash), db, node, key, value, version, t);
            var safe := Safe(c, t, LoadsOf(node), key, value, version);
            && (stale.Some? <==> Set(c, t, key, value, version).Some? && safe)
            && (straight.Some? <==> Set(c, t, key, value, version).Some?)
            && (stale == straight <==> straight.None? || safe)
  {
    hide LoadsOf, SetNode, Safe, SetLoads, IavlSpec.Set, IavlDb.Rep, IavlHash.RootHash, IavlSpec.SearchTree, Updated, Blind;
    var a := SetNodeMeans(H, Code(c, SlotHash), db, node, t, key, value, version);
    var b := SetNodeMeans(H, Code(c, OwnHash), db, node, t, key, value, version);
    if !Safe(c, t, LoadsOf(node), key, value, version) {
      UnsafePanics(H, c, db, node, t, key, value, version);
    } else if Set(c, t, key, value, version).Some? {
      LoadsDetermine(H, db, SetNode(H, Code(c, SlotHash), db, node, key, value, version, t).value,
                     SetNode(H, Code(c, OwnHash), db, node, key, value, version, t).value, a);
    }
  }
}
