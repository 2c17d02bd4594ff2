/** `recursive_set` on nodes: descent, new hashes and measures, and the four rebalancing cases,
    against one insertion into the tree the node stands for. */
module IavlInsert {
  import opened ByteStrings
  import opened IavlNode
  import opened IavlSpec
  import opened IavlHash
  import opened IavlDb
  import opened IavlRotate
  import opened IavlLoads

  /** The two points at which the program as written and its evident intent differ. */
  datatype Code = Code(caseTwo: CaseTwo, order: MovedLookup)

  /** What a node must be for an insertion into it to make sense. */
  ghost predicate Insertable(H: Hasher, db: Db, node: Node, t: Avl, version: nat)
  {
    Rep(H, db, node, t) && SearchTree(t) && Encodable(t) && version <= MAX_U32
  }

  lemma ChildInsertable(H: Hasher, db: Db, node: Node, t: Avl, version: nat)
    requires Insertable(H, db, node, t, version) && t.Inner?
    ensures LeftOf(db, node).Some? && Insertable(H, db, LeftOf(db, node).value, t.left, version)
    ensures RightOf(db, node).Some? && Insertable(H, db, RightOf(db, node).value, t.right, version)
    ensures LoadsOf(LeftOf(db, node).value) == Opened(LoadsOf(node).left)
    ensures LoadsOf(RightOf(db, node).value) == Opened(LoadsOf(node).right)
  {
    hide IavlHash.RootHash;
    RepIsLoose(H, db, node, t);
    SlotOpens(H, db, node.left, node.leftHash, t.left);
    SlotOpens(H, db, node.right, node.rightHash, t.right);
  }

  /** A slot read from the database comes without children. */
  lemma SlotOpens(H: Hasher, db: Db, child: Option<Node>, hash: Hash, t: Avl)
    requires SlotRep(H, db, child, hash, t) && Encodable(t)
    ensures var n := if child.Some? then child else GetNode(db, hash);
            n.Some? && Rep(H, db, n.value, t) && LoadsOf(n.value) == Opened(SlotLoads(child))
            && n.value.GetHeight() == t.GetHeight() && n.value.key == t.key && (n.value.LeafNode? <==> t.Leaf?)
  {
    SlotReads(H, db, child, hash, t);
    if child.None? { LoadedStandsFor(H, db, t); }
  }

  // ---------------------------------------------------------------- the insertion on nodes

  function RebalanceLeftNode(H: Hasher, code: Code, db: Db, node: Node, key: Bytes, version: nat): Option<Node>
    requires node.InnerNode? && node.left.Some?
  {
    if Less(key, node.left.value.key) then RightRotateNode(H, code.order, db, node, version)
    else if code.caseTwo.AsWritten? then
      match LeftRotateNode(H, code.order, db, node, version)
      case None => None
      case Some(turned) => RightRotateNode(H, code.order, db, turned, version)
    else
      match LeftRotateNode(H, code.order, db, node.left.value, version)
      case None => None
      case Some(turned) => RightRotateNode(H, code.order, db, node.(left := Some(turned)), version)
  }

  function RebalanceRightNode(H: Hasher, code: Code, db: Db, node: Node, key: Bytes, version: nat): Option<Node>
    requires node.InnerNode? && node.right.Some?
  {
    if Less(node.right.value.key, key) then LeftRotateNode(H, code.order, db, node, version)
    else
      match RightRotateNode(H, code.order, db, node.right.value, version)
      case None => None
      case Some(turned) => LeftRotateNode(H, code.order, db, node.(right := Some(turned)), version)
  }

  function RebalancedNode(H: Hasher, code: Code, db: Db, node: Node, key: Bytes, version: nat): Option<Node>
    requires node.InnerNode?
  {
    var left, right := LeftOf(db, node), RightOf(db, node);
    if left.None? || right.None? then None
    else
      var balance := left.value.GetHeight() - right.value.GetHeight();
      if balance > 1 then RebalanceLeftNode(H, code, db, node.(left := left), key, version)
      else if balance < -1 then RebalanceRightNode(H, code, db, node.(right := right), key, version)
      else Some(node)
  }

  function WithLeft(H: Hasher, node: Node, left: Node): Node
    requires node.InnerNode?
  {
    node.(left := Some(left), leftHash := NodeHash(H, left))
  }

  function WithRight(H: Hasher, node: Node, right: Node): Node
    requires node.InnerNode?
  {
    node.(right := Some(right), rightHash := NodeHash(H, right))
  }

  function SetLeafOf(H: Hasher, leaf: Node, key: Bytes, value: Bytes, version: nat): Node
    requires leaf.LeafNode?
  {
    var new' := LeafNode(key, value, version);
    if Less(key, leaf.key) then
      InnerNode(Some(new'), Some(leaf), leaf.key, 1, 2, NodeHash(H, new'), NodeHash(H, leaf), version)
    else if key == leaf.key then new'
    else InnerNode(Some(leaf), Some(new'), key, 1, 2, NodeHash(H, leaf), NodeHash(H, new'), version)
  }

  /** The insertion, `None` being a panic. */
  function SetNode(H: Hasher, code: Code, db: Db, node: Node, key: Bytes, value: Bytes, version: nat, ghost t: Avl): Option<Node>
    requires Insertable(H, db, node, t, version)
    decreases t, 1
  {
    if node.LeafNode? then Some(SetLeafOf(H, node, key, value, version))
    else
      match GrownNode(H, code, db, node, key, value, version, t)
      case None => None
      case Some(grown) => RebalancedNode(H, code, db, grown, key, version)
  }

  /** The recursive call, the new child hash, and the new measures. */
  function GrownNode(H: Hasher, code: Code, db: Db, node: Node, key: Bytes, value: Bytes, version: nat, ghost t: Avl): (r: Option<Node>)
    requires Insertable(H, db, node, t, version) && t.Inner?
    ensures r.Some? ==> r.value.InnerNode?
    decreases t, 0
  {
    ChildInsertable(H, db, node, t, version);
    if Less(key, node.key) then
      match SetNode(H, code, db, LeftOf(db, node).value, key, value, version, t.left)
      case None => None
      case Some(left) => Remeasure(db, WithLeft(H, node, left), version)
    else
      match SetNode(H, code, db, RightOf(db, node).value, key, value, version, t.right)
      case None => None
      case Some(right) => Remeasure(db, WithRight(H, node, right), version)
  }

  // ---------------------------------------------------------------- the insertion, step by step

  method RebalanceLeft(H: Hasher, code: Code, db: Db, node: Node, key: Bytes, version: nat) returns (r: Option<Node>)
    requires node.InnerNode? && node.left.Some?
    ensures r == RebalanceLeftNode(H, code, db, node, key, version)
  {
    var left := node.left.value;
    if Less(key, left.key) {
      // Case 1 - Right
      r := RightRotate(H, code.order, db, node, version);
    } else if code.caseTwo.AsWritten? {
      // Case 2 - Left Right, both on the node itself
      var turned := LeftRotate(H, code.order, db, node, version);
      if turned.None? {
        return None;
      }
      r := RightRotate(H, code.order, db, turned.value, version);
    } else {
      // Case 2 - Left Right, the left child first
      var turned := LeftRotate(H, code.order, db, left, version);
      if turned.None? {
        return None;
      }
      r := RightRotate(H, code.order, db, node.(left := turned), version);
    }
  }

  method RebalanceRight(H: Hasher, code: Code, db: Db, node: Node, key: Bytes, version: nat) returns (r: Option<Node>)
    requires node.InnerNode? && node.right.Some?
    ensures r == RebalanceRightNode(H, code, db, node, key, version)
  {
    var right := node.right.value;
    if Less(right.key, key) {
      // Case 3 - Left
      r := LeftRotate(H, code.order, db, node, version);
    } else {
      // Case 4 - Right Left
      var turned := RightRotate(H, code.order, db, right, version);
      if turned.None? {
        return None;
      }
      r := LeftRotate(H, code.order, db, node.(right := turned), version);
    }
  }

  // ---------------------------------------------------------------- what rotations stand for

  /** The result of a rotation or rebalancing of a node that stands for `t`: whenever there is one it
      stands for some `t'` with the same meaning; and if the hashes were read straight it is exactly
      the `s` of the tree, with `l` in memory. */
  ghost predicate Rebalanced(H: Hasher, db: Db, version: nat, exact: bool, t: Avl, s: Option<Avl>, l: Loads,
                             r: Option<Node>, t': Avl)
  {
    && (r.Some? ==> Rep(H, db, r.value, t') && SameMeaning(t, t') && Encodable(t'))
    && (r.Some? && MadeBy(t, version) ==> MadeBy(t', version))
    && (exact ==> (r.Some? <==> s.Some?) && (r.Some? ==> t' == s.value && LoadsOf(r.value) == l))
  }

  /** Hashes are read straight: by the code, or because what moves is in memory. */
  predicate Exact(code: Code, safe: bool)
  {
    code.order.OwnHash? || safe
  }

  lemma RightSafeIsLoaded(H: Hasher, db: Db, node: Node, t: Avl)
    requires LooseRep(H, db, node, t) && Encodable(t.left)
    ensures RightSafe(t, LoadsOf(node)) <==> RightMoverLoaded(db, node)
  {
    SlotOpens(H, db, node.left, node.leftHash, t.left);
  }

  lemma LeftSafeIsLoaded(H: Hasher, db: Db, node: Node, t: Avl)
    requires LooseRep(H, db, node, t) && Encodable(t.right)
    ensures LeftSafe(t, LoadsOf(node)) <==> LeftMoverLoaded(db, node)
  {
    SlotOpens(H, db, node.right, node.rightHash, t.right);
  }

  /** Which children hang where after a rotation. */
  lemma RotateLinks(H: Hasher, order: MovedLookup, db: Db, node: Node, version: nat)
    ensures var r := RightRotateNode(H, order, db, node, version);
            r.Some? ==>
              && node.InnerNode? && LeftOf(db, node).Some? && LeftOf(db, node).value.InnerNode?
              && r.value.InnerNode? && r.value.left == LeftOf(db, node).value.left
              && r.value.right.Some? && r.value.right.value.InnerNode?
              && r.value.right.value.left == LeftOf(db, node).value.right && r.value.right.value.right == node.right
    ensures var r := LeftRotateNode(H, order, db, node, version);
            r.Some? ==>
              && node.InnerNode? && RightOf(db, node).Some? && RightOf(db, node).value.InnerNode?
              && r.value.InnerNode? && r.value.right == RightOf(db, node).value.right
              && r.value.left.Some? && r.value.left.value.InnerNode?
              && r.value.left.value.left == node.left && r.value.left.value.right == RightOf(db, node).value.left
  {
    hide IavlDb.GetNode;
  }

  lemma RightRotateLoads(H: Hasher, order: MovedLookup, db: Db, node: Node, t: Avl, version: nat)
    requires LooseRep(H, db, node, t) && Encodable(t.left)
    ensures var r := RightRotateNode(H, order, db, node, version);
            r.Some? ==> LoadsOf(r.value) == TurnRightLoads(LoadsOf(node))
  {
    hide IavlRotate.RightRotateNode, IavlHash.RootHash, IavlDb.Rep;
    SlotOpens(H, db, node.left, node.leftHash, t.left);
    RotateLinks(H, order, db, node, version);
    var r := RightRotateNode(H, order, db, node, version);
    if r.Some? {
      assert LoadsOf(r.value.right.value) == Present(SlotLoads(LeftOf(db, node).value.right), SlotLoads(node.right));
    }
  }

  lemma LeftRotateLoads(H: Hasher, order: MovedLookup, db: Db, node: Node, t: Avl, version: nat)
    requires LooseRep(H, db, node, t) && Encodable(t.right)
    ensures var r := LeftRotateNode(H, order, db, node, version);
            r.Some? ==> LoadsOf(r.value) == TurnLeftLoads(LoadsOf(node))
  {
    hide IavlRotate.LeftRotateNode, IavlHash.RootHash, IavlDb.Rep;
    SlotOpens(H, db, node.right, node.rightHash, t.right);
    RotateLinks(H, order, db, node, version);
    var r := LeftRotateNode(H, order, db, node, version);
    if r.Some? {
      assert LoadsOf(r.value.left.value) == Present(SlotLoads(node.left), SlotLoads(RightOf(db, node).value.left));
    }
  }

  lemma TurnMadeBy(t: Avl, version: nat)
    requires MadeBy(t, version)
    ensures TurnRight(t, version).Some? ==> MadeBy(TurnRight(t, version).value, version)
    ensures TurnLeft(t, version).Some? ==> MadeBy(TurnLeft(t, version).value, version)
  {
  }

  lemma RotatedMadeBy(t: Avl, t': Avl, version: nat)
    requires MadeBy(t, version) && t'.Inner? && t'.version == version
    ensures RightRotated(t, t') && t'.right.version == version ==> MadeBy(t', version)
    ensures LeftRotated(t, t') && t'.left.version == version ==> MadeBy(t', version)
  {
  }

  lemma RightRotateRebalances(H: Hasher, code: Code, db: Db, node: Node, t: Avl, version: nat) returns (t': Avl)
    requires CanRotateRight(H, db, node, t, version) && SearchTree(t)
    ensures Rebalanced(H, db, version, Exact(code, RightSafe(t, LoadsOf(node))), t, TurnRight(t, version),
                       TurnRightLoads(LoadsOf(node)), RightRotateNode(H, code.order, db, node, version), t')
  {
    hide LoadsOf, TurnRightLoads, RightSafe, IavlRotate.RightRotateNode, IavlSpec.TurnRight, IavlDb.Rep, IavlHash.RootHash, IavlSpec.SearchTree, IavlSpec.Contents;
    var r := RightRotateNode(H, code.order, db, node, version);
    t' := t;
    RightSafeIsLoaded(H, db, node, t);
    RightRotateLoads(H, code.order, db, node, t, version);
    if Exact(code, RightSafe(t, LoadsOf(node))) {
      RightRotateRefines(H, code.order, db, node, t, version);
      RotateMeansSame(t, version);
      if MadeBy(t, version) { TurnMadeBy(t, version); }
      if r.Some? { t' := TurnRight(t, version).value; }
    } else if r.Some? {
      t' := RightRotateAny(H, code.order, db, node, t, version);
      RightRotatedMeansSame(t, t');
      if MadeBy(t, version) { RotatedMadeBy(t, t', version); }
    }
  }

  lemma LeftRotateRebalances(H: Hasher, code: Code, db: Db, node: Node, t: Avl, version: nat) returns (t': Avl)
    requires CanRotateLeft(H, db, node, t, version) && SearchTree(t)
    ensures Rebalanced(H, db, version, Exact(code, LeftSafe(t, LoadsOf(node))), t, TurnLeft(t, version),
                       TurnLeftLoads(LoadsOf(node)), LeftRotateNode(H, code.order, db, node, version), t')
  {
    hide LoadsOf, TurnLeftLoads, LeftSafe, IavlRotate.LeftRotateNode, IavlSpec.TurnLeft, IavlDb.Rep, IavlHash.RootHash, IavlSpec.SearchTree, IavlSpec.Contents;
    var r := LeftRotateNode(H, code.order, db, node, version);
    t' := t;
    LeftSafeIsLoaded(H, db, node, t);
    LeftRotateLoads(H, code.order, db, node, t, version);
    if Exact(code, LeftSafe(t, LoadsOf(node))) {
      LeftRotateRefines(H, code.order, db, node, t, version);
      RotateMeansSame(t, version);
      if MadeBy(t, version) { TurnMadeBy(t, version); }
      if r.Some? { t' := TurnLeft(t, version).value; }
    } else if r.Some? {
      t' := LeftRotateAny(H, code.order, db, node, t, version);
      LeftRotatedMeansSame(t, t');
      if MadeBy(t, version) { RotatedMadeBy(t, t', version); }
    }
  }

  // ---------------------------------------------------------------- what rebalancing stands for

  /** After turning left and right again the subtree to move is the one just moved. */
  lemma TurnedBackSafe(t: Avl, l: Loads, version: nat)
    requires l.Present? && LeftSafe(t, l) && TurnLeft(t, version).Some?
    ensures RightSafe(TurnLeft(t, version).value, TurnLeftLoads(l))
  {
  }

  lemma CaseTwoWrittenMeans(H: Hasher, code: Code, db: Db, node: Node, t: Avl, version: nat) returns (t': Avl)
    requires Insertable(H, db, node, t, version) && t.Inner?
    ensures Rebalanced(H, db, version, Exact(code, LeftSafe(t, LoadsOf(node))), t, CaseTwoRotate(AsWritten, t, version),
                       TurnRightLoads(TurnLeftLoads(LoadsOf(node))),
                       (var u := LeftRotateNode(H, code.order, db, node, version);
                        if u.None? then None else RightRotateNode(H, code.order, db, u.value, version)), t')
  {
    hide LoadsOf, TurnLeftLoads, TurnRightLoads, LeftSafe, RightSafe, IavlSpec.TurnLeft, IavlSpec.TurnRight, IavlRotate.LeftRotateNode, IavlRotate.RightRotateNode, IavlDb.Rep, IavlHash.RootHash, IavlSpec.SearchTree, IavlSpec.Contents;
    RepIsLoose(H, db, node, t);
    var u := LeftRotateRebalances(H, code, db, node, t, version);
    var turned := LeftRotateNode(H, code.order, db, node, version);
    t' := t;
    if turned.Some? {
      TurnedIsInner(H, code.order, db, node, version);
      TurnedStands(H, db, turned.value, u);
      if LeftSafe(t, LoadsOf(node)) && TurnLeft(t, version).Some? { TurnedBackSafe(t, LoadsOf(node), version); }
      t' := RightRotateRebalances(H, code, db, turned.value, u, version);
    }
  }

  lemma TurnedIsInner(H: Hasher, order: MovedLookup, db: Db, node: Node, version: nat)
    ensures LeftRotateNode(H, order, db, node, version).Some? ==> LeftRotateNode(H, order, db, node, version).value.InnerNode?
    ensures RightRotateNode(H, order, db, node, version).Some? ==> RightRotateNode(H, order, db, node, version).value.InnerNode?
  {
    RotateLinks(H, order, db, node, version);
  }

  /** A node that stands for an encodable tree is ready to be rotated. */
  lemma TurnedStands(H: Hasher, db: Db, node: Node, t: Avl)
    requires Rep(H, db, node, t) && Encodable(t) && (node.InnerNode? || t.Inner?)
    ensures t.Inner? && LooseRep(H, db, node, t) && Encodable(t.left) && Encodable(t.right)
    ensures node.leftHash == RootHash(H, t.left) && node.rightHash == RootHash(H, t.right)
  {
    RepIsLoose(H, db, node, t);
  }

  /** A double rotation moves the two subtrees of the pivot in turn. */
  lemma PivotTurns(t: Avl, l: Loads, version: nat)
    requires t.Inner? && l.Present?
    ensures t.left.Inner? && PivotSafe(t.left.right, Opened(l.left).right) ==>
              && LeftSafe(t.left, Opened(l.left))
              && (TurnLeft(t.left, version).Some? ==>
                    RightSafe(t.(left := TurnLeft(t.left, version).value), Present(TurnLeftLoads(Opened(l.left)), l.right)))
    ensures t.right.Inner? && PivotSafe(t.right.left, Opened(l.right).left) ==>
              && RightSafe(t.right, Opened(l.right))
              && (TurnRight(t.right, version).Some? ==>
                    LeftSafe(t.(right := TurnRight(t.right, version).value), Present(l.left, TurnRightLoads(Opened(l.right)))))
  {
  }

  /** The left child turned first. */
  lemma CaseTwoMeantMeans(H: Hasher, code: Code, db: Db, node: Node, t: Avl, version: nat) returns (t': Avl)
    requires Insertable(H, db, node, t, version) && t.Inner? && node.left.Some?
    ensures var l := LoadsOf(node);
            Rebalanced(H, db, version, Exact(code, t.left.Inner? ==> PivotSafe(t.left.right, Opened(l.left).right)), t,
                       CaseTwoRotate(LeftChildFirst, t, version), TurnRightLoads(Present(TurnLeftLoads(Opened(l.left)), l.right)),
                       (var u := LeftRotateNode(H, code.order, db, node.left.value, version);
                        if u.None? then None else RightRotateNode(H, code.order, db, node.(left := u), version)), t')
  {
    hide TurnLeftLoads, TurnRightLoads, LeftSafe, RightSafe, PivotSafe, IavlSpec.TurnLeft, IavlSpec.TurnRight, IavlRotate.LeftRotateNode, IavlRotate.RightRotateNode, IavlDb.Rep, IavlHash.RootHash, IavlSpec.SearchTree, IavlSpec.Contents;
    t' := t;
    ChildInsertable(H, db, node, t, version);
    TurnedStands(H, db, node, t);
    if t.left.Leaf? {
      LeafCannotTurn(H, code.order, db, node.left.value, t.left, version);
    } else {
      TurnedStands(H, db, node.left.value, t.left);
      PivotTurns(t, LoadsOf(node), version);
      var u := LeftRotateRebalances(H, code, db, node.left.value, t.left, version);
      var turned := LeftRotateNode(H, code.order, db, node.left.value, version);
      if turned.Some? {
        SameContentsBelow(t, t.(left := u));
        t' := RightRotateRebalances(H, code, db, node.(left := turned), t.(left := u), version);
      }
    }
  }

  /** The right child turned first. */
  lemma CaseFourMeans(H: Hasher, code: Code, db: Db, node: Node, t: Avl, version: nat) returns (t': Avl)
    requires Insertable(H, db, node, t, version) && t.Inner? && node.right.Some?
    ensures var l := LoadsOf(node);
            Rebalanced(H, db, version, Exact(code, t.right.Inner? ==> PivotSafe(t.right.left, Opened(l.right).left)), t,
                       CaseFourRotate(t, version), TurnLeftLoads(Present(l.left, TurnRightLoads(Opened(l.right)))),
                       (var u := RightRotateNode(H, code.order, db, node.right.value, version);
                        if u.None? then None else LeftRotateNode(H, code.order, db, node.(right := u), version)), t')
  {
    hide TurnLeftLoads, TurnRightLoads, LeftSafe, RightSafe, PivotSafe, IavlSpec.TurnLeft, IavlSpec.TurnRight, IavlRotate.LeftRotateNode, IavlRotate.RightRotateNode, IavlDb.Rep, IavlHash.RootHash, IavlSpec.SearchTree, IavlSpec.Contents;
    t' := t;
    ChildInsertable(H, db, node, t, version);
    TurnedStands(H, db, node, t);
    if t.right.Leaf? {
      LeafCannotTurn(H, code.order, db, node.right.value, t.right, version);
    } else {
      TurnedStands(H, db, node.right.value, t.right);
      PivotTurns(t, LoadsOf(node), version);
      var u := RightRotateRebalances(H, code, db, node.right.value, t.right, version);
      var turned := RightRotateNode(H, code.order, db, node.right.value, version);
      if turned.Some? {
        SameContentsBelow(t, t.(right := u));
        t' := LeftRotateRebalances(H, code, db, node.(right := turned), t.(right := u), version);
      }
    }
  }

  lemma LeafCannotTurn(H: Hasher, order: MovedLookup, db: Db, node: Node, t: Avl, version: nat)
    requires Rep(H, db, node, t) && t.Leaf?
    ensures LeftRotateNode(H, order, db, node, version).None? && RightRotateNode(H, order, db, node, version).None?
    ensures TurnLeft(t, version).None? && TurnRight(t, version).None?
  {
  }

  /** One child taken from the database into the node, as the rebalancing does before it rotates. */
  lemma ChildTaken(H: Hasher, db: Db, node: Node, t: Avl, version: nat)
    requires Insertable(H, db, node, t, version) && t.Inner?
    ensures var l := LoadsOf(node);
            && node.InnerNode? && LeftOf(db, node).Some? && RightOf(db, node).Some?
            && LeftOf(db, node).value.GetHeight() == t.left.GetHeight() && LeftOf(db, node).value.key == t.left.key
            && RightOf(db, node).value.GetHeight() == t.right.GetHeight() && RightOf(db, node).value.key == t.right.key
            && Insertable(H, db, node.(left := LeftOf(db, node)), t, version)
            && Insertable(H, db, node.(right := RightOf(db, node)), t, version)
            && LoadsOf(node.(left := LeftOf(db, node))) == Present(Opened(l.left), l.right)
            && LoadsOf(node.(right := RightOf(db, node))) == Present(l.left, Opened(l.right))
  {
    hide IavlHash.RootHash;
    RepIsLoose(H, db, node, t);
    SlotOpens(H, db, node.left, node.leftHash, t.left);
    SlotOpens(H, db, node.right, node.rightHash, t.right);
  }

  lemma RebalanceLeftMeans(H: Hasher, code: Code, db: Db, node: Node, t: Avl, key: Bytes, version: nat) returns (t': Avl)
    requires Insertable(H, db, node, t, version) && t.Inner? && node.left.Some?
    requires t.left.GetHeight() - t.right.GetHeight() > 1
    ensures Rebalanced(H, db, version, Exact(code, RebalanceSafe(code.caseTwo, t, LoadsOf(node), key)), t,
                       Rebalance(code.caseTwo, t, key, version), RebalanceLoads(code.caseTwo, t, LoadsOf(node), key),
                       RebalanceLeftNode(H, code, db, node, key, version), t')
  {
    hide TurnLeftLoads, TurnRightLoads, LeftSafe, RightSafe, PivotSafe, IavlSpec.TurnLeft, IavlSpec.TurnRight, IavlSpec.CaseTwoRotate, IavlRotate.LeftRotateNode, IavlRotate.RightRotateNode, IavlDb.Rep, IavlHash.RootHash, IavlSpec.SearchTree, IavlSpec.Contents;
    ChildTaken(H, db, node, t, version);
    TurnedStands(H, db, node, t);
    if Less(key, t.left.key) {
      t' := RightRotateRebalances(H, code, db, node, t, version);
    } else if code.caseTwo.AsWritten? {
      t' := CaseTwoWrittenMeans(H, code, db, node, t, version);
    } else {
      t' := CaseTwoMeantMeans(H, code, db, node, t, version);
    }
  }

  lemma RebalanceRightMeans(H: Hasher, code: Code, db: Db, node: Node, t: Avl, key: Bytes, version: nat) returns (t': Avl)
    requires Insertable(H, db, node, t, version) && t.Inner? && node.right.Some?
    requires t.left.GetHeight() - t.right.GetHeight() < -1
    ensures Rebalanced(H, db, version, Exact(code, RebalanceSafe(code.caseTwo, t, LoadsOf(node), key)), t,
                       Rebalance(code.caseTwo, t, key, version), RebalanceLoads(code.caseTwo, t, LoadsOf(node), key),
                       RebalanceRightNode(H, code, db, node, key, version), t')
  {
    hide TurnLeftLoads, TurnRightLoads, LeftSafe, RightSafe, PivotSafe, IavlSpec.TurnLeft, IavlSpec.TurnRight, IavlSpec.CaseFourRotate, IavlRotate.LeftRotateNode, IavlRotate.RightRotateNode, IavlDb.Rep, IavlHash.RootHash, IavlSpec.SearchTree, IavlSpec.Contents;
    ChildTaken(H, db, node, t, version);
    TurnedStands(H, db, node, t);
    if Less(t.right.key, key) {
      t' := LeftRotateRebalances(H, code, db, node, t, version);
    } else {
      t' := CaseFourMeans(H, code, db, node, t, version);
    }
  }

  /** Taking a child into the node does not change where it may rotate, nor what is left in memory. */
  lemma TakenSame(c: CaseTwo, t: Avl, l: Loads, k: Bytes)
    requires t.Inner? && l.Present?
    ensures CaseOf(t, k) in {CaseOne, CaseTwo} ==>
              && RebalanceSafe(c, t, Present(Opened(l.left), l.right), k) == RebalanceSafe(c, t, l, k)
              && RebalanceLoads(c, t, Present(Opened(l.left), l.right), k) == RebalanceLoads(c, t, l, k)
    ensures CaseOf(t, k) in {CaseThree, CaseFour} ==>
              && RebalanceSafe(c, t, Present(l.left, Opened(l.right)), k) == RebalanceSafe(c, t, l, k)
              && RebalanceLoads(c, t, Present(l.left, Opened(l.right)), k) == RebalanceLoads(c, t, l, k)
  {
  }

  lemma RebalanceMeans(H: Hasher, code: Code, db: Db, node: Node, t: Avl, key: Bytes, version: nat) returns (t': Avl)
    requires Insertable(H, db, node, t, version) && t.Inner?
    ensures Rebalanced(H, db, version, Exact(code, RebalanceSafe(code.caseTwo, t, LoadsOf(node), key)), t,
                       Rebalance(code.caseTwo, t, key, version), RebalanceLoads(code.caseTwo, t, LoadsOf(node), key),
                       RebalancedNode(H, code, db, node, key, version), t')
  {
    hide LoadsOf, RebalanceSafe, RebalanceLoads, RebalanceLeftNode, RebalanceRightNode, IavlSpec.TurnLeft, IavlSpec.TurnRight, IavlSpec.CaseTwoRotate, IavlSpec.CaseFourRotate, IavlRotate.LeftRotateNode, IavlRotate.RightRotateNode, IavlDb.Rep, IavlHash.RootHash, IavlSpec.SearchTree, IavlSpec.Contents;
    ChildTaken(H, db, node, t, version);
    TakenSame(code.caseTwo, t, LoadsOf(node), key);
    var balance := t.left.GetHeight() - t.right.GetHeight();
    if balance > 1 {
      t' := RebalanceLeftMeans(H, code, db, node.(left := LeftOf(db, node)), t, key, version);
    } else if balance < -1 {
      t' := RebalanceRightMeans(H, code, db, node.(right := RightOf(db, node)), t, key, version);
    } else {
      t' := t;
      StillSame(code.caseTwo, t, LoadsOf(node), key);
    }
  }

  lemma StillSame(c: CaseTwo, t: Avl, l: Loads, k: Bytes)
    requires t.Inner? && l.Present? && CaseOf(t, k).Still?
    ensures RebalanceSafe(c, t, l, k) && RebalanceLoads(c, t, l, k) == l
  {
  }

  /** Rebalancing after the measures are updated; the balance factor is read from the children. The
      result is the rebalanced tree, if the code reads straight or what moves is in memory. */
  method RebalanceNode(H: Hasher, code: Code, db: Db, node: Node, key: Bytes, version: nat, ghost t: Avl)
    returns (r: Option<Node>, ghost t': Avl)
    requires Insertable(H, db, node, t, version) && t.Inner?
    ensures r == RebalancedNode(H, code, db, node, key, version)
    ensures Rebalanced(H, db, version, Exact(code, RebalanceSafe(code.caseTwo, t, LoadsOf(node), key)), t,
                       Rebalance(code.caseTwo, t, key, version), RebalanceLoads(code.caseTwo, t, LoadsOf(node), key), r, t')
  {
    hide LoadsOf, RebalanceSafe, RebalanceLoads, RebalanceLeftNode, RebalanceRightNode, Rebalanced, IavlSpec.Rebalance, IavlHash.RootHash;
    t' := RebalanceMeans(H, code, db, node, t, key, version);
    ChildTaken(H, db, node, t, version);
    var left, right := LeftOf(db, node), RightOf(db, node);
    var balance := left.value.GetHeight() - right.value.GetHeight();
    if balance > 1 {
      r := RebalanceLeft(H, code, db, node.(left := left), key, version);
    } else if balance < -1 {
      r := RebalanceRight(H, code, db, node.(right := right), key, version);
    } else {
      r := Some(node);
    }
  }

  // ---------------------------------------------------------------- what the insertion stands for

  ghost predicate Updated(t: Avl, k: Bytes, v: Bytes, version: nat, t': Avl)
  {
    UpdatedAt(t, k, v, version, t') && Encodable(t')
  }

  /** The result of an insertion, with the same promises as a rebalancing. */
  ghost predicate Inserted(H: Hasher, db: Db, version: nat, exact: bool, t: Avl, key: Bytes, value: Bytes,
                           s: Option<Avl>, l: Loads, r: Option<Node>, t': Avl)
  {
    && (r.Some? ==> Rep(H, db, r.value, t') && Updated(t, key, value, version, t'))
    && (r.Some? && MadeBy(t, version) ==> MadeBy(t', version))
    && (exact ==> (r.Some? <==> s.Some?) && (r.Some? ==> t' == s.value && LoadsOf(r.value) == l))
  }

  lemma SetLeafMeans(H: Hasher, db: Db, leaf: Node, t: Avl, key: Bytes, value: Bytes, version: nat)
    requires Insertable(H, db, leaf, t, version) && t.Leaf?
    ensures Rep(H, db, SetLeafOf(H, leaf, key, value, version), SetLeaf(t, key, value, version))
    ensures Updated(t, key, value, version, SetLeaf(t, key, value, version))
    ensures MadeBy(t, version) ==> MadeBy(SetLeaf(t, key, value, version), version)
  {
    LeafSetMeans(t, key, value, version);
    LessIrreflexive(key);
    var s := SetLeaf(t, key, value, version);
    if s.Inner? { assert Rep(H, db, LeafNode(s.left.key, s.left.value, s.left.version), s.left); }
  }

  lemma SetLeafLoads(H: Hasher, c: CaseTwo, leaf: Node, t: Avl, key: Bytes, value: Bytes, version: nat)
    requires leaf.LeafNode? && t.Leaf? && leaf.key == t.key
    ensures LoadsOf(SetLeafOf(H, leaf, key, value, version)) == SetLoads(c, t, LoadsOf(leaf), key, value, version)
  {
    LessIrreflexive(key);
    assert LoadsOf(leaf) == LoadsOf(LeafNode(key, value, version)) == Present(Absent, Absent);
  }

  /** A remeasured node against its joined tree. */
  ghost predicate Measures(H: Hasher, db: Db, node: Node, r: Option<Node>, s: Option<Avl>, t: Avl, key: Bytes, value: Bytes,
                           version: nat)
  {
    && (r.Some? <==> s.Some?)
    && (r.Some? ==> Rep(H, db, r.value, s.value) && Updated(t, key, value, version, s.value) && s.value.Inner?
                    && LoadsOf(r.value) == LoadsOf(node))
  }

  /** New measures over a node whose children stand for those of `grown`. */
  lemma MeasuredIsUpdated(H: Hasher, db: Db, node: Node, t: Avl, grown: Avl, key: Bytes, value: Bytes, version: nat)
    requires LooseRep(H, db, node, grown) && Encodable(grown.left) && Encodable(grown.right) && version <= MAX_U32
    requires node.leftHash == RootHash(H, grown.left) && node.rightHash == RootHash(H, grown.right)
    requires UpdatedAt(t, key, value, version, grown)
    ensures var r, s := Remeasure(db, node, version), Join(grown.key, version, grown.left, grown.right);
            Measures(H, db, node, r, s, t, key, value, version)
  {
    RemeasureJoins(H, db, node, version, grown.left, grown.right);
    var s := Join(grown.key, version, grown.left, grown.right);
    if s.Some? {
      RepIsLoose(H, db, Remeasure(db, node, version).value, s.value);
      SameContentsBelow(grown, s.value);
    }
  }

  lemma LeftInstalled(H: Hasher, db: Db, node: Node, t: Avl, left: Node, l: Avl, key: Bytes, value: Bytes, version: nat)
    requires Insertable(H, db, node, t, version) && t.Inner? && Less(key, t.key)
    requires Rep(H, db, left, l) && Updated(t.left, key, value, version, l)
    ensures Measures(H, db, WithLeft(H, node, left), Remeasure(db, WithLeft(H, node, left), version),
                     Join(t.key, version, l, t.right), t, key, value, version)
  {
    RepHash(H, db, left, l);
    LeftSetMeans(t, t.(left := l), key, value, version);
    MeasuredIsUpdated(H, db, WithLeft(H, node, left), t, t.(left := l), key, value, version);
  }

  lemma RightInstalled(H: Hasher, db: Db, node: Node, t: Avl, right: Node, r: Avl, key: Bytes, value: Bytes, version: nat)
    requires Insertable(H, db, node, t, version) && t.Inner? && AtMost(t.key, key)
    requires Rep(H, db, right, r) && Updated(t.right, key, value, version, r)
    ensures Measures(H, db, WithRight(H, node, right), Remeasure(db, WithRight(H, node, right), version),
                     Join(t.key, version, t.left, r), t, key, value, version)
  {
    RepHash(H, db, right, r);
    RightSetMeans(t, t.(right := r), key, value, version);
    MeasuredIsUpdated(H, db, WithRight(H, node, right), t, t.(right := r), key, value, version);
  }

  /** No rotation below this node moves what is not in memory. */
  predicate SafeBelow(c: CaseTwo, t: Avl, l: Loads, k: Bytes, v: Bytes, version: nat)
    requires t.Inner? && l.Present?
  {
    if Less(k, t.key) then Safe(c, t.left, Opened(l.left), k, v, version) else Safe(c, t.right, Opened(l.right), k, v, version)
  }

  lemma LeftGrows(H: Hasher, db: Db, exact: bool, node: Node, t: Avl, key: Bytes, value: Bytes, version: nat,
                  s: Option<Avl>, ls: Loads, left: Option<Node>, l: Avl) returns (t': Avl)
    requires Insertable(H, db, node, t, version) && t.Inner? && node.InnerNode? && Less(key, t.key)
    requires Inserted(H, db, version, exact, t.left, key, value, s, ls, left, l)
    ensures var r := if left.Some? then Remeasure(db, WithLeft(H, node, left.value), version) else None;
            && Inserted(H, db, version, exact, t, key, value, if s.Some? then Join(t.key, version, s.value, t.right) else None,
                        Present(ls, SlotLoads(node.right)), r, t')
            && (r.Some? ==> t'.Inner?)
  {
    hide IavlDb.Rep, IavlHash.RootHash, Updated, Remeasure;
    t' := t;
    if left.Some? {
      LeftInstalled(H, db, node, t, left.value, l, key, value, version);
      if Join(t.key, version, l, t.right).Some? { t' := Join(t.key, version, l, t.right).value; }
      assert LoadsOf(WithLeft(H, node, left.value)) == Present(LoadsOf(left.value), SlotLoads(node.right));
    }
  }

  lemma RightGrows(H: Hasher, db: Db, exact: bool, node: Node, t: Avl, key: Bytes, value: Bytes, version: nat,
                   s: Option<Avl>, ls: Loads, right: Option<Node>, r: Avl) returns (t': Avl)
    requires Insertable(H, db, node, t, version) && t.Inner? && node.InnerNode? && AtMost(t.key, key)
    requires Inserted(H, db, version, exact, t.right, key, value, s, ls, right, r)
    ensures var n := if right.Some? then Remeasure(db, WithRight(H, node, right.value), version) else None;
            && Inserted(H, db, version, exact, t, key, value, if s.Some? then Join(t.key, version, t.left, s.value) else None,
                        Present(SlotLoads(node.left), ls), n, t')
            && (n.Some? ==> t'.Inner?)
  {
    hide IavlDb.Rep, IavlHash.RootHash, Updated, Remeasure;
    t' := t;
    if right.Some? {
      RightInstalled(H, db, node, t, right.value, r, key, value, version);
      if Join(t.key, version, t.left, r).Some? { t' := Join(t.key, version, t.left, r).value; }
      assert LoadsOf(WithRight(H, node, right.value)) == Present(SlotLoads(node.left), LoadsOf(right.value));
    }
  }

  lemma {:induction false} GrownMeans(H: Hasher, code: Code, db: Db, node: Node, t: Avl, key: Bytes, value: Bytes, version: nat)
    returns (t': Avl)
    requires Insertable(H, db, node, t, version) && t.Inner?
    ensures Inserted(H, db, version, Exact(code, SafeBelow(code.caseTwo, t, LoadsOf(node), key, value, version)), t, key, value,
                     Grown(code.caseTwo, t, key, value, version), GrownLoads(code.caseTwo, t, LoadsOf(node), key, value, version),
                     GrownNode(H, code, db, node, key, value, version, t), t')
    ensures GrownNode(H, code, db, node, key, value, version, t).Some? ==> t'.Inner?
    decreases t, 0
  {
    hide IavlDb.Rep, IavlHash.RootHash, Inserted, Safe, IavlSpec.SearchTree, IavlSpec.Join, Remeasure;
    ChildInsertable(H, db, node, t, version);
    ChildTaken(H, db, node, t, version);
    TurnedStands(H, db, node, t);
    var safe := Exact(code, SafeBelow(code.caseTwo, t, LoadsOf(node), key, value, version));
    if Less(key, t.key) {
      var left, s := LeftOf(db, node).value, Set(code.caseTwo, t.left, key, value, version);
      var l := SetNodeMeans(H, code, db, left, t.left, key, value, version);
      t' := LeftGrows(H, db, safe, node, t, key, value, version, s, SetLoads(code.caseTwo, t.left, LoadsOf(left), key, value, version),
                      SetNode(H, code, db, left, key, value, version, t.left), l);
    } else {
      var right, s := RightOf(db, node).value, Set(code.caseTwo, t.right, key, value, version);
      var r := SetNodeMeans(H, code, db, right, t.right, key, value, version);
      t' := RightGrows(H, db, safe, node, t, key, value, version, s, SetLoads(code.caseTwo, t.right, LoadsOf(right), key, value, version),
                       SetNode(H, code, db, right, key, value, version, t.right), r);
    }
  }

  /** Whenever the insertion returns, the node stands for the old map updated at the key; and if no
      hash is read but straight, it stands for exactly the tree meant. */
  lemma {:induction false} SetNodeMeans(H: Hasher, code: Code, db: Db, node: Node, t: Avl, key: Bytes, value: Bytes, version: nat)
    returns (t': Avl)
    requires Insertable(H, db, node, t, version)
    ensures Inserted(H, db, version, Exact(code, Safe(code.caseTwo, t, LoadsOf(node), key, value, version)), t, key, value,
                     Set(code.caseTwo, t, key, value, version), SetLoads(code.caseTwo, t, LoadsOf(node), key, value, version),
                     SetNode(H, code, db, node, key, value, version, t), t')
    decreases t, 1
  {
    hide IavlHash.RootHash, LoadsOf, RebalanceSafe, RebalanceLoads, RebalancedNode, IavlSpec.Rebalance;
    if t.Leaf? {
      SetLeafMeans(H, db, node, t, key, value, version);
      SetLeafLoads(H, code.caseTwo, node, t, key, value, version);
      t' := SetLeaf(t, key, value, version);
    } else {
      var g := GrownMeans(H, code, db, node, t, key, value, version);
      var grown := GrownNode(H, code, db, node, key, value, version, t);
      t' := t;
      if grown.Some? {
        t' := RebalanceMeans(H, code, db, grown.value, g, key, version);
      }
    }
  }

  /** The recursive call, the new child hash, and the new measures. */
  method Grow(H: Hasher, code: Code, db: Db, node: Node, key: Bytes, value: Bytes, version: nat, ghost t: Avl)
    returns (r: Option<Node>)
    requires Insertable(H, db, node, t, version) && t.Inner?
    ensures r == GrownNode(H, code, db, node, key, value, version, t)
    decreases t, 0
  {
    ChildInsertable(H, db, node, t, version);
    if Less(key, node.key) {
      var left, _ := RecursiveSet(H, code, db, LeftOf(db, node).value, key, value, version, t.left);
      if left.None? {
        return None;
      }
      r := Remeasure(db, WithLeft(H, node, left.value), version);
    } else {
      var right, _ := RecursiveSet(H, code, db, RightOf(db, node).value, key, value, version, t.right);
      if right.None? {
        return None;
      }
      r := Remeasure(db, WithRight(H, node, right.value), version);
    }
  }

  /** One insertion, `None` being a panic. As written it may read stale hashes once part of the tree
      is absent; whenever it returns, the node stands for the old map updated at the key, and if all
      that moves is in memory it returns exactly when the tree's insertion does, with its result. */
  method RecursiveSet(H: Hasher, code: Code, db: Db, node: Node, key: Bytes, value: Bytes, version: nat, ghost t: Avl)
    returns (r: Option<Node>, ghost t': Avl)
    requires Insertable(H, db, node, t, version)
    ensures r == SetNode(H, code, db, node, key, value, version, t)
    ensures Inserted(H, db, version, Exact(code, Safe(code.caseTwo, t, LoadsOf(node), key, value, version)), t, key, value,
                     Set(code.caseTwo, t, key, value, version), SetLoads(code.caseTwo, t, LoadsOf(node), key, value, version), r, t')
    decreases t, 1
  {
    hide IavlHash.RootHash, IavlSpec.SearchTree, IavlSpec.Contents, IavlSpec.Set, Safe, SetLoads, RebalancedNode, Rebalanced, LoadsOf;
    t' := SetNodeMeans(H, code, db, node, t, key, value, version);
    if node.LeafNode? {
      return Some(SetLeafOf(H, node, key, value, version)), t';
    }
    var grown := Grow(H, code, db, node, key, value, version, t);
    if grown.None? {
      return None, t';
    }
    ghost var g := GrownMeans(H, code, db, node, t, key, value, version);
    ghost var u;
    r, u := RebalanceNode(H, code, db, grown.value, key, version, g);
  }
}
