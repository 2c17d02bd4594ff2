/** Which nodes of a tree are in memory, and when an insertion rotates only what is. A rotation moves one
    subtree and, as written, looks it up by a hash that is not its own unless it is in memory. */
module IavlLoads {
  import opened ByteStrings
  import opened IavlNode
  import opened IavlSpec

  /** The part of a tree that is in memory; the children of a leaf count as absent. */
  datatype Loads = Absent | Present(left: Loads, right: Loads)

  function LoadsOf(node: Node): (l: Loads)
    ensures l.Present?
    decreases node, 0
  {
    if node.LeafNode? then Present(Absent, Absent) else Present(SlotLoads(node.left), SlotLoads(node.right))
  }

  function SlotLoads(child: Option<Node>): Loads
    decreases child, 1
  {
    if child.None? then Absent else LoadsOf(child.value)
  }

  /** After the node itself is loaded; from the database it comes without children. */
  function Opened(l: Loads): (o: Loads)
    ensures o.Present?
  {
    if l.Absent? then Present(Absent, Absent) else l
  }

  // ---------------------------------------------------------------- rotations

  function TurnRightLoads(l: Loads): Loads
    requires l.Present?
  {
    var y := Opened(l.left);
    Present(y.left, Present(y.right, l.right))
  }

  function TurnLeftLoads(l: Loads): Loads
    requires l.Present?
  {
    var y := Opened(l.right);
    Present(Present(l.left, y.left), y.right)
  }

  /** The subtree a right rotation moves is in memory, if there is one to move. */
  predicate RightSafe(t: Avl, l: Loads)
    requires l.Present?
  {
    t.Inner? && t.left.Inner? ==> Opened(l.left).right.Present?
  }

  predicate LeftSafe(t: Avl, l: Loads)
    requires l.Present?
  {
    t.Inner? && t.right.Inner? ==> Opened(l.right).left.Present?
  }

  /** The four cases, or none. */
  datatype Case = Still | CaseOne | CaseTwo | CaseThree | CaseFour

  function CaseOf(t: Avl, k: Bytes): Case
    requires t.Inner?
  {
    var balance := t.left.GetHeight() - t.right.GetHeight();
    if balance > 1 then (if Less(k, t.left.key) then CaseOne else CaseTwo)
    else if balance < -1 then (if Less(t.right.key, k) then CaseThree else CaseFour)
    else Still
  }

  /** The node a double rotation lifts has both children in memory, if it is an inner node. */
  predicate PivotSafe(pivot: Avl, l: Loads)
  {
    pivot.Inner? ==> Opened(l).left.Present? && Opened(l).right.Present?
  }

  /** Rebalancing the grown node `t` moves only subtrees that are in memory. Case 2 as written moves the
      near subtree of the sibling, there and back. */
  predicate RebalanceSafe(c: CaseTwo, t: Avl, l: Loads, k: Bytes)
    requires t.Inner? && l.Present?
  {
    match CaseOf(t, k)
    case Still => true
    case CaseOne => RightSafe(t, l)
    case CaseTwo => if c.AsWritten? then LeftSafe(t, l) else t.left.Inner? ==> PivotSafe(t.left.right, Opened(l.left).right)
    case CaseThree => LeftSafe(t, l)
    case CaseFour => t.right.Inner? ==> PivotSafe(t.right.left, Opened(l.right).left)
  }

  /** What is in memory after rebalancing. */
  function RebalanceLoads(c: CaseTwo, t: Avl, l: Loads, k: Bytes): (r: Loads)
    requires t.Inner? && l.Present?
    ensures r.Present?
  {
    var left, right := Present(Opened(l.left), l.right), Present(l.left, Opened(l.right));
    match CaseOf(t, k)
    case Still => l
    case CaseOne => TurnRightLoads(left)
    case CaseTwo =>
      if c.AsWritten? then TurnRightLoads(TurnLeftLoads(left)) else TurnRightLoads(Present(TurnLeftLoads(left.left), left.right))
    case CaseThree => TurnLeftLoads(right)
    case CaseFour => TurnLeftLoads(Present(right.left, TurnRightLoads(right.right)))
  }

  // ---------------------------------------------------------------- insertions

  /** What is in memory after an insertion. */
  function SetLoads(c: CaseTwo, t: Avl, l: Loads, k: Bytes, v: Bytes, version: nat): (r: Loads)
    requires l.Present?
    ensures r.Present?
    decreases t, 1
  {
    var leaf := Present(Absent, Absent);
    if t.Leaf? then (if k == t.key then leaf else Present(leaf, leaf))
    else
      var grown := GrownLoads(c, t, l, k, v, version);
      var t' := Grown(c, t, k, v, version);
      if t'.None? then grown else RebalanceLoads(c, t'.value, grown, k)
  }

  /** What is in memory after the recursive insertion: the search path, and what was before. */
  function GrownLoads(c: CaseTwo, t: Avl, l: Loads, k: Bytes, v: Bytes, version: nat): (r: Loads)
    requires t.Inner? && l.Present?
    ensures r.Present?
    decreases t, 0
  {
    if Less(k, t.key) then Present(SetLoads(c, t.left, Opened(l.left), k, v, version), l.right)
    else Present(l.left, SetLoads(c, t.right, Opened(l.right), k, v, version))
  }

  /** No rotation of the insertion moves a subtree that is not in memory. Told before the call, from the
      tree, the key, and what is in memory. */
  predicate Safe(c: CaseTwo, t: Avl, l: Loads, k: Bytes, v: Bytes, version: nat)
    requires l.Present?
  {
    t.Inner? ==>
      && (if Less(k, t.key) then Safe(c, t.left, Opened(l.left), k, v, version)
          else Safe(c, t.right, Opened(l.right), k, v, version))
      && var t' := Grown(c, t, k, v, version);
         (t'.Some? ==> RebalanceSafe(c, t'.value, GrownLoads(c, t, l, k, v, version), k))
  }

  // ---------------------------------------------------------------- wholly loaded trees

  /** All of `t` is in memory. */
  predicate Whole(t: Avl, l: Loads)
  {
    l.Present? && (t.Inner? ==> Whole(t.left, l.left) && Whole(t.right, l.right))
  }

  lemma WholeTurns(t: Avl, l: Loads, version: nat)
    requires t.Inner? && Whole(t, l)
    ensures RightSafe(t, l) && LeftSafe(t, l)
    ensures var r := TurnRight(t, version); r.Some? ==> r.value.Inner? && Whole(r.value, TurnRightLoads(l))
    ensures var r := TurnLeft(t, version); r.Some? ==> r.value.Inner? && Whole(r.value, TurnLeftLoads(l))
  {
    assert t.left.Inner? ==> Whole(t.left.left, l.left.left) && Whole(t.left.right, l.left.right);
    assert t.right.Inner? ==> Whole(t.right.left, l.right.left) && Whole(t.right.right, l.right.right);
  }

  lemma WholeRebalance(c: CaseTwo, t: Avl, l: Loads, k: Bytes, version: nat)
    requires t.Inner? && Whole(t, l)
    ensures RebalanceSafe(c, t, l, k)
    ensures Rebalance(c, t, k, version).Some? ==> Whole(Rebalance(c, t, k, version).value, RebalanceLoads(c, t, l, k))
  {
    hide Whole, TurnRightLoads, TurnLeftLoads, IavlSpec.TurnRight, IavlSpec.TurnLeft;
    WholeChildren(t, l);
    WholeTurns(t, l, version);
    match CaseOf(t, k)
    case Still | CaseOne | CaseThree =>
    case CaseTwo =>
      if c.AsWritten? {
        if TurnLeft(t, version).Some? { WholeTurns(TurnLeft(t, version).value, TurnLeftLoads(l), version); }
      } else if t.left.Inner? {
        WholeChildren(t.left, l.left);
        if t.left.right.Inner? { WholeChildren(t.left.right, l.left.right); }
        WholeTurns(t.left, l.left, version);
        if TurnLeft(t.left, version).Some? {
          var left' := TurnLeft(t.left, version).value;
          WholeJoined(t.(left := left'), Present(TurnLeftLoads(l.left), l.right));
          WholeTurns(t.(left := left'), Present(TurnLeftLoads(l.left), l.right), version);
        }
      }
    case CaseFour =>
      if t.right.Inner? {
        WholeChildren(t.right, l.right);
        if t.right.left.Inner? { WholeChildren(t.right.left, l.right.left); }
        WholeTurns(t.right, l.right, version);
        if TurnRight(t.right, version).Some? {
          var right' := TurnRight(t.right, version).value;
          WholeJoined(t.(right := right'), Present(l.left, TurnRightLoads(l.right)));
          WholeTurns(t.(right := right'), Present(l.left, TurnRightLoads(l.right)), version);
        }
      }
  }

  lemma WholeChildren(t: Avl, l: Loads)
    requires Whole(t, l) && t.Inner?
    ensures l.Present? && Whole(t.left, l.left) && Whole(t.right, l.right)
    ensures l.left.Present? && l.right.Present?
  {
  }

  lemma WholeJoined(t: Avl, l: Loads)
    requires t.Inner? && l.Present? && Whole(t.left, l.left) && Whole(t.right, l.right)
    ensures Whole(t, l)
  {
  }

  /** In a tree wholly in memory every insertion is safe, and leaves it wholly in memory. */
  lemma {:induction false} WholeIsSafe(c: CaseTwo, t: Avl, l: Loads, k: Bytes, v: Bytes, version: nat)
    requires Whole(t, l)
    ensures Safe(c, t, l, k, v, version)
    ensures Set(c, t, k, v, version).Some? ==> Whole(Set(c, t, k, v, version).value, SetLoads(c, t, l, k, v, version))
  {
    if t.Leaf? {
      WholeLeaf(t, k, v, version);
    } else {
      if Less(k, t.key) { WholeIsSafe(c, t.left, l.left, k, v, version); } else { WholeIsSafe(c, t.right, l.right, k, v, version); }
      var t' := Grown(c, t, k, v, version);
      if t'.Some? {
        WholeJoined(t'.value, GrownLoads(c, t, l, k, v, version));
        WholeRebalance(c, t'.value, GrownLoads(c, t, l, k, v, version), k, version);
      }
    }
  }

  lemma WholeLeaf(t: Avl, k: Bytes, v: Bytes, version: nat)
    requires t.Leaf?
    ensures var leaf := Present(Absent, Absent);
            Whole(SetLeaf(t, k, v, version), if k == t.key then leaf else Present(leaf, leaf))
  {
    var t', leaf := SetLeaf(t, k, v, version), Present(Absent, Absent);
    LessIrreflexive(k);
    if t'.Inner? { assert Whole(t'.left, leaf) && Whole(t'.right, leaf); }
  }
}
