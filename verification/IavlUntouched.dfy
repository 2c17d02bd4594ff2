/** What an insertion leaves alone: every subtree beside the search path that no rotation takes apart is still
    there, and whatever is new carries the version of the insertion. */
module IavlUntouched {
  import opened ByteStrings
  import opened IavlNode
  import opened IavlSpec
  import opened IavlBalance
  import opened IavlDb

  /** The subtrees beside the search path of `k`, and the leaf it ends on if that is another key's. */
  function Beside(t: Avl, k: Bytes): set<Avl>
  {
    if t.Leaf? then (if t.key == k then {} else {t})
    else if Less(k, t.key) then {t.right} + Beside(t.left, k)
    else {t.left} + Beside(t.right, k)
  }

  /** The children and grandchildren that rebalancing takes apart. As written, Case 2 takes the right child apart
      and puts it together again. */
  function TakenApart(c: CaseTwo, t: Avl, k: Bytes): set<Avl>
    requires t.Inner?
  {
    var balance := t.left.GetHeight() - t.right.GetHeight();
    if balance > 1 then
      if Less(k, t.left.key) then {t.left}
      else if c.AsWritten? then {t.right}
      else if t.left.Inner? then {t.left, t.left.right}
      else {}
    else if balance < -1 then
      if Less(t.right.key, k) then {t.right}
      else if t.right.Inner? then {t.right, t.right.left}
      else {}
    else {}
  }

  /** All that the rotations of an insertion take apart, from the leaf up. */
  function Opened(c: CaseTwo, t: Avl, k: Bytes, v: Bytes, version: nat): set<Avl>
  {
    if t.Leaf? || Grown(c, t, k, v, version).None? then {}
    else
      (if Less(k, t.key) then Opened(c, t.left, k, v, version) else Opened(c, t.right, k, v, version))
      + TakenApart(c, Grown(c, t, k, v, version).value, k)
  }

  // ---------------------------------------------------------------- what stays

  lemma {:induction false} SmallerBelow(t: Avl, s: Avl)
    requires s in Subtrees(t)
    ensures LeafCount(s) <= LeafCount(t) && (s != t ==> LeafCount(s) < LeafCount(t)) && LeafCount(s) >= 1
  {
    LeafCountPositive(t);
    if s != t {
      LeafCountPositive(t.left);
      LeafCountPositive(t.right);
      if s in Subtrees(t.left) { SmallerBelow(t.left, s); } else { SmallerBelow(t.right, s); }
    }
  }

  lemma {:induction false} LeafCountPositive(t: Avl)
    ensures LeafCount(t) >= 1
  {
    if t.Inner? {
      LeafCountPositive(t.left);
      LeafCountPositive(t.right);
    }
  }

  lemma RightTurnKeeps(t: Avl, version: nat, s: Avl)
    requires t.Inner? && TurnRight(t, version).Some? && s in Subtrees(t) && s != t && s != t.left
    ensures s in Subtrees(TurnRight(t, version).value)
  {
  }

  lemma LeftTurnKeeps(t: Avl, version: nat, s: Avl)
    requires t.Inner? && TurnLeft(t, version).Some? && s in Subtrees(t) && s != t && s != t.right
    ensures s in Subtrees(TurnLeft(t, version).value)
  {
  }

  lemma {:induction false} KeysBelow(t: Avl, s: Avl)
    requires s in Subtrees(t)
    ensures Contents(s).Keys <= Contents(t).Keys
  {
    if s != t {
      if s in Subtrees(t.left) { KeysBelow(t.left, s); } else { KeysBelow(t.right, s); }
    }
  }

  /** What is on one side is not anything with a key of the other. */
  lemma SidesApart(t: Avl, s: Avl, u: Avl)
    requires SearchTree(t) && t.Inner?
    requires (s in Subtrees(t.left) && FirstKey(t.right) in Contents(u)) || (s in Subtrees(t.right) && FirstKey(t.left) in Contents(u))
    ensures s != u
  {
    var left, right := FirstKey(t.left), FirstKey(t.right);
    assert Less(left, t.key) && AtMost(t.key, right);
    if s in Subtrees(t.left) && right in Contents(u) { KeysBelow(t.left, s); }
    if s in Subtrees(t.right) && left in Contents(u) { KeysBelow(t.right, s); }
  }

  /** A turn keeps the number of leaves, and puts what was beside the child opened under a new node. */
  lemma LeftTurnShape(t: Avl, version: nat)
    requires t.Inner? && TurnLeft(t, version).Some?
    ensures var u := TurnLeft(t, version).value;
            && u.Inner? && LeafCount(u) == LeafCount(t) && LeafCount(u.left) > LeafCount(t.left)
            && FirstKey(t.left) in Contents(u.left) && FirstKey(t) in Contents(u)
  {
    LeafCountPositive(t.right.left);
  }

  lemma RightTurnShape(t: Avl, version: nat)
    requires t.Inner? && TurnRight(t, version).Some?
    ensures var u := TurnRight(t, version).value;
            && u.Inner? && LeafCount(u) == LeafCount(t) && FirstKey(t) in Contents(u)
  {
  }

  /** As written, Case 2 takes apart the right child and what it has just made. */
  lemma WrittenKeeps(t: Avl, version: nat, s: Avl)
    requires t.Inner? && SearchTree(t) && CaseTwoRotate(AsWritten, t, version).Some?
    requires s in Subtrees(t) && s != t && s != t.right
    ensures s in Subtrees(CaseTwoRotate(AsWritten, t, version).value)
  {
    hide Contents, SearchTree, TurnLeft, TurnRight, FirstKey;
    var turned := TurnLeft(t, version).value;
    LeftTurnShape(t, version);
    SmallerBelow(t, s);
    LeftTurnKeeps(t, version, s);
    if s in Subtrees(t.left) { SmallerBelow(t.left, s); } else { SidesApart(t, s, turned.left); }
    RightTurnKeeps(turned, version, s);
  }

  lemma MeantKeeps(t: Avl, version: nat, s: Avl)
    requires t.Inner? && SearchTree(t) && CaseTwoRotate(LeftChildFirst, t, version).Some?
    requires s in Subtrees(t) && s != t && (t.left.Inner? ==> s != t.left && s != t.left.right)
    ensures s in Subtrees(CaseTwoRotate(LeftChildFirst, t, version).value)
  {
    hide Contents, SearchTree, TurnLeft, TurnRight, FirstKey;
    TurnsOnlyInner(t.left, version);
    var left' := TurnLeft(t.left, version).value;
    LeftTurnShape(t.left, version);
    SmallerBelow(t, s);
    if s in Subtrees(t.left) {
      SmallerBelow(t.left, s);
      LeftTurnKeeps(t.left, version, s);
    } else {
      SidesApart(t, s, left');
    }
    RightTurnKeeps(t.(left := left'), version, s);
  }

  lemma CaseFourKeeps(t: Avl, version: nat, s: Avl)
    requires t.Inner? && SearchTree(t) && CaseFourRotate(t, version).Some?
    requires s in Subtrees(t) && s != t && (t.right.Inner? ==> s != t.right && s != t.right.left)
    ensures s in Subtrees(CaseFourRotate(t, version).value)
  {
    hide Contents, SearchTree, TurnLeft, TurnRight, FirstKey;
    TurnsOnlyInner(t.right, version);
    var right' := TurnRight(t.right, version).value;
    RightTurnShape(t.right, version);
    SmallerBelow(t, s);
    if s in Subtrees(t.right) {
      SmallerBelow(t.right, s);
      RightTurnKeeps(t.right, version, s);
    } else {
      SidesApart(t, s, right');
    }
    LeftTurnKeeps(t.(right := right'), version, s);
  }

  lemma TurnsOnlyInner(t: Avl, version: nat)
    ensures TurnLeft(t, version).Some? || TurnRight(t, version).Some? ==> t.Inner?
  {
  }

  lemma RebalanceKeeps(c: CaseTwo, t: Avl, k: Bytes, version: nat, s: Avl)
    requires t.Inner? && SearchTree(t) && Rebalance(c, t, k, version).Some?
    requires s in Subtrees(t) && s != t && s !in TakenApart(c, t, k)
    ensures s in Subtrees(Rebalance(c, t, k, version).value)
  {
    hide SearchTree, TurnLeft, TurnRight, CaseTwoRotate, CaseFourRotate, Subtrees;
    var balance := t.left.GetHeight() - t.right.GetHeight();
    if balance > 1 {
      if Less(k, t.left.key) {
        RightTurnKeeps(t, version, s);
      } else if c.AsWritten? {
        WrittenKeeps(t, version, s);
      } else {
        MeantKeeps(t, version, s);
      }
    } else if balance < -1 {
      if Less(t.right.key, k) { LeftTurnKeeps(t, version, s); } else { CaseFourKeeps(t, version, s); }
    }
  }

  // ---------------------------------------------------------------- a whole insertion

  lemma GrownSearch(c: CaseTwo, t: Avl, k: Bytes, v: Bytes, version: nat)
    requires SearchTree(t) && t.Inner? && Grown(c, t, k, v, version).Some?
    ensures SearchTree(t.left) && SearchTree(t.right) && SearchTree(Grown(c, t, k, v, version).value)
  {
    var t' := Grown(c, t, k, v, version).value;
    if Less(k, t.key) {
      SetMeansUpdate(c, t.left, k, v, version);
      LeftSetMeans(t, t', k, v, version);
    } else {
      SetMeansUpdate(c, t.right, k, v, version);
      RightSetMeans(t, t', k, v, version);
    }
  }

  lemma InGrown(c: CaseTwo, t: Avl, k: Bytes, v: Bytes, version: nat, s: Avl)
    requires t.Inner? && Grown(c, t, k, v, version).Some?
    requires if Less(k, t.key) then s == t.right || s in Subtrees(Set(c, t.left, k, v, version).value)
             else s == t.left || s in Subtrees(Set(c, t.right, k, v, version).value)
    ensures s in Subtrees(Grown(c, t, k, v, version).value) && s != Grown(c, t, k, v, version).value
  {
    hide Set;
    var grown := Grown(c, t, k, v, version).value;
    LeafCountPositive(grown.left);
    LeafCountPositive(grown.right);
    if s in Subtrees(grown.left) { SmallerBelow(grown.left, s); }
    if s in Subtrees(grown.right) { SmallerBelow(grown.right, s); }
  }

  /** A subtree beside the search path stays a subtree, unless a rotation takes it apart. */
  lemma {:induction false} BesideStays(c: CaseTwo, t: Avl, k: Bytes, v: Bytes, version: nat, s: Avl)
    requires SearchTree(t) && Set(c, t, k, v, version).Some?
    requires s in Beside(t, k) && s !in Opened(c, t, k, v, version)
    ensures s in Subtrees(Set(c, t, k, v, version).value)
  {
    hide Rebalance, TakenApart, SearchTree, Contents, Subtrees;
    if t.Leaf? {
      LeafStays(t, k, v, version);
    } else {
      GrownSearch(c, t, k, v, version);
      var side := if Less(k, t.key) then t.left else t.right;
      if s in Beside(side, k) { BesideStays(c, side, k, v, version, s); }
      InGrown(c, t, k, v, version, s);
      RebalanceKeeps(c, Grown(c, t, k, v, version).value, k, version, s);
    }
  }

  lemma LeafStays(t: Avl, k: Bytes, v: Bytes, version: nat)
    requires t.Leaf? && t.key != k
    ensures t in Subtrees(SetLeaf(t, k, v, version))
  {
  }

  // ---------------------------------------------------------------- balanced trees

  lemma {:induction false} BesideLacks(t: Avl, k: Bytes, s: Avl)
    requires SearchTree(t) && s in Beside(t, k)
    ensures k !in Contents(s)
  {
    if t.Inner? {
      if s in Beside(if Less(k, t.key) then t.left else t.right, k) {
        BesideLacks(if Less(k, t.key) then t.left else t.right, k, s);
      } else {
        LessIrreflexive(k);
      }
    }
  }

  lemma OnRight(t: Avl, k: Bytes)
    requires SearchTree(t) && t.Inner? && k in Contents(t)
    ensures if Less(k, t.key) then k in Contents(t.left) else k in Contents(t.right)
  {
  }

  /** Rebalancing above a side that grew takes apart only what holds the key. */
  lemma LevelOpensPath(t: Avl, k: Bytes, grown: Avl, s: Avl)
    requires t.Inner? && SearchTree(t) && Measured(t) && Balanced(t) && grown.Inner? && SearchTree(grown) && Measured(grown)
    requires if Less(k, t.key) then grown.right == t.right && IntendedResult(t.left, k, Some(grown.left)) && k in Contents(grown.left)
             else grown.left == t.left && IntendedResult(t.right, k, Some(grown.right)) && k in Contents(grown.right)
    requires s in TakenApart(LeftChildFirst, grown, k)
    ensures k in Contents(s)
  {
    hide Contents;
    if Less(k, t.key) {
      if grown.left.Inner? { OnRight(grown.left, k); }
    } else {
      if grown.right.Inner? {
        OnRight(grown.right, k);
        LessTotal(grown.right.key, k);
        if t.right.Inner? && k == t.right.key { SeparatorNeverGrows(t); }
      }
    }
  }

  /** With Case 2 as meant, the rotations of a balanced tree take apart only what holds the key. */
  lemma {:induction false} MeantOpensPath(t: Avl, k: Bytes, v: Bytes, version: nat, s: Avl)
    requires SearchTree(t) && Measured(t) && Balanced(t) && LeafCount(t) < MAX_U32 && RealHeight(t) <= 200
    requires s in Opened(LeftChildFirst, t, k, v, version)
    ensures k in Contents(s)
  {
    hide TakenApart, SearchTree, Balanced, IntendedResult;
    var grown := Grown(LeftChildFirst, t, k, v, version).value;
    var side := if Less(k, t.key) then t.left else t.right;
    BelowMeant(t);
    if s in Opened(LeftChildFirst, side, k, v, version) {
      MeantOpensPath(side, k, v, version, s);
    } else {
      IntendedInduction(side, k, v, version);
      SetMeansUpdate(LeftChildFirst, side, k, v, version);
      GrownSearch(LeftChildFirst, t, k, v, version);
      GrownMeasured(t, k, v, version);
      LevelOpensPath(t, k, grown, s);
    }
  }

  lemma BelowMeant(t: Avl)
    requires t.Inner? && SearchTree(t) && Measured(t) && Balanced(t) && LeafCount(t) < MAX_U32 && RealHeight(t) <= 200
    ensures forall u :: u in {t.left, t.right} ==>
              SearchTree(u) && Measured(u) && Balanced(u) && LeafCount(u) < MAX_U32 && RealHeight(u) <= 200
  {
    LeafCountPositive(t.left);
    LeafCountPositive(t.right);
  }

  lemma GrownMeasured(t: Avl, k: Bytes, v: Bytes, version: nat)
    requires t.Inner? && Measured(t) && Grown(LeftChildFirst, t, k, v, version).Some?
    ensures Measured(Grown(LeftChildFirst, t, k, v, version).value)
  {
    if Less(k, t.key) { SetMeasured(LeftChildFirst, t.left, k, v, version); } else { SetMeasured(LeftChildFirst, t.right, k, v, version); }
  }

  /** So a balanced tree keeps everything beside the search path. */
  lemma MeantKeepsBeside(t: Avl, k: Bytes, v: Bytes, version: nat)
    requires SearchTree(t) && Measured(t) && Balanced(t) && LeafCount(t) < MAX_U32
    ensures Set(LeftChildFirst, t, k, v, version).Some?
    ensures Beside(t, k) <= Subtrees(Set(LeftChildFirst, t, k, v, version).value)
  {
    hide Beside, Opened, Subtrees, SearchTree, Balanced, Measured, Set;
    HeightFits(t);
    IntendedKeepsBalance(t, k, v, version);
    forall s | s in Beside(t, k) ensures s in Subtrees(Set(LeftChildFirst, t, k, v, version).value) {
      BesideLacks(t, k, s);
      if s in Opened(LeftChildFirst, t, k, v, version) { MeantOpensPath(t, k, v, version, s); }
      BesideStays(LeftChildFirst, t, k, v, version, s);
    }
  }

  // ---------------------------------------------------------------- what is new

  /** All the way down, one of these or of the new version. */
  predicate OldOrNew(t: Avl, known: set<Avl>, version: nat)
  {
    (t in known || t.version == version) && (t.Inner? ==> OldOrNew(t.left, known, version) && OldOrNew(t.right, known, version))
  }

  lemma {:induction false} OldIsOld(t: Avl, known: set<Avl>, version: nat)
    requires Subtrees(t) <= known
    ensures OldOrNew(t, known, version)
  {
    assert t in Subtrees(t);
    if t.Inner? {
      OldIsOld(t.left, known, version);
      OldIsOld(t.right, known, version);
    }
  }

  lemma {:induction false} OldOrNewBelow(t: Avl, known: set<Avl>, version: nat, s: Avl)
    requires OldOrNew(t, known, version) && s in Subtrees(t)
    ensures s in known || s.version == version
  {
    if s != t { OldOrNewBelow(if s in Subtrees(t.left) then t.left else t.right, known, version, s); }
  }

  lemma TurnedNew(t: Avl, version: nat, known: set<Avl>)
    requires OldOrNew(t, known, version)
    ensures TurnRight(t, version).Some? ==> OldOrNew(TurnRight(t, version).value, known, version)
    ensures TurnLeft(t, version).Some? ==> OldOrNew(TurnLeft(t, version).value, known, version)
  {
  }

  lemma RebalancedNew(c: CaseTwo, t: Avl, k: Bytes, version: nat, known: set<Avl>)
    requires t.Inner? && t.version == version && Rebalance(c, t, k, version).Some? && OldOrNew(t, known, version)
    ensures OldOrNew(Rebalance(c, t, k, version).value, known, version)
  {
    hide TurnLeft, TurnRight;
    TurnedNew(t, version, known);
    TurnedNew(t.left, version, known);
    TurnedNew(t.right, version, known);
    var balance := t.left.GetHeight() - t.right.GetHeight();
    if balance > 1 && !Less(k, t.left.key) {
      if c.AsWritten? {
        TurnedNew(TurnLeft(t, version).value, version, known);
      } else {
        TurnedNew(t.(left := TurnLeft(t.left, version).value), version, known);
      }
    } else if balance < -1 && !Less(t.right.key, k) {
      TurnedNew(t.(right := TurnRight(t.right, version).value), version, known);
    }
  }

  lemma {:induction false} SetIsNew(c: CaseTwo, t: Avl, k: Bytes, v: Bytes, version: nat, known: set<Avl>)
    requires Set(c, t, k, v, version).Some? && Subtrees(t) <= known
    ensures OldOrNew(Set(c, t, k, v, version).value, known, version)
  {
    hide Rebalance;
    OldIsOld(t, known, version);
    if t.Inner? {
      SetIsNew(c, if Less(k, t.key) then t.left else t.right, k, v, version, known);
      RebalancedNew(c, Grown(c, t, k, v, version).value, k, version, known);
    }
  }

  /** Every subtree of the result was there before, or carries the version of the insertion. */
  lemma NewIsStamped(c: CaseTwo, t: Avl, k: Bytes, v: Bytes, version: nat, s: Avl)
    requires Set(c, t, k, v, version).Some? && s in Subtrees(Set(c, t, k, v, version).value)
    ensures s in Subtrees(t) || s.version == version
  {
    hide Set;
    SetIsNew(c, t, k, v, version, Subtrees(t));
    OldOrNewBelow(Set(c, t, k, v, version).value, Subtrees(t), version, s);
  }
}
