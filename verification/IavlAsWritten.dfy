/** What the insertion does to balance as the code stands, with Case 2 turning the node itself left
    and then right, in a tree that is wholly in memory. The outcome is forecast from the tree and the key
    before the call, and the forecast is exact. */
module IavlAsWritten {
  import opened ByteStrings
  import opened IavlNode
  import opened IavlSpec
  import opened IavlBalance

  /** Same, Grew: balanced, at the old height or one more. Tilted: Case 2 has just left this very
      node two higher on the left. Scarred: some node strictly below is out of balance for good;
      the tree may be one taller. Panics: Case 2 met a leaf as right child. */
  datatype Outcome = Same | Grew | Tilted | Scarred(taller: bool) | Panics

  /** Is `k` on the inner side of a left child, where Case 2 applies? */
  predicate InnerLeft(t: Avl, k: Bytes)
    requires t.Inner?
  {
    Less(k, t.key) && !Less(k, t.left.key)
  }

  /** The forecast reads only the keys and heights along the search path of `k`. */
  function Forecast(t: Avl, k: Bytes): Outcome
  {
    if t.Leaf? then (if k == t.key then Same else Grew)
    else
      var lean := Lean(t, k);
      match Forecast(if Less(k, t.key) then t.left else t.right, k)
      case Same => Same
      case Panics => Panics
      case Grew =>
        if lean < 0 then Same
        else if lean == 0 then Grew
        else if !InnerLeft(t, k) then Same
        else if t.right.Leaf? then Panics else Tilted
      case Tilted =>
        if lean < 0 then Scarred(false)
        else if lean == 0 then Scarred(true)
        else Same
      case Scarred(taller) =>
        if !taller || lean < 0 then Scarred(false)
        else if lean == 0 then Scarred(true)
        else Scarred(InnerLeft(t, k))
  }

  function Side(t: Avl, k: Bytes): Avl
    requires t.Inner?
  {
    if Less(k, t.key) then t.left else t.right
  }

  /** Case 2 has just left `t` two higher on the left, its left child leaning inwards. */
  predicate TiltedAt(t: Avl, k: Bytes)
  {
    && t.Inner? && t.left.Inner? && t.right.Inner? && Less(k, t.key)
    && Balanced(t.left) && Balanced(t.right)
    && RealHeight(t.left) == RealHeight(t.right) + 2
    && RealHeight(t.left.left) == RealHeight(t.right)
    && RealHeight(t.left.right) == RealHeight(t.right) + 1
  }

  /** The damage sits deep enough on the side of `k` to survive any rotation at `t` or above it. */
  predicate ScarredAt(t: Avl, k: Bytes)
  {
    && t.Inner? && 1 <= Lean(t, k) <= 2 && Side(t, k).Inner?
    && var s := Side(t, k);
       || !Balanced(s.left) || !Balanced(s.right)
       || (Lean(t, k) == 1 && RealHeight(s.left) == RealHeight(s.right) + 2)
  }

  predicate KeepsSeparator(t: Avl, t': Avl)
  {
    t.Inner? ==> t'.Inner? && t'.key == t.key
  }

  /** What the forecast promises of the result. */
  ghost predicate Delivers(o: Outcome, t: Avl, k: Bytes, r: Option<Avl>)
  {
    if o.Panics? then r.None?
    else
      && r.Some? && Measured(r.value) && LeafCount(r.value) <= LeafCount(t) + 1
      && match o
         case Same => Balanced(r.value) && RealHeight(r.value) == RealHeight(t)
         case Grew => Balanced(r.value) && Taller(t, r.value, k)
         case Tilted => TiltedAt(r.value, k) && KeepsSeparator(t, r.value) && RealHeight(r.value) == RealHeight(t) + 1
         case Scarred(taller) =>
           && !Balanced(r.value)
           && (if taller
               then ScarredAt(r.value, k) && KeepsSeparator(t, r.value) && RealHeight(r.value) == RealHeight(t) + 1
               else RealHeight(r.value) == RealHeight(t))
         case Panics => false
  }

  lemma {:induction false} KnownKeyStaysSame(t: Avl, k: Bytes)
    requires SearchTree(t) && k in Contents(t)
    ensures Forecast(t, k) == Same
  {
    if t.Inner? {
      if Less(k, t.key) { KnownKeyStaysSame(t.left, k); } else { KnownKeyStaysSame(t.right, k); }
    }
  }

  lemma {:induction false} UnbalancedIsHigh(t: Avl)
    requires !Balanced(t)
    ensures RealHeight(t) >= 3
  {
    if t.Inner? {
      if !Balanced(t.left) { UnbalancedIsHigh(t.left); }
      if !Balanced(t.right) { UnbalancedIsHigh(t.right); }
    }
  }

  lemma ScarredIsUnbalanced(t: Avl, k: Bytes)
    requires ScarredAt(t, k)
    ensures !Balanced(Side(t, k)) && !Balanced(t) && RealHeight(t) >= 4
  {
    UnbalancedIsHigh(Side(t, k));
  }

  // ---------------------------------------------------------------- one level, by what happened below

  /** `t'` is `t` with the side of `k` replaced by `side'`, and new measures. */
  predicate Replaced(t: Avl, k: Bytes, side': Avl, t': Avl)
  {
    && t.Inner? && t'.Inner? && t'.key == t.key && Measured(t')
    && (if Less(k, t.key) then t'.left == side' && t'.right == t.right
        else t'.left == t.left && t'.right == side')
  }

  /** A balanced node about to have its `k` side replaced by `side'`. */
  ghost predicate Level(t: Avl, k: Bytes, side': Avl, t': Avl)
  {
    && t.Inner? && Measured(t) && Balanced(t) && Replaced(t, k, side', t')
    && RealHeight(t) <= 200 && LeafCount(t) < MAX_U32
    && LeafCount(side') <= LeafCount(Side(t, k)) + 1
  }

  lemma LevelRoom(t: Avl, k: Bytes, side': Avl, t': Avl)
    requires Level(t, k, side', t') && RealHeight(side') <= RealHeight(Side(t, k)) + 1
    ensures Roomy(205, t'.left, t'.right) && LeafCount(t') <= LeafCount(t) + 1
    ensures Measured(t'.left) && Measured(t'.right)
    ensures RealHeight(side') == RealHeight(Side(t, k)) ==> RealHeight(t') == RealHeight(t) && Lean(t', k) == Lean(t, k)
    ensures RealHeight(side') == RealHeight(Side(t, k)) + 1 ==> Lean(t', k) == Lean(t, k) + 1
  {
  }

  lemma AfterSame(t: Avl, k: Bytes, version: nat, side': Avl, t': Avl)
    requires Level(t, k, side', t') && Delivers(Same, Side(t, k), k, Some(side'))
    ensures Delivers(Same, t, k, Rebalance(AsWritten, t', k, version))
  {
    LevelRoom(t, k, side', t');
  }

  lemma AfterLowScar(t: Avl, k: Bytes, version: nat, side': Avl, t': Avl)
    requires Level(t, k, side', t') && Delivers(Scarred(false), Side(t, k), k, Some(side'))
    ensures Delivers(Scarred(false), t, k, Rebalance(AsWritten, t', k, version))
  {
    LevelRoom(t, k, side', t');
  }

  lemma AfterGrewLeft(t: Avl, k: Bytes, version: nat, side': Avl, t': Avl)
    requires Level(t, k, side', t') && Delivers(Grew, Side(t, k), k, Some(side'))
    requires Less(k, t.key) && Lean(t, k) == 1 && Forecast(Side(t, k), k) == Grew
    ensures Delivers(Forecast(t, k), t, k, Rebalance(AsWritten, t', k, version))
  {
    LevelRoom(t, k, side', t');
    if Less(k, side'.key) { CaseOneRepairs(t', k, version); } else { CaseTwoAsWritten(t', version); }
  }

  lemma AfterGrewRight(t: Avl, k: Bytes, version: nat, side': Avl, t': Avl)
    requires Level(t, k, side', t') && Delivers(Grew, Side(t, k), k, Some(side'))
    requires !Less(k, t.key) && Lean(t, k) == 1 && Forecast(Side(t, k), k) == Grew
    requires t.right.Inner? ==> t.right.key != k
    ensures Delivers(Forecast(t, k), t, k, Rebalance(AsWritten, t', k, version))
  {
    LevelRoom(t, k, side', t');
    LessTotal(side'.key, k);
    if Less(side'.key, k) { CaseThreeRepairs(t', k, version); } else { CaseFourRepairs(t', k, version); }
  }

  lemma AfterGrew(t: Avl, k: Bytes, version: nat, side': Avl, t': Avl)
    requires Level(t, k, side', t') && Delivers(Grew, Side(t, k), k, Some(side'))
    requires t.right.Inner? ==> t.right.key != k
    requires Forecast(Side(t, k), k) == Grew
    ensures Delivers(Forecast(t, k), t, k, Rebalance(AsWritten, t', k, version))
  {
    LevelRoom(t, k, side', t');
    if Lean(t, k) == 1 {
      if Less(k, t.key) { AfterGrewLeft(t, k, version, side', t'); } else { AfterGrewRight(t, k, version, side', t'); }
    }
  }

  /** A tilted left child is put right by the rotation of a node that leans its way. */
  lemma TiltedLeftRepaired(t: Avl, k: Bytes, version: nat)
    requires t.Inner? && Measured(t.left) && Measured(t.right) && Roomy(205, t.left, t.right) && Balanced(t.right)
    requires TiltedAt(t.left, k) && RealHeight(t.left) == RealHeight(t.right) + 2
    ensures Repaired(t, TurnRight(t, version))
  {
    RightRotateShape(t, version);
  }

  lemma TiltedRightRepaired(t: Avl, k: Bytes, version: nat)
    requires t.Inner? && Measured(t.left) && Measured(t.right) && Roomy(205, t.left, t.right) && Balanced(t.left)
    requires TiltedAt(t.right, k) && RealHeight(t.right) == RealHeight(t.left) + 2
    ensures Repaired(t, CaseFourRotate(t, version))
  {
    RightRotateShape(t.right, version);
    var pivot := t.right.left;
    var turned := t.(right := TurnRight(t.right, version).value);
    LeftRotateShape(turned, version);
    var t' := TurnLeft(turned, version).value;
    assert t'.left.left == t.left && t'.left.right == pivot.left;
    assert t'.right.left == pivot.right && t'.right.right == t.right.right;
  }

  lemma AfterTilted(t: Avl, k: Bytes, version: nat, side': Avl, t': Avl)
    requires Level(t, k, side', t') && Delivers(Tilted, Side(t, k), k, Some(side'))
    requires Forecast(Side(t, k), k) == Tilted
    ensures Delivers(Forecast(t, k), t, k, Rebalance(AsWritten, t', k, version))
  {
    LevelRoom(t, k, side', t');
    if Lean(t, k) == 1 {
      if Less(k, t.key) {
        TiltedLeftRepaired(t', k, version);
      } else {
        LessAsymmetric(k, side'.key);
        TiltedRightRepaired(t', k, version);
      }
    }
  }

  lemma ScarAboveCaseOne(t: Avl, k: Bytes, version: nat)
    requires t.Inner? && Measured(t.left) && Measured(t.right) && Roomy(205, t.left, t.right)
    requires ScarredAt(t.left, k) && Less(k, t.left.key) && RealHeight(t.left) == RealHeight(t.right) + 2
    ensures var r := TurnRight(t, version);
            && r.Some? && Measured(r.value) && !Balanced(r.value)
            && RealHeight(r.value) == RealHeight(t.left)
            && LeafCount(r.value) == LeafCount(t.left) + LeafCount(t.right)
  {
    ScarredIsUnbalanced(t.left, k);
    RightRotateShape(t, version);
  }

  lemma ScarAboveCaseThree(t: Avl, k: Bytes, version: nat)
    requires t.Inner? && Measured(t.left) && Measured(t.right) && Roomy(205, t.left, t.right)
    requires ScarredAt(t.right, k) && Less(t.right.key, k) && RealHeight(t.right) == RealHeight(t.left) + 2
    ensures var r := TurnLeft(t, version);
            && r.Some? && Measured(r.value) && !Balanced(r.value)
            && RealHeight(r.value) == RealHeight(t.right)
            && LeafCount(r.value) == LeafCount(t.left) + LeafCount(t.right)
  {
    LessAsymmetric(t.right.key, k);
    ScarredIsUnbalanced(t.right, k);
    LeftRotateShape(t, version);
  }

  lemma ScarAboveCaseFour(t: Avl, k: Bytes, version: nat)
    requires t.Inner? && Measured(t.left) && Measured(t.right) && Roomy(205, t.left, t.right)
    requires ScarredAt(t.right, k) && Less(k, t.right.key) && RealHeight(t.right) == RealHeight(t.left) + 2
    ensures var r := CaseFourRotate(t, version);
            && r.Some? && Measured(r.value) && !Balanced(r.value)
            && RealHeight(r.value) == RealHeight(t.right)
            && LeafCount(r.value) == LeafCount(t.left) + LeafCount(t.right)
  {
    RightRotateShape(t.right, version);
    var pivot := t.right.left;
    var turned := t.(right := TurnRight(t.right, version).value);
    LeftRotateShape(turned, version);
    var t' := TurnLeft(turned, version).value;
    assert t'.left.left == t.left && t'.left.right == pivot.left;
    assert t'.right.left == pivot.right && t'.right.right == t.right.right;
  }

  lemma AfterHighScar(t: Avl, k: Bytes, version: nat, side': Avl, t': Avl)
    requires Level(t, k, side', t') && Delivers(Scarred(true), Side(t, k), k, Some(side'))
    requires Side(t, k).Inner? && side'.key != k
    requires Forecast(Side(t, k), k) == Scarred(true)
    ensures Delivers(Forecast(t, k), t, k, Rebalance(AsWritten, t', k, version))
  {
    LevelRoom(t, k, side', t');
    ScarredIsUnbalanced(side', k);
    if Lean(t, k) == 1 {
      LessTotal(side'.key, k);
      if Less(k, t.key) {
        if Less(k, side'.key) { ScarAboveCaseOne(t', k, version); } else { CaseTwoAsWritten(t', version); }
      } else {
        if Less(side'.key, k) { ScarAboveCaseThree(t', k, version); } else { ScarAboveCaseFour(t', k, version); }
      }
    }
  }

  // ---------------------------------------------------------------- the whole insertion

  lemma LeafDelivers(t: Avl, k: Bytes, v: Bytes, version: nat)
    requires t.Leaf?
    ensures Delivers(Forecast(t, k), t, k, Set(AsWritten, t, k, v, version))
  {
    var t' := SetLeaf(t, k, v, version);
    LessIrreflexive(k);
    assert t'.Inner? ==> Measured(t'.left) && Measured(t'.right) && Balanced(t'.left) && Balanced(t'.right);
  }

  lemma LevelDelivers(t: Avl, k: Bytes, version: nat, side': Avl, t': Avl)
    requires SearchTree(t) && Level(t, k, side', t')
    requires Delivers(Forecast(Side(t, k), k), Side(t, k), k, Some(side'))
    ensures Delivers(Forecast(t, k), t, k, Rebalance(AsWritten, t', k, version))
  {
    if t.right.Inner? && k == t.right.key { KnownKeyStaysSame(t.right, k); }
    match Forecast(Side(t, k), k)
    case Same => AfterSame(t, k, version, side', t');
    case Grew => AfterGrew(t, k, version, side', t');
    case Tilted => AfterTilted(t, k, version, side', t');
    case Scarred(taller) =>
      if taller {
        ScarKeyDiffers(t, k);
        AfterHighScar(t, k, version, side', t');
      } else {
        AfterLowScar(t, k, version, side', t');
      }
    case Panics => assert false;
  }

  /** A scar never comes from overwriting a key, so `k` is not the separator of the scarred side. */
  lemma ScarKeyDiffers(t: Avl, k: Bytes)
    requires SearchTree(t) && t.Inner? && Forecast(Side(t, k), k).Scarred?
    ensures Side(t, k).Inner? && Side(t, k).key != k
  {
    if Side(t, k).Inner? && Side(t, k).key == k { KnownKeyStaysSame(Side(t, k), k); }
  }

  lemma {:induction false} AsWrittenInduction(t: Avl, k: Bytes, v: Bytes, version: nat)
    requires SearchTree(t) && Measured(t) && Balanced(t)
    requires LeafCount(t) < MAX_U32 && RealHeight(t) <= 200
    ensures Delivers(Forecast(t, k), t, k, Set(AsWritten, t, k, v, version))
  {
    if t.Leaf? {
      LeafDelivers(t, k, v, version);
    } else {
      AsWrittenInduction(Side(t, k), k, v, version);
      var below := Set(AsWritten, Side(t, k), k, v, version);
      if below.Some? {
        DeliveredHeight(Forecast(Side(t, k), k), Side(t, k), k, below);
        if Less(k, t.key) { JoinShape(t.key, version, below.value, t.right); } else { JoinShape(t.key, version, t.left, below.value); }
        LevelDelivers(t, k, version, below.value, Grown(AsWritten, t, k, v, version).value);
      }
    }
  }

  lemma DeliveredHeight(o: Outcome, t: Avl, k: Bytes, r: Option<Avl>)
    requires Delivers(o, t, k, r) && r.Some?
    ensures RealHeight(r.value) <= RealHeight(t) + 1 && Measured(r.value)
  {
  }

  /** With nothing of the tree absent from memory, where no hash is read: as written, an insertion into a
      balanced tree returns exactly when no panic is forecast, and keeps balance exactly when the forecast
      is Same or Grew. Once part of it is only in the database, see `IavlDisk`. */
  lemma AsWrittenExactly(t: Avl, k: Bytes, v: Bytes, version: nat)
    requires SearchTree(t) && Measured(t) && Balanced(t) && LeafCount(t) < MAX_U32
    ensures Set(AsWritten, t, k, v, version).Some? <==> !Forecast(t, k).Panics?
    ensures Set(AsWritten, t, k, v, version).Some? && Balanced(Set(AsWritten, t, k, v, version).value)
            <==> Forecast(t, k) in {Same, Grew}
  {
    HeightFits(t);
    AsWrittenInduction(t, k, v, version);
  }

  // ---------------------------------------------------------------- it does happen

  function Key(n: Byte): Bytes
  {
    [n]
  }

  /** The tree after inserting 10, 5 and 7 under version 1. */
  function TenFiveSeven(): Option<Avl>
  {
    SetAll(AsWritten, Leaf(Key(10), [], 1), [(Key(5), []), (Key(7), [])], 1)
  }

  /** Inserting 10, 5, 7 and then 8 panics as written and not as intended. */
  lemma FourInsertionsPanic()
    ensures TenFiveSeven().Some?
    ensures Set(AsWritten, TenFiveSeven().value, Key(8), [], 1) == None
    ensures Forecast(TenFiveSeven().value, Key(8)) == Panics
    ensures Set(LeftChildFirst, TenFiveSeven().value, Key(8), [], 1).Some?
  {
    var t0 := Leaf(Key(10), [], 1);
    var t1 := Inner(Key(10), 1, 2, 1, Leaf(Key(5), [], 1), t0);
    assert Set(AsWritten, t0, Key(5), [], 1) == Some(t1);
    var l := Inner(Key(7), 1, 2, 1, Leaf(Key(5), [], 1), Leaf(Key(7), [], 1));
    assert Set(AsWritten, t1.left, Key(7), [], 1) == Some(l);
    var t2 := Inner(Key(10), 2, 3, 1, l, t0);
    assert Set(AsWritten, t1, Key(7), [], 1) == Some(t2);
    assert SetAll(AsWritten, t2, [], 1) == Some(t2);
    assert SetAll(AsWritten, t1, [(Key(7), [])], 1) == Some(t2);
    assert TenFiveSeven() == Some(t2);
    forall c: CaseTwo
      ensures Set(c, l.right, Key(8), [], 1) == Some(Inner(Key(8), 1, 2, 1, l.right, Leaf(Key(8), [], 1)))
    {
    }
  }
}
