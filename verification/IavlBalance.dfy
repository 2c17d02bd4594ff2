/** Balance of the tree under insertion: always kept when Case 2 rotates the left child first, and
    exactly when it is kept by the code as it is written. */
module IavlBalance {
  import opened ByteStrings
  import opened IavlNode
  import opened IavlSpec

  // ---------------------------------------------------------------- height against leaf count

  function Fib(n: nat): nat
  {
    if n < 2 then n else Fib(n - 1) + Fib(n - 2)
  }

  function Pow2(n: nat): nat
  {
    if n == 0 then 1 else 2 * Pow2(n - 1)
  }

  lemma {:induction false} FibGrows(m: nat, n: nat)
    requires m <= n
    ensures Fib(m) <= Fib(n)
    decreases n - m
  {
    if m < n {
      assert Fib(m) <= Fib(m + 1) by { if m == 1 { assert Fib(2) == 1; } }
      FibGrows(m + 1, n);
    }
  }

  lemma {:induction false} FibDoubles(m: nat)
    ensures Fib(2 * m + 2) >= Pow2(m)
  {
    if m > 0 {
      FibDoubles(m - 1);
      FibGrows(2 * m, 2 * m + 1);
    }
  }

  /** A balanced tree of height h has at least Fib(h + 2) leaves. */
  lemma {:induction false} LeavesAtLeastFib(t: Avl)
    requires Balanced(t)
    ensures LeafCount(t) >= Fib(RealHeight(t) + 2)
  {
    if t.Inner? {
      LeavesAtLeastFib(t.left);
      LeavesAtLeastFib(t.right);
      var h := RealHeight(t);
      FibGrows(h, RealHeight(t.left) + 2);
      FibGrows(h, RealHeight(t.right) + 2);
    }
  }

  lemma Pow2At32()
    ensures Pow2(32) == MAX_U32 + 1
  {
    assert Pow2(8) == 0x100;
    assert Pow2(16) == 0x100 * Pow2(8);
    assert Pow2(24) == 0x100 * Pow2(16);
    assert Pow2(32) == 0x100 * Pow2(24);
  }

  /** So a `u8` height has room to spare as long as the leaf count fits the `u32` size. */
  lemma HeightFits(t: Avl)
    requires Balanced(t) && LeafCount(t) <= MAX_U32
    ensures RealHeight(t) < 64
  {
    hide Fib, Pow2, IavlSpec.RealHeight, IavlSpec.LeafCount, IavlSpec.Balanced;
    LeavesAtLeastFib(t);
    if RealHeight(t) >= 64 {
      FibDoubles(32);
      FibGrows(66, RealHeight(t) + 2);
      Pow2At32();
    }
  }

  // ---------------------------------------------------------------- one rotation

  /** Room for the measures of any tree made of the two sides. */
  predicate Roomy(limit: nat, left: Avl, right: Avl)
  {
    RealHeight(left) <= limit && RealHeight(right) <= limit && LeafCount(left) + LeafCount(right) <= MAX_U32
  }

  lemma JoinShape(key: Bytes, version: nat, left: Avl, right: Avl)
    requires Measured(left) && Measured(right)
    requires Roomy(250, left, right)
    ensures Join(key, version, left, right).Some?
    ensures var t := Join(key, version, left, right).value;
            && t.Inner? && t.key == key && t.left == left && t.right == right && Measured(t)
            && RealHeight(t) == 1 + Max(RealHeight(left), RealHeight(right))
            && LeafCount(t) == LeafCount(left) + LeafCount(right)
  {
  }

  lemma RightRotateShape(t: Avl, version: nat)
    requires t.Inner? && t.left.Inner? && Measured(t.left) && Measured(t.right) && Roomy(240, t.left, t.right)
    ensures TurnRight(t, version).Some?
    ensures var t' := TurnRight(t, version).value;
            && RightRotated(t, t') && Measured(t')
            && LeafCount(t') == LeafCount(t.left) + LeafCount(t.right)
  {
    JoinShape(t.key, version, t.left.right, t.right);
    JoinShape(t.left.key, version, t.left.left, Join(t.key, version, t.left.right, t.right).value);
  }

  lemma LeftRotateShape(t: Avl, version: nat)
    requires t.Inner? && t.right.Inner? && Measured(t.left) && Measured(t.right) && Roomy(240, t.left, t.right)
    ensures TurnLeft(t, version).Some?
    ensures var t' := TurnLeft(t, version).value;
            && LeftRotated(t, t') && Measured(t')
            && LeafCount(t') == LeafCount(t.left) + LeafCount(t.right)
  {
    JoinShape(t.key, version, t.left, t.right.left);
    JoinShape(t.right.key, version, Join(t.key, version, t.left, t.right.left).value, t.right.right);
  }

  /** As written, Case 2 turns the node left and straight back: nothing moves, and it cannot even
      start when the right child is a leaf. */
  lemma CaseTwoAsWritten(t: Avl, version: nat)
    requires t.Inner? && Measured(t.left) && Measured(t.right) && Roomy(230, t.left, t.right)
    ensures CaseTwoRotate(AsWritten, t, version).Some? <==> t.right.Inner?
    ensures t.right.Inner? ==>
              var t' := CaseTwoRotate(AsWritten, t, version).value;
              && t'.Inner? && t'.key == t.key && t'.left == t.left
              && t'.right.Inner? && t'.right.key == t.right.key
              && t'.right.left == t.right.left && t'.right.right == t.right.right
              && Measured(t') && LeafCount(t') == LeafCount(t.left) + LeafCount(t.right)
  {
    if t.right.Inner? {
      LeftRotateShape(t, version);
      var u := TurnLeft(t, version).value;
      RightRotateShape(u, version);
    }
  }

  // ---------------------------------------------------------------- rebalancing a grown node

  /** How much taller the side that `k` belongs to is. */
  function Lean(t: Avl, k: Bytes): int
    requires t.Inner?
  {
    if Less(k, t.key) then RealHeight(t.left) - RealHeight(t.right) else RealHeight(t.right) - RealHeight(t.left)
  }

  /** A node with measured, balanced children, all small enough for every sum to fit. */
  predicate Ready(t: Avl)
  {
    && t.Inner? && Measured(t.left) && Measured(t.right)
    && Balanced(t.left) && Balanced(t.right) && Roomy(210, t.left, t.right)
  }

  /** What a rotation that repairs `t` leaves: a balanced tree, one lower than `t`. */
  predicate Repaired(t: Avl, r: Option<Avl>)
    requires t.Inner?
  {
    && r.Some? && Measured(r.value) && Balanced(r.value)
    && RealHeight(r.value) + 1 == 1 + Max(RealHeight(t.left), RealHeight(t.right))
    && LeafCount(r.value) == LeafCount(t.left) + LeafCount(t.right)
  }

  lemma CaseOneRepairs(t: Avl, k: Bytes, version: nat)
    requires Ready(t) && RealHeight(t.left) == RealHeight(t.right) + 2
    requires t.left.Inner? && Less(k, t.left.key) && Lean(t.left, k) == 1
    ensures Repaired(t, TurnRight(t, version))
  {
    RightRotateShape(t, version);
  }

  lemma CaseThreeRepairs(t: Avl, k: Bytes, version: nat)
    requires Ready(t) && RealHeight(t.right) == RealHeight(t.left) + 2
    requires t.right.Inner? && Less(t.right.key, k) && Lean(t.right, k) == 1
    ensures Repaired(t, TurnLeft(t, version))
  {
    LessAsymmetric(t.right.key, k);
    LeftRotateShape(t, version);
  }

  lemma CaseTwoRepairs(t: Avl, k: Bytes, version: nat)
    requires Ready(t) && RealHeight(t.left) == RealHeight(t.right) + 2
    requires t.left.Inner? && !Less(k, t.left.key) && Lean(t.left, k) == 1
    ensures Repaired(t, CaseTwoRotate(LeftChildFirst, t, version))
  {
    LeftRotateShape(t.left, version);
    var pivot := t.left.right;
    assert Balanced(pivot) && RealHeight(pivot) == RealHeight(t.right) + 1;
    var turned := t.(left := TurnLeft(t.left, version).value);
    RightRotateShape(turned, version);
    var t' := TurnRight(turned, version).value;
    assert t'.left.left == t.left.left && t'.left.right == pivot.left;
    assert t'.right.left == pivot.right && t'.right.right == t.right;
  }

  lemma CaseFourRepairs(t: Avl, k: Bytes, version: nat)
    requires Ready(t) && RealHeight(t.right) == RealHeight(t.left) + 2
    requires t.right.Inner? && Less(k, t.right.key) && Lean(t.right, k) == 1
    ensures Repaired(t, CaseFourRotate(t, version))
  {
    RightRotateShape(t.right, version);
    var pivot := t.right.left;
    assert Balanced(pivot) && RealHeight(pivot) == RealHeight(t.left) + 1;
    var turned := t.(right := TurnRight(t.right, version).value);
    LeftRotateShape(turned, version);
    var t' := TurnLeft(turned, version).value;
    assert t'.left.left == t.left && t'.left.right == pivot.left;
    assert t'.right.left == pivot.right && t'.right.right == t.right.right;
  }

  // ---------------------------------------------------------------- Case 2 as intended

  /** Does an insertion of `k` make the tree one higher? */
  ghost predicate Grows(t: Avl, k: Bytes)
  {
    if t.Leaf? then k != t.key
    else Lean(t, k) == 0 && Grows(if Less(k, t.key) then t.left else t.right, k)
  }

  lemma {:induction false} KnownKeyNeverGrows(t: Avl, k: Bytes)
    requires SearchTree(t) && k in Contents(t)
    ensures !Grows(t, k)
  {
    if t.Inner? {
      if Less(k, t.key) { KnownKeyNeverGrows(t.left, k); } else { KnownKeyNeverGrows(t.right, k); }
    }
  }

  /** What growth looks like: one higher and, above a leaf, under the same separator with the side
      of `k` the higher one. */
  predicate Taller(t: Avl, t': Avl, k: Bytes)
  {
    && RealHeight(t') == RealHeight(t) + 1
    && (t.Inner? ==> t'.Inner? && t'.key == t.key && Lean(t', k) == 1)
  }

  /** Rebalancing a node one of whose balanced children may just have grown. */
  lemma RebalanceIntended(t: Avl, k: Bytes, version: nat)
    requires Ready(t) && Measured(t) && -1 <= Lean(t, k) <= 2
    requires Lean(t, k) == 2 && Less(k, t.key) ==> t.left.Inner? && Lean(t.left, k) == 1
    requires Lean(t, k) == 2 && !Less(k, t.key) ==> t.right.Inner? && Lean(t.right, k) == 1 && t.right.key != k
    ensures Lean(t, k) < 2 ==> Rebalance(LeftChildFirst, t, k, version) == Some(t) && Balanced(t)
    ensures Lean(t, k) == 2 ==> Repaired(t, Rebalance(LeftChildFirst, t, k, version))
  {
    if Lean(t, k) == 2 {
      if Less(k, t.key) {
        if Less(k, t.left.key) { CaseOneRepairs(t, k, version); } else { CaseTwoRepairs(t, k, version); }
      } else {
        LessTotal(t.right.key, k);
        if Less(t.right.key, k) { CaseThreeRepairs(t, k, version); } else { CaseFourRepairs(t, k, version); }
      }
    }
  }

  /** What an insertion into a subtree owes the node above it. */
  ghost predicate IntendedResult(t: Avl, k: Bytes, r: Option<Avl>)
  {
    && r.Some? && Measured(r.value) && Balanced(r.value)
    && LeafCount(t) <= LeafCount(r.value) <= LeafCount(t) + 1
    && (if Grows(t, k) then Taller(t, r.value, k) else RealHeight(r.value) == RealHeight(t))
  }

  lemma LeafIntended(t: Avl, k: Bytes, v: Bytes, version: nat)
    requires t.Leaf?
    ensures IntendedResult(t, k, Set(LeftChildFirst, t, k, v, version))
  {
    var t' := SetLeaf(t, k, v, version);
    LessIrreflexive(k);
    assert t'.Inner? ==> Measured(t'.left) && Measured(t'.right) && Balanced(t'.left) && Balanced(t'.right);
  }

  lemma SeparatorNeverGrows(t: Avl)
    requires SearchTree(t) && t.Inner? && t.right.Inner?
    ensures !Grows(t.right, t.right.key)
  {
    KnownKeyNeverGrows(t.right, t.right.key);
  }

  /** A node whose left side was replaced by the result of inserting there. */
  lemma LeftGrownIntended(t: Avl, k: Bytes, version: nat, left: Avl, t': Avl)
    requires t.Inner? && SearchTree(t) && Measured(t) && Balanced(t) && Less(k, t.key)
    requires LeafCount(t) < MAX_U32 && RealHeight(t) <= 200
    requires IntendedResult(t.left, k, Some(left)) && Some(t') == Join(t.key, version, left, t.right)
    ensures IntendedResult(t, k, Rebalance(LeftChildFirst, t', k, version))
  {
    hide IavlSpec.Rebalance, IavlSpec.SearchTree, IavlSpec.Join;
    JoinShape(t.key, version, left, t.right);
    RebalanceIntended(t', k, version);
  }

  /** And its right side. */
  lemma RightGrownIntended(t: Avl, k: Bytes, version: nat, right: Avl, t': Avl)
    requires t.Inner? && SearchTree(t) && Measured(t) && Balanced(t) && !Less(k, t.key)
    requires LeafCount(t) < MAX_U32 && RealHeight(t) <= 200
    requires IntendedResult(t.right, k, Some(right)) && Some(t') == Join(t.key, version, t.left, right)
    ensures IntendedResult(t, k, Rebalance(LeftChildFirst, t', k, version))
  {
    hide IavlSpec.Rebalance, IavlSpec.SearchTree, IavlSpec.Join;
    if t.right.Inner? && k == t.right.key { SeparatorNeverGrows(t); }
    JoinShape(t.key, version, t.left, right);
    RebalanceIntended(t', k, version);
  }

  lemma {:induction false} IntendedInduction(t: Avl, k: Bytes, v: Bytes, version: nat)
    requires SearchTree(t) && Measured(t) && Balanced(t)
    requires LeafCount(t) < MAX_U32 && RealHeight(t) <= 200
    ensures IntendedResult(t, k, Set(LeftChildFirst, t, k, v, version))
  {
    if t.Leaf? {
      LeafIntended(t, k, v, version);
    } else {
      var side := if Less(k, t.key) then t.left else t.right;
      IntendedInduction(side, k, v, version);
      var side' := Set(LeftChildFirst, side, k, v, version).value;
      if Less(k, t.key) {
        JoinShape(t.key, version, side', t.right);
        LeftGrownIntended(t, k, version, side', Grown(LeftChildFirst, t, k, v, version).value);
      } else {
        JoinShape(t.key, version, t.left, side');
        RightGrownIntended(t, k, version, side', Grown(LeftChildFirst, t, k, v, version).value);
      }
    }
  }

  /** With Case 2 rotating the left child first, an insertion into a balanced tree never panics and
      gives a balanced tree with true measures, as long as its size fits a `u32`. */
  lemma IntendedKeepsBalance(t: Avl, k: Bytes, v: Bytes, version: nat)
    requires SearchTree(t) && Measured(t) && Balanced(t) && LeafCount(t) < MAX_U32
    ensures Set(LeftChildFirst, t, k, v, version).Some?
    ensures var t' := Set(LeftChildFirst, t, k, v, version).value;
            Balanced(t') && Measured(t') && t'.GetHeight() < 64
  {
    HeightFits(t);
    IntendedInduction(t, k, v, version);
    HeightFits(Set(LeftChildFirst, t, k, v, version).value);
  }

  /** A run of insertions. */
  function SetAll(c: CaseTwo, t: Avl, writes: seq<(Bytes, Bytes)>, version: nat): Option<Avl>
    decreases |writes|
  {
    if writes == [] then Some(t)
    else
      match Set(c, t, writes[0].0, writes[0].1, version)
      case None => None
      case Some(t') => SetAll(c, t', writes[1..], version)
  }

  /** Every insertion sequence from a single leaf, hence from the empty tree, stays balanced. */
  lemma {:induction false} IntendedStaysBalanced(t: Avl, writes: seq<(Bytes, Bytes)>, version: nat)
    requires SearchTree(t) && Measured(t) && Balanced(t) && LeafCount(t) + |writes| <= MAX_U32
    ensures SetAll(LeftChildFirst, t, writes, version).Some?
    ensures var t' := SetAll(LeftChildFirst, t, writes, version).value;
            Balanced(t') && Measured(t') && SearchTree(t') && t'.GetHeight() < 64
    decreases |writes|
  {
    HeightFits(t);
    if writes != [] {
      var (k, v) := writes[0];
      IntendedInduction(t, k, v, version);
      SetMeansUpdate(LeftChildFirst, t, k, v, version);
      IntendedStaysBalanced(Set(LeftChildFirst, t, k, v, version).value, writes[1..], version);
    }
  }
}
