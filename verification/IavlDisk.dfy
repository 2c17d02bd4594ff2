/** The insertion as written once the tree is in the database: what rotates nothing goes through from any
    state of memory, and what goes through right after a save or a reopening rotates almost nothing. */
module IavlDisk {
  import opened ByteStrings
  import opened IavlNode
  import opened IavlSpec
  import opened IavlHash
  import opened IavlDb
  import opened IavlRotate
  import opened IavlLoads
  import opened IavlInsert
  import opened IavlStale
  import opened IavlRuns
  import opened IavlBalance
  import opened IavlAsWritten
  import opened IavlFresh

  // ---------------------------------------------------------------- insertions that rotate nothing

  /** At no level of the search path does a side grow that is the higher one already. */
  predicate Steady(t: Avl, k: Bytes)
  {
    t.Inner? ==> Steady(Side(t, k), k) && !(Forecast(Side(t, k), k) == Grew && Lean(t, k) == 1)
  }

  /** Balanced, and one higher exactly if growth is forecast. */
  ghost predicate SteadyResult(t: Avl, k: Bytes, r: Avl)
  {
    && Measured(r) && Balanced(r) && LeafCount(r) <= LeafCount(t) + 1
    && RealHeight(r) == RealHeight(t) + if Forecast(t, k) == Grew then 1 else 0
  }

  lemma SteadyLevel(c: CaseTwo, t: Avl, k: Bytes, v: Bytes, version: nat, s: Avl)
    requires Regular(t) && t.Inner? && Steady(t, k)
    requires Set(c, Side(t, k), k, v, version) == Some(s) && SteadyResult(Side(t, k), k, s)
    requires Forecast(Side(t, k), k) in {Same, Grew}
    ensures Grown(c, t, k, v, version).Some? && CaseOf(Grown(c, t, k, v, version).value, k) == Still
    ensures SteadyResult(t, k, Grown(c, t, k, v, version).value)
  {
    hide IavlSpec.SearchTree, IavlSpec.Set, IavlSpec.Join;
    if Less(k, t.key) { JoinShape(t.key, version, s, t.right); } else { JoinShape(t.key, version, t.left, s); }
    LevelRoom(t, k, s, Grown(c, t, k, v, version).value);
  }

  /** Such an insertion goes through, whatever is in memory and with Case 2 either way, and keeps balance. */
  lemma {:induction false} SteadyInserts(c: CaseTwo, t: Avl, l: Loads, k: Bytes, v: Bytes, version: nat)
    requires Regular(t) && Steady(t, k) && l.Present?
    ensures Set(c, t, k, v, version).Some? && SteadyResult(t, k, Set(c, t, k, v, version).value)
    ensures Forecast(t, k) in {Same, Grew} && Safe(c, t, l, k, v, version)
  {
    hide IavlSpec.SearchTree;
    if t.Leaf? {
      LeafFacts(t, k, v, version);
      SteadyLeaf(c, t, k, v, version);
    } else {
      RegularBelow(t, k);
      SteadyInserts(c, Side(t, k), if Less(k, t.key) then Opened(l.left) else Opened(l.right), k, v, version);
      SteadyLevel(c, t, k, v, version, Set(c, Side(t, k), k, v, version).value);
    }
  }

  lemma SteadyLeaf(c: CaseTwo, t: Avl, k: Bytes, v: Bytes, version: nat)
    requires t.Leaf?
    ensures Set(c, t, k, v, version) == Some(SetLeaf(t, k, v, version)) && SteadyResult(t, k, SetLeaf(t, k, v, version))
  {
    LessIrreflexive(k);
    var r := SetLeaf(t, k, v, version);
    assert r.Inner? ==> Measured(r.left) && Measured(r.right) && Balanced(r.left) && Balanced(r.right);
  }

  /** Overwriting a key is steady. */
  lemma {:induction false} OverwriteIsSteady(t: Avl, k: Bytes)
    requires SearchTree(t) && k in Contents(t)
    ensures Steady(t, k)
  {
    if t.Inner? {
      KnownKeyStaysSame(Side(t, k), k);
      OverwriteIsSteady(Side(t, k), k);
    }
  }

  // ---------------------------------------------------------------- right after a save

  /** Only the root in memory, as after a save or a reopening. */
  const DISK := Present(Absent, Absent)

  /** What goes through then: nothing rotates, or only Case 4 above a leaf that was just split. */
  predicate FromDisk(t: Avl, k: Bytes)
  {
    t.Inner? ==>
      && FromDisk(Side(t, k), k)
      && (Forecast(Side(t, k), k) == Grew && Lean(t, k) == 1 ==>
            !Less(k, t.key) && t.right.Inner? && Less(k, t.right.key) && t.right.left.Leaf?)
  }

  lemma {:induction false} FromDiskForecast(t: Avl, k: Bytes)
    requires Regular(t) && FromDisk(t, k)
    ensures Forecast(t, k) in {Same, Grew}
    ensures t.Inner? && Forecast(t, k) == Grew ==> Lean(t, k) == 0 && Forecast(Side(t, k), k) == Grew
  {
    hide IavlSpec.SearchTree;
    if t.Inner? {
      RegularBelow(t, k);
      FromDiskForecast(Side(t, k), k);
    }
  }

  /** The insertion returns, as written, with nothing in memory but the root. */
  predicate DiskInserts(t: Avl, k: Bytes, v: Bytes, version: nat)
  {
    Set(AsWritten, t, k, v, version).Some? && Safe(AsWritten, t, DISK, k, v, version)
  }

  function DiskLoads(t: Avl, k: Bytes, v: Bytes, version: nat): Loads
  {
    SetLoads(AsWritten, t, DISK, k, v, version)
  }

  /** What is known of one level once its side has gone through. */
  lemma DiskSide(t: Avl, k: Bytes, v: Bytes, version: nat)
    requires Regular(t) && t.Inner? && FromDisk(Side(t, k), k) && DiskInserts(Side(t, k), k, v, version)
    ensures SideFacts(AsWritten, t, k, v, version) && Forecast(Side(t, k), k) in {Same, Grew}
    ensures var g := Grown(AsWritten, t, k, v, version);
            && g.Some? && g.value.key == t.key && Side(g.value, k) == Set(AsWritten, Side(t, k), k, v, version).value
            && (if Less(k, t.key) then g.value.right == t.right else g.value.left == t.left)
            && Measured(g.value.left) && Measured(g.value.right) && Roomy(205, g.value.left, g.value.right)
            && (CaseOf(g.value, k) != Still <==> Lean(t, k) == 1 && Forecast(Side(t, k), k) == Grew)
            && GrownLoads(AsWritten, t, DISK, k, v, version)
               == if Less(k, t.key) then Present(DiskLoads(t.left, k, v, version), Absent)
                  else Present(Absent, DiskLoads(t.right, k, v, version))
  {
    hide IavlSpec.SearchTree, IavlSpec.Set, IavlSpec.Join, SetLoads;
    RegularBelow(t, k);
    FromDiskForecast(Side(t, k), k);
    SetFactsHold(AsWritten, Side(t, k), k, v, version);
    AsWrittenInduction(Side(t, k), k, v, version);
    var s := Set(AsWritten, Side(t, k), k, v, version).value;
    if Less(k, t.key) { JoinShape(t.key, version, s, t.right); } else { JoinShape(t.key, version, t.left, s); }
    LevelRoom(t, k, s, Grown(AsWritten, t, k, v, version).value);
  }

  lemma DiskBelow(t: Avl, k: Bytes, v: Bytes, version: nat)
    requires t.Inner? && DiskInserts(t, k, v, version)
    ensures DiskInserts(Side(t, k), k, v, version)
  {
  }

  /** A side that grew has in memory its search path and nothing else. */
  lemma DiskGrew(t: Avl, k: Bytes, v: Bytes, version: nat)
    requires Regular(t) && t.Inner? && FromDisk(t, k) && Forecast(t, k) == Grew && DiskInserts(t, k, v, version)
    ensures var r := Set(AsWritten, t, k, v, version);
            && r.Some? && r == Grown(AsWritten, t, k, v, version) && r.value.key == t.key
            && Side(r.value, k) == Set(AsWritten, Side(t, k), k, v, version).value
    ensures DiskLoads(t, k, v, version) == if Less(k, t.key) then Present(DiskLoads(t.left, k, v, version), Absent)
                                           else Present(Absent, DiskLoads(t.right, k, v, version))
  {
    hide Regular, Roomy, IavlSpec.Measured, Grown, IavlSpec.Join, GrownLoads;
    FromDiskForecast(t, k);
    DiskBelow(t, k, v, version);
    DiskSide(t, k, v, version);
  }

  /** Left-heavy: the one subtree to move is in the database, or Case 2 meets a leaf. */
  lemma DiskLeftPanics(t: Avl, k: Bytes, v: Bytes, version: nat)
    requires Regular(t) && t.Inner? && FromDisk(t.left, k) && DiskInserts(t.left, k, v, version)
    requires Less(k, t.key) && Forecast(t.left, k) == Grew && Lean(t, k) == 1
    ensures !DiskInserts(t, k, v, version)
  {
    hide IavlSpec.SearchTree, IavlSpec.Join, Grown, GrownLoads, SetLoads, Roomy, IavlSpec.Measured;
    DiskSide(t, k, v, version);
    var g, l := Grown(AsWritten, t, k, v, version).value, GrownLoads(AsWritten, t, DISK, k, v, version);
    var s := RotatedLevel(AsWritten, t, k, v, version);
    LeftInner(t, k);
    RegularBelow(t, k);
    FromDiskForecast(t.left, k);
    if Less(k, s.key) {
      DiskGrew(t.left, k, v, version);
    } else {
      CaseTwoAsWritten(g, version);
    }
  }

  /** The higher side is an inner node. */
  lemma LeftInner(t: Avl, k: Bytes)
    requires Regular(t) && t.Inner? && Lean(t, k) == 1
    ensures Side(t, k).Inner?
  {
  }

  /** Right-heavy: only the pivot of Case 4 can be wholly in memory, if it is a leaf just split. */
  lemma DiskRightExactly(t: Avl, k: Bytes, v: Bytes, version: nat)
    requires Regular(t) && t.Inner? && FromDisk(t.right, k) && DiskInserts(t.right, k, v, version)
    requires !Less(k, t.key) && Forecast(t.right, k) == Grew && Lean(t, k) == 1
    ensures t.right.Inner?
    ensures DiskInserts(t, k, v, version) <==> Less(k, t.right.key) && t.right.left.Leaf?
  {
    hide IavlSpec.SearchTree, IavlSpec.Join, Grown, GrownLoads, SetLoads, Roomy, IavlSpec.Measured;
    DiskSide(t, k, v, version);
    var l := GrownLoads(AsWritten, t, DISK, k, v, version);
    var s := RotatedLevel(AsWritten, t, k, v, version);
    LeftInner(t, k);
    RegularBelow(t, k);
    FromDiskForecast(t.right, k);
    DiskGrew(t.right, k, v, version);
    LessTotal(k, s.key);
    AsWrittenInduction(t, k, v, version);
    if Less(k, s.key) {
      LessAsymmetric(k, s.key);
      DiskPivot(t.right, k, v, version);
    } else {
      LessAsymmetric(s.key, k);
    }
  }

  /** The pivot of Case 4 is in memory with both children exactly if it is new. */
  lemma DiskPivot(t: Avl, k: Bytes, v: Bytes, version: nat)
    requires Regular(t) && t.Inner? && FromDisk(t, k) && DiskInserts(t, k, v, version)
    requires Less(k, t.key) && Forecast(t, k) == Grew
    ensures var pivot := Set(AsWritten, t.left, k, v, version);
            pivot.Some? && (PivotSafe(pivot.value, DiskLoads(t.left, k, v, version)) <==> t.left.Leaf?)
  {
    hide IavlSpec.SearchTree, Roomy, IavlSpec.Measured, GrownLoads;
    DiskBelow(t, k, v, version);
    RegularBelow(t, k);
    FromDiskForecast(t, k);
    if t.left.Inner? { DiskGrew(t.left, k, v, version); }
  }

  /** With only the root in memory an insertion into a regular tree returns, as written, exactly when
      nothing rotates but, at most, Case 4 above a leaf just split. */
  lemma {:induction false} DiskExactly(t: Avl, k: Bytes, v: Bytes, version: nat)
    requires Regular(t)
    ensures DiskInserts(t, k, v, version) <==> FromDisk(t, k)
  {
    hide IavlSpec.SearchTree, IavlSpec.Join, Regular, SetLoads, GrownLoads, RebalanceSafe, IavlSpec.Rebalance;
    if t.Inner? {
      RegularBelow(t, k);
      DiskExactly(Side(t, k), k, v, version);
      if DiskInserts(t, k, v, version) { DiskBelow(t, k, v, version); }
      if FromDisk(Side(t, k), k) { DiskLevel(t, k, v, version); }
    }
  }

  lemma DiskLevel(t: Avl, k: Bytes, v: Bytes, version: nat)
    requires Regular(t) && t.Inner? && FromDisk(Side(t, k), k) && DiskInserts(Side(t, k), k, v, version)
    ensures DiskInserts(t, k, v, version) <==> FromDisk(t, k)
  {
    hide IavlSpec.SearchTree, IavlSpec.Join, Regular, Roomy, IavlSpec.Measured, SetLoads, GrownLoads, Grown;
    DiskSide(t, k, v, version);
    if Forecast(Side(t, k), k) == Grew && Lean(t, k) == 1 {
      if Less(k, t.key) { DiskLeftPanics(t, k, v, version); } else { DiskRightExactly(t, k, v, version); }
    } else {
      StillSame(AsWritten, Grown(AsWritten, t, k, v, version).value, GrownLoads(AsWritten, t, DISK, k, v, version), k);
    }
  }

  // ---------------------------------------------------------------- the program as written, in a run

  const AS_WRITTEN := Code(AsWritten, SlotHash)

  /** At the latest version of a run, the program returns from an insertion into a regular tree exactly
      when no panic is forecast and all that moves is in memory. */
  lemma ProgramReturnsExactly(H: Hasher, run: seq<State>, ops: seq<Op>, seen: set<Bytes>, i: nat,
                              node: Node, t: Avl, key: Bytes, value: Bytes)
    requires IsRun(H, run, ops) && Accounted(H, run, seen) && i <= |ops|
    requires run[i].root == Some(t) && Regular(t) && forall v :: v in run[i].versions ==> v <= run[i].loaded
    requires Insertable(H, run[i].db, node, t, run[i].loaded + 1)
    requires NoCollisions(H, seen + Probed(H, AsWritten, t, key, value, run[i].loaded + 1))
    ensures var version := run[i].loaded + 1;
            SetNode(H, AS_WRITTEN, run[i].db, node, key, value, version, t).Some?
            <==> !Forecast(t, key).Panics? && Safe(AsWritten, t, LoadsOf(node), key, value, version)
  {
    hide Regular, Probed, NoCollisions, Safe, SetNode, LoadsOf, Insertable, StepAt, AccountedAt;
    NextInsertExactly(H, AsWritten, run, ops, seen, i, node, t, key, value);
    RegularReturns(t, key, value, run[i].loaded + 1);
  }

  lemma RegularReturns(t: Avl, k: Bytes, v: Bytes, version: nat)
    requires Regular(t)
    ensures Set(AsWritten, t, k, v, version).Some? <==> !Forecast(t, k).Panics?
  {
    AsWrittenExactly(t, k, v, version);
  }

  /** And with only the root in memory, as after a save or a reopening, exactly when `FromDisk`. */
  lemma FirstWriteExactly(H: Hasher, run: seq<State>, ops: seq<Op>, seen: set<Bytes>, i: nat, t: Avl, key: Bytes, value: Bytes)
    requires IsRun(H, run, ops) && Accounted(H, run, seen) && i <= |ops|
    requires run[i].root == Some(t) && Regular(t) && forall v :: v in run[i].versions ==> v <= run[i].loaded
    requires Insertable(H, run[i].db, Collapse(H, t), t, run[i].loaded + 1)
    requires NoCollisions(H, seen + Probed(H, AsWritten, t, key, value, run[i].loaded + 1))
    ensures SetNode(H, AS_WRITTEN, run[i].db, Collapse(H, t), key, value, run[i].loaded + 1, t).Some? <==> FromDisk(t, key)
  {
    hide Regular, Probed, NoCollisions, Safe, SetNode, Insertable, StepAt, AccountedAt;
    var version := run[i].loaded + 1;
    NextInsertExactly(H, AsWritten, run, ops, seen, i, Collapse(H, t), t, key, value);
    DiskExactly(t, key, value, version);
    assert LoadsOf(Collapse(H, t)) == DISK;
  }

  // ---------------------------------------------------------------- it does happen

  /** The tree after inserting 1, 2 and 3 under version 1. */
  function OneTwoThree(): Avl
  {
    Inner(Key(2), 2, 3, 1, Leaf(Key(1), [], 1), Inner(Key(3), 1, 2, 1, Leaf(Key(2), [], 1), Leaf(Key(3), [], 1)))
  }

  lemma ThreeInsertions()
    ensures SetAll(AsWritten, Leaf(Key(1), [], 1), [(Key(2), []), (Key(3), [])], 1) == Some(OneTwoThree())
    ensures Regular(OneTwoThree()) && Encodable(OneTwoThree()) && MadeBy(OneTwoThree(), 1)
    ensures Forecast(OneTwoThree(), Key(4)) == Same && !FromDisk(OneTwoThree(), Key(4))
  {
    var one, two, three := Leaf(Key(1), [], 1), Leaf(Key(2), [], 1), Leaf(Key(3), [], 1);
    var t1 := Inner(Key(2), 1, 2, 1, one, two);
    assert Set(AsWritten, one, Key(2), [], 1) == Some(t1);
    var r := Inner(Key(3), 1, 2, 1, two, three);
    assert Set(AsWritten, t1.right, Key(3), [], 1) == Some(r);
    assert Set(AsWritten, t1, Key(3), [], 1) == Some(OneTwoThree());
    assert SetAll(AsWritten, OneTwoThree(), [], 1) == Some(OneTwoThree());
    assert SetAll(AsWritten, t1, [(Key(3), [])], 1) == Some(OneTwoThree());
    assert SearchTree(r) && Measured(r) && Balanced(r) && Forecast(r, Key(4)) == Grew;
  }

  /** Inserting 1, 2 and 3, saving, and inserting 4: the insertion into the tree keeps balance, and the
      program panics, as the rotation looks for a subtree under the hash of a node just made. */
  lemma FourthInsertionAfterSave(H: Hasher, w: Db, seen: set<Bytes>)
    requires SaveWrites(H, map[], Some(OneTwoThree()), w)
    requires NoCollisions(H, seen) && Preimages(H, OneTwoThree()) + Probed(H, AsWritten, OneTwoThree(), Key(4), [], 2) <= seen
    ensures var t := OneTwoThree();
            var db := w[RootKey(1) := RootHash(H, t)];
            && Insertable(H, db, Collapse(H, t), t, 2)
            && SetNode(H, AS_WRITTEN, db, Collapse(H, t), Key(4), [], 2, t) == None
            && Set(AsWritten, t, Key(4), [], 2).Some? && Forecast(t, Key(4)) == Same
  {
    hide Regular, Probed, NoCollisions, Safe, SetNode, Dated, Blind, Forecast, FromDisk, HoldsNodesOf, Covers, RootHash, OneTwoThree, IavlSpec.Set, IavlSpec.SearchTree;
    ThreeInsertions();
    var t := OneTwoThree();
    var db := w[RootKey(1) := RootHash(H, t)];
    SavedFromEmpty(H, t, w, db, seen);
    FreshIsBlind(H, db, AsWritten, t, Key(4), [], 2, {1}, seen, seen);
    StaleInsertExactly(H, AsWritten, db, Collapse(H, t), t, Key(4), [], 2);
    DiskExactly(t, Key(4), [], 2);
    RegularReturns(t, Key(4), [], 2);
    assert LoadsOf(Collapse(H, t)) == DISK;
  }

  /** The database after a first save. */
  lemma SavedFromEmpty(H: Hasher, t: Avl, w: Db, db: Db, seen: set<Bytes>)
    requires SaveWrites(H, map[], Some(t), w) && db == w[RootKey(1) := RootHash(H, t)]
    requires Regular(t) && Encodable(t) && MadeBy(t, 1) && NoCollisions(H, seen) && Preimages(H, t) <= seen
    ensures Sound(H, t, seen) && Dated(H, db, {1}, seen) && Insertable(H, db, Collapse(H, t), t, 2)
  {
    hide HoldsNodesOf, Covers, RootHash, IavlSpec.SearchTree;
    assert map[] + w == w;
    assert {} + {1} == {1};
    SaveDates(H, map[], Some(t), 1, w, {}, seen, db);
    WritesComplete(H, map[], w, t, seen);
    RootRecordsDoNotTouchNodes(H, w, 1, RootHash(H, t), t);
    LoadedStandsFor(H, db, t);
  }
}
