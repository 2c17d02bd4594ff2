/** What the next insertion of a run can find in the database: nothing made under the next version. So
    the program as written, with its stale hashes, returns exactly when it moves only what is in memory. */
module IavlFresh {
  import opened ByteStrings
  import opened IavlNode
  import opened IavlSpec
  import opened IavlHash
  import opened IavlDb
  import opened IavlRotate
  import opened IavlLoads
  import opened IavlInsert
  import opened IavlStale
  import opened IavlRuns
  import opened IavlBalance
  import opened IavlAsWritten

  // ---------------------------------------------------------------- what an insertion stamps

  lemma RebalanceStamps(c: CaseTwo, t: Avl, k: Bytes, version: nat)
    requires t.Inner? && t.version == version && Rebalance(c, t, k, version).Some?
    ensures Rebalance(c, t, k, version).value.version == version
  {
  }

  /** The root of the result is made under the version of the insertion. */
  lemma SetStamps(c: CaseTwo, t: Avl, k: Bytes, v: Bytes, version: nat)
    requires Set(c, t, k, v, version).Some?
    ensures Set(c, t, k, v, version).value.version == version
  {
    if t.Inner? { RebalanceStamps(c, Grown(c, t, k, v, version).value, k, version); }
  }

  /** A subtree that grew is new at its root and on the side of `k`, under the separator it had. */
  predicate GrewFresh(t: Avl, k: Bytes, version: nat, r: Avl)
  {
    && r.Inner? && r.version == version && Side(r, k).version == version
    && (t.Inner? ==> r.key == t.key && r.key != k)
  }

  ghost predicate SetFacts(t: Avl, k: Bytes, version: nat, r: Avl)
  {
    && Measured(r) && r.version == version && LeafCount(r) <= LeafCount(t) + 1
    && RealHeight(t) <= RealHeight(r) <= RealHeight(t) + 1
    && (RealHeight(r) > RealHeight(t) ==> GrewFresh(t, k, version, r))
  }

  /** A tree small and regular enough for an insertion to be forecast. */
  ghost predicate Regular(t: Avl)
  {
    SearchTree(t) && Measured(t) && Balanced(t) && LeafCount(t) < MAX_U32 && RealHeight(t) <= 200
  }

  lemma RegularBelow(t: Avl, k: Bytes)
    requires Regular(t) && t.Inner?
    ensures Regular(Side(t, k))
  {
    LeavesAtLeastOne(t.left);
    LeavesAtLeastOne(t.right);
  }

  lemma LeafFacts(t: Avl, k: Bytes, v: Bytes, version: nat)
    requires t.Leaf?
    ensures SetFacts(t, k, version, SetLeaf(t, k, v, version))
  {
    LessIrreflexive(k);
    var r := SetLeaf(t, k, v, version);
    assert r.Inner? ==> Measured(r.left) && Measured(r.right);
  }

  ghost predicate SideFacts(c: CaseTwo, t: Avl, k: Bytes, v: Bytes, version: nat)
    requires t.Inner?
  {
    var s := Set(c, Side(t, k), k, v, version);
    s.Some? && SetFacts(Side(t, k), k, version, s.value)
  }

  /** The grown node before it is rebalanced. */
  lemma GrownFacts(c: CaseTwo, t: Avl, k: Bytes, v: Bytes, version: nat)
    requires Regular(t) && t.Inner? && Grown(c, t, k, v, version).Some? && SideFacts(c, t, k, v, version)
    ensures var g, s := Grown(c, t, k, v, version).value, Set(c, Side(t, k), k, v, version).value;
            && g.key == t.key && g.version == version && Side(g, k) == s && Level(t, k, s, g)
            && Lean(g, k) == Lean(t, k) + RealHeight(s) - RealHeight(Side(t, k))
            && (CaseOf(g, k) != Still ==> Lean(t, k) == 1 && RealHeight(s) > RealHeight(Side(t, k)))
  {
  }

  /** Growth at an inner node: nothing rotated, or Case 2 as written turned it there and back. */
  lemma TallerKeepsSide(c: CaseTwo, t: Avl, k: Bytes, v: Bytes, version: nat)
    requires Regular(t) && t.Inner? && Set(c, t, k, v, version).Some? && SideFacts(c, t, k, v, version)
    requires RealHeight(Set(c, t, k, v, version).value) > RealHeight(t)
    ensures var r := Set(c, t, k, v, version).value;
            r.Inner? && r.key == t.key && Side(r, k) == Set(c, Side(t, k), k, v, version).value
  {
    hide IavlSpec.TurnLeft, IavlSpec.TurnRight, IavlSpec.CaseTwoRotate, IavlSpec.CaseFourRotate, IavlSpec.Join, IavlSpec.SearchTree;
    GrownFacts(c, t, k, v, version);
    var g := Grown(c, t, k, v, version).value;
    if CaseOf(g, k) != Still {
      if c.AsWritten? {
        TallerIsCaseTwo(t, k, v, version);
      } else {
        IntendedInduction(t, k, v, version);
        assert false;
      }
    }
  }

  lemma TallerIsCaseTwo(t: Avl, k: Bytes, v: Bytes, version: nat)
    requires Regular(t) && t.Inner? && Set(AsWritten, t, k, v, version).Some? && Lean(t, k) == 1
    requires SideFacts(AsWritten, t, k, v, version)
    requires RealHeight(Set(AsWritten, t, k, v, version).value) > RealHeight(t)
    ensures var r := Set(AsWritten, t, k, v, version).value;
            r.Inner? && r.key == t.key && Side(r, k) == Set(AsWritten, Side(t, k), k, v, version).value
  {
    hide IavlSpec.TurnLeft, IavlSpec.TurnRight, IavlSpec.CaseTwoRotate, IavlSpec.CaseFourRotate, IavlSpec.Join, IavlSpec.SearchTree;
    GrownFacts(AsWritten, t, k, v, version);
    AsWrittenInduction(t, k, v, version);
    assert InnerLeft(t, k);
    CaseTwoAsWritten(Grown(AsWritten, t, k, v, version).value, version);
  }

  lemma KnownKeyNotTaller(c: CaseTwo, t: Avl, k: Bytes, v: Bytes, version: nat)
    requires Regular(t) && t.Inner? && k == t.key && Set(c, t, k, v, version).Some?
    ensures RealHeight(Set(c, t, k, v, version).value) == RealHeight(t)
  {
    if c.AsWritten? {
      KnownKeyStaysSame(t, k);
      AsWrittenInduction(t, k, v, version);
    } else {
      KnownKeyNeverGrows(t, k);
      IntendedInduction(t, k, v, version);
    }
  }

  lemma SetHeights(c: CaseTwo, t: Avl, k: Bytes, v: Bytes, version: nat)
    requires Regular(t) && Set(c, t, k, v, version).Some?
    ensures var r := Set(c, t, k, v, version).value;
            && Measured(r) && LeafCount(r) <= LeafCount(t) + 1
            && RealHeight(t) <= RealHeight(r) <= RealHeight(t) + 1
  {
    if c.AsWritten? { AsWrittenInduction(t, k, v, version); } else { IntendedInduction(t, k, v, version); }
  }

  /** What one insertion into a regular tree leaves, with Case 2 either way. */
  lemma {:induction false} SetFactsHold(c: CaseTwo, t: Avl, k: Bytes, v: Bytes, version: nat)
    requires Regular(t) && Set(c, t, k, v, version).Some?
    ensures SetFacts(t, k, version, Set(c, t, k, v, version).value)
  {
    hide IavlSpec.SearchTree, IavlSpec.Rebalance;
    SetStamps(c, t, k, v, version);
    if t.Leaf? {
      LeafFacts(t, k, v, version);
    } else {
      RegularBelow(t, k);
      SetFactsHold(c, Side(t, k), k, v, version);
      SetHeights(c, t, k, v, version);
      if RealHeight(Set(c, t, k, v, version).value) > RealHeight(t) {
        TallerKeepsSide(c, t, k, v, version);
        if k == t.key { KnownKeyNotTaller(c, t, k, v, version); }
      }
    }
  }

  // ---------------------------------------------------------------- what may be stored

  lemma TurnEncodable(t: Avl, version: nat)
    requires t.Inner? && Encodable(t.left) && Encodable(t.right) && version <= MAX_U32
    ensures TurnRight(t, version).Some? ==> TurnRight(t, version).value.Inner? && Encodable(TurnRight(t, version).value)
    ensures TurnLeft(t, version).Some? ==> TurnLeft(t, version).value.Inner? && Encodable(TurnLeft(t, version).value)
  {
  }

  lemma RebalanceEncodable(c: CaseTwo, t: Avl, k: Bytes, version: nat)
    requires t.Inner? && Encodable(t) && version <= MAX_U32 && Rebalance(c, t, k, version).Some?
    ensures Encodable(Rebalance(c, t, k, version).value)
  {
    hide IavlSpec.TurnLeft, IavlSpec.TurnRight;
    TurnEncodable(t, version);
    match CaseOf(t, k)
    case Still | CaseOne | CaseThree =>
    case CaseTwo =>
      if c.AsWritten? {
        TurnEncodable(TurnLeft(t, version).value, version);
      } else {
        if t.left.Inner? { TurnEncodable(t.left, version); }
        TurnEncodable(t.(left := TurnLeft(t.left, version).value), version);
      }
    case CaseFour =>
      if t.right.Inner? { TurnEncodable(t.right, version); }
      TurnEncodable(t.(right := TurnRight(t.right, version).value), version);
  }

  /** An insertion leaves a tree that may be stored again. */
  lemma {:induction false} SetEncodable(c: CaseTwo, t: Avl, k: Bytes, v: Bytes, version: nat)
    requires Encodable(t) && version <= MAX_U32 && Set(c, t, k, v, version).Some?
    ensures Encodable(Set(c, t, k, v, version).value)
  {
    hide IavlSpec.Rebalance;
    if t.Leaf? {
      var r := SetLeaf(t, k, v, version);
      assert r.Inner? ==> Encodable(r.left) && Encodable(r.right);
    } else {
      SetEncodable(c, Side(t, k), k, v, version);
      RebalanceEncodable(c, Grown(c, t, k, v, version).value, k, version);
    }
  }

  // ---------------------------------------------------------------- what is looked up

  /** What the hash of `t` itself is taken over. */
  function Top(H: Hasher, t: Avl): Bytes
  {
    HashSerialize(H, Collapse(H, t))
  }

  /** What is hashed for the lookups of one rebalancing. */
  function ProbedAt(H: Hasher, c: CaseTwo, t: Avl, k: Bytes, version: nat): set<Bytes>
    requires t.Inner?
  {
    match CaseOf(t, k)
    case Still => {}
    case CaseOne => {Top(H, t.left)}
    case CaseTwo =>
      if c.LeftChildFirst? then {Top(H, t.left)} + (if t.left.Inner? then {Top(H, t.left.right)} else {})
      else if t.right.Inner? then {Top(H, Misread(t, version))} else {}
    case CaseThree => {Top(H, t.right)}
    case CaseFour => {Top(H, t.right)} + (if t.right.Inner? then {Top(H, t.right.left)} else {})
  }

  /** And of the whole insertion. */
  function Probed(H: Hasher, c: CaseTwo, t: Avl, k: Bytes, v: Bytes, version: nat): set<Bytes>
  {
    if t.Leaf? then {}
    else
      (if Less(k, t.key) then Probed(H, c, t.left, k, v, version) else Probed(H, c, t.right, k, v, version))
      + (if Grown(c, t, k, v, version).Some? then ProbedAt(H, c, Grown(c, t, k, v, version).value, k, version) else {})
  }

  /** A node of the database, the tree it is from, and a version at which that tree was there. */
  ghost predicate DatedBy(H: Hasher, hash: Hash, node: Node, versions: set<nat>, seen: set<Bytes>, s: Avl, v: nat)
  {
    v in versions && s.version <= v && Sound(H, s, seen) && hash == RootHash(H, s) && node == Collapse(H, s)
  }

  ghost predicate DatedNode(H: Hasher, hash: Hash, node: Node, versions: set<nat>, seen: set<Bytes>)
  {
    exists s, v :: DatedBy(H, hash, node, versions, seen, s, v)
  }

  /** Every node in the database was made by one of the versions. */
  ghost predicate Dated(H: Hasher, db: Db, versions: set<nat>, seen: set<Bytes>)
  {
    forall hash: Hash :: GetNode(db, hash).Some? ==> DatedNode(H, hash, GetNode(db, hash).value, versions, seen)
  }

  ghost predicate Later(version: nat, versions: set<nat>)
  {
    version <= MAX_U32 && forall v :: v in versions ==> v < version
  }

  lemma TopsTell(H: Hasher, a: Avl, b: Avl)
    requires Top(H, a) == Top(H, b) && a.version <= MAX_U32 && b.version <= MAX_U32
    requires (a.Inner? ==> a.height >= 1) && (b.Inner? ==> b.height >= 1)
    ensures a.version == b.version
  {
    var x, y := Collapse(H, a), Collapse(H, b);
    if a.Leaf? && b.Leaf? { LeafPreimage(H, x, y); }
    else if a.Inner? && b.Inner? { InnerPreimage(H, x, y); }
    else if a.Leaf? { PreimageKinds(H, x, y); }
    else { PreimageKinds(H, y, x); }
  }

  lemma SoundTop(H: Hasher, t: Avl, seen: set<Bytes>)
    requires Sound(H, t, seen)
    ensures Top(H, t) in seen && t.version <= MAX_U32 && (t.Inner? ==> t.height >= 1)
  {
  }

  /** A tree made under the next version has no node in the database. */
  lemma FreshUnstored(H: Hasher, db: Db, t: Avl, version: nat, versions: set<nat>, seen: set<Bytes>, all: set<Bytes>)
    requires Dated(H, db, versions, seen) && Later(version, versions)
    requires t.version == version && (t.Inner? ==> t.height >= 1)
    requires NoCollisions(H, all) && seen <= all && Top(H, t) in all
    ensures Unstored(H, db, t)
  {
    var hash := RootHash(H, t);
    if GetNode(db, hash).Some? {
      var s, v :| DatedBy(H, hash, GetNode(db, hash).value, versions, seen, s, v);
      SoundTop(H, s, seen);
      assert !Collision(H, Top(H, s), Top(H, t));
      TopsTell(H, s, t);
      assert false;
    }
  }

  /** Under the hash of a tree already hashed the database has that tree or nothing. */
  lemma KnownOrNothing(H: Hasher, db: Db, t: Avl, versions: set<nat>, seen: set<Bytes>)
    requires Dated(H, db, versions, seen) && NoCollisions(H, seen) && Sound(H, t, seen)
    ensures GetNode(db, RootHash(H, t)) in {None, Some(Collapse(H, t))}
  {
    var hash := RootHash(H, t);
    if GetNode(db, hash).Some? {
      var s, v :| DatedBy(H, hash, GetNode(db, hash).value, versions, seen, s, v);
      HashDetermines(H, s, t, seen);
    }
  }

  lemma MeasuredInnerIsHigh(t: Avl)
    requires Measured(t) && t.Inner?
    ensures t.height >= 1 && Measured(t.left) && Measured(t.right)
  {
  }

  /** One level of the search path: what its rebalancing may look up is new or untouched. */
  lemma LevelBlind(H: Hasher, db: Db, c: CaseTwo, t: Avl, k: Bytes, v: Bytes, version: nat,
                   versions: set<nat>, seen: set<Bytes>, all: set<Bytes>)
    requires Regular(t) && t.Inner? && Sound(H, t, seen) && Grown(c, t, k, v, version).Some?
    requires Dated(H, db, versions, seen) && Later(version, versions) && NoCollisions(H, all) && seen <= all
    requires ProbedAt(H, c, Grown(c, t, k, v, version).value, k, version) <= all
    ensures BlindAt(H, db, c, Grown(c, t, k, v, version).value, k, version)
  {
    hide Regular, Dated, Unstored, Top, IavlDb.Sound, IavlHash.NoCollisions, IavlSpec.Grown, IavlSpec.Set, IavlSpec.Measured, IavlHash.RootHash, IavlDb.GetNode;
    var g := Grown(c, t, k, v, version).value;
    if CaseOf(g, k) != Still {
      var s := RotatedLevel(c, t, k, v, version);
      LessTotal(k, s.key);
      MeasuredInnerIsHigh(s);
      if Less(k, t.key) {
        if CaseOf(g, k).CaseTwo? && c.AsWritten? {
          if g.right.Inner? {
            SidesAreSound(H, t, seen);
            NoCollisionsAmongFewer(H, seen, all);
            KnownOrNothing(H, db, g.right, versions, seen);
            FreshUnstored(H, db, Misread(g, version), version, versions, seen, all);
          }
        } else {
          FreshUnstored(H, db, g.left, version, versions, seen, all);
          if CaseOf(g, k).CaseTwo? {
            if s.right.Inner? { MeasuredInnerIsHigh(s.right); }
            FreshUnstored(H, db, g.left.right, version, versions, seen, all);
          }
        }
      } else {
        FreshUnstored(H, db, g.right, version, versions, seen, all);
        if CaseOf(g, k).CaseFour? {
          if s.left.Inner? { MeasuredInnerIsHigh(s.left); }
          FreshUnstored(H, db, g.right.left, version, versions, seen, all);
        }
      }
    }
  }

  lemma NoCollisionsAmongFewer(H: Hasher, seen: set<Bytes>, all: set<Bytes>)
    requires NoCollisions(H, all) && seen <= all
    ensures NoCollisions(H, seen)
  {
  }

  lemma SidesAreSound(H: Hasher, t: Avl, seen: set<Bytes>)
    requires Sound(H, t, seen) && t.Inner?
    ensures Sound(H, t.left, seen) && Sound(H, t.right, seen)
  {
    assert t.left in Subtrees(t.left) && t.right in Subtrees(t.right);
    SoundSubtree(H, t, t.left, seen);
    SoundSubtree(H, t, t.right, seen);
  }

  /** A level where something rotates: its `k` side has grown, and is new at its root and below. */
  lemma RotatedLevel(c: CaseTwo, t: Avl, k: Bytes, v: Bytes, version: nat) returns (s: Avl)
    requires Regular(t) && t.Inner? && Grown(c, t, k, v, version).Some?
    requires CaseOf(Grown(c, t, k, v, version).value, k) != Still
    ensures var g := Grown(c, t, k, v, version).value;
            && g.key == t.key && s == Side(g, k) && g.version == version
            && (Less(k, t.key) ==> g.right == t.right) && (!Less(k, t.key) ==> g.left == t.left)
            && Measured(s) && s.Inner? && s.version == version && Side(s, k).version == version && s.key != k
            && (CaseOf(g, k) in {CaseOne, CaseTwo} <==> Less(k, t.key))
  {
    s := Set(c, Side(t, k), k, v, version).value;
    RegularBelow(t, k);
    SetFactsHold(c, Side(t, k), k, v, version);
    GrownFacts(c, t, k, v, version);
  }

  /** A database whose nodes were all made before is blind to the insertion under way. */
  lemma {:induction false} FreshIsBlind(H: Hasher, db: Db, c: CaseTwo, t: Avl, k: Bytes, v: Bytes, version: nat,
                                        versions: set<nat>, seen: set<Bytes>, all: set<Bytes>)
    requires Regular(t) && Sound(H, t, seen) && Dated(H, db, versions, seen) && Later(version, versions)
    requires NoCollisions(H, all) && seen <= all && Probed(H, c, t, k, v, version) <= all
    ensures Blind(H, db, c, t, k, v, version)
  {
    hide Regular, Dated, BlindAt, ProbedAt, IavlDb.Sound, IavlHash.NoCollisions, IavlSpec.Grown;
    if t.Inner? {
      RegularBelow(t, k);
      SidesAreSound(H, t, seen);
      if Less(k, t.key) {
        FreshIsBlind(H, db, c, t.left, k, v, version, versions, seen, all);
      } else {
        FreshIsBlind(H, db, c, t.right, k, v, version, versions, seen, all);
      }
      if Grown(c, t, k, v, version).Some? { LevelBlind(H, db, c, t, k, v, version, versions, seen, all); }
    }
  }

  // ---------------------------------------------------------------- over runs

  ghost predicate MadeAt(root: Option<Avl>, version: nat)
  {
    root.Some? ==> MadeBy(root.value, version)
  }

  /** Every node in the database was made by a recorded version, and no recorded tree is younger than its version. */
  ghost predicate AgedHistory(H: Hasher, db: Db, h: map<nat, Option<Avl>>, seen: set<Bytes>)
  {
    Dated(H, db, h.Keys, seen) && forall v :: v in h ==> MadeAt(h[v], v)
  }

  /** And the working tree is no younger than the next version. */
  ghost predicate Aged(H: Hasher, s: State, h: map<nat, Option<Avl>>, seen: set<Bytes>)
  {
    AgedHistory(H, s.db, h, seen) && MadeAt(s.root, s.loaded + 1)
  }

  lemma DatedWider(H: Hasher, db: Db, versions: set<nat>, seen: set<Bytes>, wider: set<Bytes>)
    requires Dated(H, db, versions, seen) && seen <= wider
    ensures Dated(H, db, versions, wider)
  {
    forall hash: Hash | GetNode(db, hash).Some? ensures DatedNode(H, hash, GetNode(db, hash).value, versions, wider) {
      var s, v :| DatedBy(H, hash, GetNode(db, hash).value, versions, seen, s, v);
      assert DatedBy(H, hash, GetNode(db, hash).value, versions, wider, s, v);
    }
  }

  lemma {:induction false} MadeByBelow(t: Avl, s: Avl, version: nat)
    requires MadeBy(t, version) && s in Subtrees(t)
    ensures MadeBy(s, version)
  {
    if s != t {
      if s in Subtrees(t.left) { MadeByBelow(t.left, s, version); } else { MadeByBelow(t.right, s, version); }
    }
  }

  lemma SaveDates(H: Hasher, db: Db, root: Option<Avl>, version: nat, w: Db, versions: set<nat>, seen: set<Bytes>, db': Db)
    requires Dated(H, db, versions, seen) && SoundRoot(H, root, seen) && SaveWrites(H, db, root, w)
    requires MadeAt(root, version)
    requires db' == (db + w)[RootKey(version) := RootHashOf(H, root)]
    ensures Dated(H, db', versions + {version}, seen)
  {
    forall hash: Hash | GetNode(db', hash).Some?
      ensures DatedNode(H, hash, GetNode(db', hash).value, versions + {version}, seen)
    {
      KeysApart(version, hash);
      if NodeKey(hash) in w {
        WrittenIsDated(H, root.value, version, w, versions, seen, hash);
      } else {
        assert GetNode(db, hash) == GetNode(db', hash);
        var s, v :| DatedBy(H, hash, GetNode(db, hash).value, versions, seen, s, v);
        assert DatedBy(H, hash, GetNode(db', hash).value, versions + {version}, seen, s, v);
      }
    }
  }

  lemma WrittenIsDated(H: Hasher, t: Avl, version: nat, w: Db, versions: set<nat>, seen: set<Bytes>, hash: Hash)
    requires Sound(H, t, seen) && MadeBy(t, version) && HoldsNodesOf(H, w, t) && NodeKey(hash) in w
    ensures GetNode(w, hash).Some? && DatedNode(H, hash, GetNode(w, hash).value, versions + {version}, seen)
  {
    var k := NodeKey(hash);
    var s :| s in Subtrees(t) && k == NodeKey(RootHash(H, s)) && w[k] == Serialize(Collapse(H, s));
    NodeKeysApart(hash, RootHash(H, s));
    SoundSubtree(H, t, s, seen);
    MadeByBelow(t, s, version);
    SerializeRoundTrip(Collapse(H, s));
    assert DatedBy(H, hash, Collapse(H, s), versions + {version}, seen, s, version);
  }

  lemma SaveKeepsAged(H: Hasher, s: State, s': State, h: map<nat, Option<Avl>>, seen: set<Bytes>)
    requires Inv(H, s, h, seen) && Aged(H, s, h, seen) && Save'(H, s, s')
    ensures Aged(H, s', Recorded(h, s, Save), seen)
  {
    hide Dated, MadeBy, IavlRuns.Kept, SoundRoot, SaveWrites, RootHashOf, GetRootHash;
    var version := s.loaded + 1;
    if s.root.Some? { MadeByLater(s.root.value, version, version + 1); }
    if version !in s.versions {
      var w :| SaveWrites(H, s.db, s.root, w) && s'.db == (s.db + w)[RootKey(version) := RootHashOf(H, s.root)];
      SaveDates(H, s.db, s.root, version, w, h.Keys, seen, s'.db);
      assert Recorded(h, s, Save).Keys == h.Keys + {version};
    }
  }

  /** What is loaded from an aged history is no younger than where it was recorded. */
  lemma LoadedIsAged(H: Hasher, db: Db, h: map<nat, Option<Avl>>, seen: set<Bytes>, version: nat, versions: set<nat>)
    requires AgedHistory(H, db, h, seen)
    ensures Aged(H, State(db, None, version, versions), h, seen)
    ensures version in h ==> Aged(H, State(db, h[version], version, versions), h, seen)
  {
    hide Dated, MadeBy;
    if version in h && h[version].Some? { MadeByLater(h[version].value, version, version + 1); }
  }

  lemma OpenKeepsAged(H: Hasher, s: State, target: Option<nat>, s': State, h: map<nat, Option<Avl>>, seen: set<Bytes>)
    requires Inv(H, s, h, seen) && Aged(H, s, h, seen) && Open'(H, s, target, s')
    ensures Aged(H, s', h, seen)
  {
    hide Dated, MadeBy, IavlRuns.Holds, IavlRuns.Kept, SoundRoot, GetRootHash, GetVersions;
    VersionsAreRecorded(H, s.db, h, seen);
    if s' != s && s' != State(s.db, None, 0, {}) {
      OpenedIsRecorded(H, s.db, s'.loaded, s'.root, h, seen);
      if s'.root.Some? { MadeByLater(s'.root.value, s'.loaded, s'.loaded + 1); }
    }
  }

  lemma PutKeepsAged(H: Hasher, s: State, key: Bytes, value: Bytes, s': State, h: map<nat, Option<Avl>>,
                     seen: set<Bytes>, wider: set<Bytes>)
    requires Aged(H, s, h, seen) && Put'(s, key, value, s') && seen <= wider
    ensures Aged(H, s', h, wider)
  {
    hide Dated, Updated;
    DatedWider(H, s.db, h.Keys, seen, wider);
  }

  lemma StepKeepsAged(H: Hasher, s: State, op: Op, s': State, h: map<nat, Option<Avl>>, seen: set<Bytes>)
    requires Inv(H, s, h, seen) && Aged(H, s, h, seen) && Next(H, s, op, s')
    ensures Aged(H, s', Recorded(h, s, op), seen)
  {
    hide Dated, IavlRuns.Kept, SoundRoot, Put', Save', Open';
    match op
    case Put(key, value) => PutKeepsAged(H, s, key, value, s', h, seen, seen);
    case Save => SaveKeepsAged(H, s, s', h, seen);
    case Open(target) => OpenKeepsAged(H, s, target, s', h, seen);
  }

  /** In every state of a run. */
  lemma {:induction false} RunKeepsAged(H: Hasher, run: seq<State>, ops: seq<Op>, seen: set<Bytes>, n: nat)
    requires IsRun(H, run, ops) && Accounted(H, run, seen) && n <= |ops|
    ensures Aged(H, run[n], History(run, ops, n), seen)
  {
    hide Inv, Next, NoCollisions, Recorded;
    if n == 0 {
      StartsAged(H, run[0], seen);
    } else {
      RunKeepsAged(H, run, ops, seen, n - 1);
      RunKeepsInv(H, run, ops, seen, n - 1);
      assert StepAt(H, run, ops, n - 1);
      StepKeepsAged(H, run[n - 1], ops[n - 1], run[n], History(run, ops, n - 1), seen);
    }
  }

  lemma StartsAged(H: Hasher, s: State, seen: set<Bytes>)
    requires Init(s)
    ensures Aged(H, s, map[], seen)
  {
  }

  /** In any run, at the latest version, the next insertion as written returns exactly when the
      insertion into the tree does and moves only what is in memory. */
  lemma NextInsertExactly(H: Hasher, c: CaseTwo, run: seq<State>, ops: seq<Op>, seen: set<Bytes>, i: nat,
                          node: Node, t: Avl, key: Bytes, value: Bytes)
    requires IsRun(H, run, ops) && Accounted(H, run, seen) && i <= |ops|
    requires run[i].root == Some(t) && Regular(t) && forall v :: v in run[i].versions ==> v <= run[i].loaded
    requires Insertable(H, run[i].db, node, t, run[i].loaded + 1)
    requires NoCollisions(H, seen + Probed(H, c, t, key, value, run[i].loaded + 1))
    ensures var version := run[i].loaded + 1;
            SetNode(H, Code(c, SlotHash), run[i].db, node, key, value, version, t).Some?
            <==> Set(c, t, key, value, version).Some? && Safe(c, t, LoadsOf(node), key, value, version)
  {
    hide Dated, Regular, Probed, Blind, NoCollisions, Safe, SetNode, LoadsOf, Insertable;
    var version := run[i].loaded + 1;
    RunKeepsInv(H, run, ops, seen, i);
    RunKeepsAged(H, run, ops, seen, i);
    assert AccountedAt(H, run, seen, i);
    FreshIsBlind(H, run[i].db, c, t, key, value, version, run[i].versions, seen, seen + Probed(H, c, t, key, value, version));
    StaleInsertExactly(H, c, run[i].db, node, t, key, value, version);
  }
}
