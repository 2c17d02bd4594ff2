/** The life of a tree over its database: insertions, saved versions, reopenings. Every run keeps
    every saved version readable as it was. */
module IavlRuns {
  import opened ByteStrings
  import opened IavlNode
  import opened IavlSpec
  import opened IavlHash
  import opened IavlDb
  import opened IavlInsert

  datatype State = State(db: Db, root: Option<Avl>, loaded: nat, versions: set<nat>)

  datatype Op = Put(key: Bytes, value: Bytes) | Save | Open(target: Option<nat>)

  /** `EMPTY_HASH`, the hash of the empty string. */
  function EmptyHash(H: Hasher): Hash
  {
    H([])
  }

  function RootHashOf(H: Hasher, root: Option<Avl>): Hash
  {
    if root.Some? then RootHash(H, root.value) else EmptyHash(H)
  }

  function ContentsOf(root: Option<Avl>): Pairs
  {
    if root.Some? then Contents(root.value) else map[]
  }

  function StampsOf(root: Option<Avl>): map<Bytes, nat>
  {
    if root.Some? then Stamps(root.value) else map[]
  }

  ghost predicate SearchTreeOf(root: Option<Avl>)
  {
    root.Some? ==> SearchTree(root.value) && Encodable(root.value)
  }

  ghost predicate Put'(s: State, key: Bytes, value: Bytes, s': State)
  {
    && s'.root.Some? && s' == s.(root := s'.root)
    && (if s.root.None? then s'.root.value == Leaf(key, value, s.loaded + 1)
        else && Updated(s.root.value, key, value, s.loaded + 1, s'.root.value)
             && (MadeBy(s.root.value, s.loaded + 1) ==> MadeBy(s'.root.value, s.loaded + 1)))
  }

  /** The nodes a save adds: only nodes of the tree, and all that were missing. */
  ghost predicate SaveWrites(H: Hasher, db: Db, root: Option<Avl>, w: Db)
  {
    if root.Some? then HoldsNodesOf(H, w, root.value) && Covers(H, db, w, root.value) else w == map[]
  }

  /** Saving under a version that exists succeeds, and writes nothing, only for the same root hash;
      otherwise it is refused and nothing changes. */
  ghost predicate Save'(H: Hasher, s: State, s': State)
  {
    var version := s.loaded + 1;
    if version in s.versions then
      s' == if GetRootHash(s.db, version) == Some(RootHashOf(H, s.root)) then s.(loaded := version) else s
    else
      && s' == State(s'.db, s.root, version, s.versions + {version})
      && exists w :: SaveWrites(H, s.db, s.root, w) && s'.db == (s.db + w)[RootKey(version) := RootHashOf(H, s.root)]
  }

  /** The database holds `root` as version `v`: its root record, and every node under it. */
  ghost predicate Holds(H: Hasher, db: Db, v: nat, root: Option<Avl>)
  {
    && GetRootHash(db, v) == Some(RootHashOf(H, root))
    && (root.Some? ==> RootHash(H, root.value) != EmptyHash(H) && Encodable(root.value) && InDb(H, db, root.value))
  }

  ghost predicate Latest(versions: set<nat>, v: nat)
  {
    v in versions && forall w :: w in versions ==> w <= v
  }

  /** Reopening reads the versions back from the database. A version that is not there is refused. */
  ghost predicate Open'(H: Hasher, s: State, target: Option<nat>, s': State)
  {
    if target.Some? then
      if GetRootHash(s.db, target.value).None? then s' == s
      else s' == State(s.db, s'.root, target.value, GetVersions(s.db)) && Holds(H, s.db, target.value, s'.root)
    else if GetVersions(s.db) == {} then s' == State(s.db, None, 0, {})
    else
      && Latest(GetVersions(s.db), s'.loaded)
      && s' == State(s.db, s'.root, s'.loaded, GetVersions(s.db)) && Holds(H, s.db, s'.loaded, s'.root)
  }

  ghost predicate Next(H: Hasher, s: State, op: Op, s': State)
  {
    match op
    case Put(key, value) => Put'(s, key, value, s')
    case Save => Save'(H, s, s')
    case Open(target) => Open'(H, s, target, s')
  }

  predicate Init(s: State)
  {
    s == State(map[], None, 0, {})
  }

  ghost predicate StepAt(H: Hasher, run: seq<State>, ops: seq<Op>, i: nat)
  {
    i < |ops| && i + 1 < |run| && Next(H, run[i], ops[i], run[i + 1])
  }

  ghost predicate IsRun(H: Hasher, run: seq<State>, ops: seq<Op>)
  {
    && |run| == |ops| + 1 && Init(run[0])
    && forall i :: 0 <= i < |ops| ==> StepAt(H, run, ops, i)
  }

  ghost predicate AccountedAt(H: Hasher, run: seq<State>, seen: set<Bytes>, i: nat)
    requires i < |run|
  {
    run[i].loaded < MAX_U32 && (run[i].root.Some? ==> Preimages(H, run[i].root.value) <= seen)
  }

  /** Versions stay in 32 bits, and everything hashed in the run is in `seen`, free of collisions. */
  ghost predicate Accounted(H: Hasher, run: seq<State>, seen: set<Bytes>)
  {
    && NoCollisions(H, seen) && [] in seen
    && forall i :: 0 <= i < |run| ==> AccountedAt(H, run, seen, i)
  }

  /** What has been saved under which version after `n` steps. */
  function History(run: seq<State>, ops: seq<Op>, n: nat): map<nat, Option<Avl>>
    requires |run| == |ops| + 1 && n <= |ops|
  {
    if n == 0 then map[]
    else
      Recorded(History(run, ops, n - 1), run[n - 1], ops[n - 1])
  }

  // ---------------------------------------------------------------- the invariant

  ghost predicate SoundRoot(H: Hasher, root: Option<Avl>, seen: set<Bytes>)
  {
    root.Some? ==> Sound(H, root.value, seen)
  }

  /** Every version recorded is held, and the database has no other root records. */
  ghost predicate Kept(H: Hasher, db: Db, h: map<nat, Option<Avl>>, seen: set<Bytes>)
  {
    && (forall v :: v in h ==> Holds(H, db, v, h[v]) && SoundRoot(H, h[v], seen))
    && (forall k :: k in db && ROOTS_PREFIX <= k ==> exists v :: v in h && k == RootKey(v))
  }

  ghost predicate Inv(H: Hasher, s: State, h: map<nat, Option<Avl>>, seen: set<Bytes>)
  {
    && Kept(H, s.db, h, seen) && s.versions == h.Keys && SoundRoot(H, s.root, seen)
  }

  lemma VersionsAreRecorded(H: Hasher, db: Db, h: map<nat, Option<Avl>>, seen: set<Bytes>)
    requires Kept(H, db, h, seen)
    ensures GetVersions(db) == h.Keys
  {
    forall v | v in h ensures v in GetVersions(db) {
      assert Holds(H, db, v, h[v]);
      RootKeyDecodes(v);
      assert RootKey(v) in db;
    }
    forall v | v in GetVersions(db) ensures v in h {
      var k :| k in db && VersionOf(k) == Some(v);
      var u :| u in h && k == RootKey(u);
      RootKeyDecodes(u);
    }
  }

  lemma RecordsAreHistory(H: Hasher, db: Db, h: map<nat, Option<Avl>>, seen: set<Bytes>)
    requires Kept(H, db, h, seen)
    ensures GetVersions(db) == h.Keys
    ensures forall v :: GetRootHash(db, v).Some? <==> v in h
    ensures forall v :: v in h ==> Holds(H, db, v, h[v]) && SoundRoot(H, h[v], seen)
  {
    VersionsAreRecorded(H, db, h, seen);
    forall v | GetRootHash(db, v).Some? ensures v in h {
      RootKeyDecodes(v);
      assert RootKey(v) in db;
    }
    forall v | v in h ensures GetRootHash(db, v).Some? {
      assert Holds(H, db, v, h[v]);
    }
  }

  /** A root hash is never that of the empty tree, as the empty string is not a node's preimage. */
  lemma NodeIsNotEmpty(H: Hasher, t: Avl, seen: set<Bytes>)
    requires NoCollisions(H, seen) && [] in seen && Preimages(H, t) <= seen
    ensures RootHash(H, t) != EmptyHash(H)
  {
    var x := HashSerialize(H, Collapse(H, t));
    assert x in seen && !Collision(H, x, []);
  }

  /** The same root hash is the same root. */
  lemma RootHashOfDetermines(H: Hasher, a: Option<Avl>, b: Option<Avl>, seen: set<Bytes>)
    requires NoCollisions(H, seen) && [] in seen && SoundRoot(H, a, seen) && SoundRoot(H, b, seen)
    requires RootHashOf(H, a) == RootHashOf(H, b)
    ensures a == b
  {
    if a.Some? { NodeIsNotEmpty(H, a.value, seen); }
    if b.Some? { NodeIsNotEmpty(H, b.value, seen); }
    if a.Some? && b.Some? { HashDetermines(H, a.value, b.value, seen); }
  }

  /** A new version recorded, and its nodes written, leave every earlier version held. */
  lemma SaveKeepsVersions(H: Hasher, db: Db, root: Option<Avl>, version: nat, w: Db, h: map<nat, Option<Avl>>, seen: set<Bytes>)
    requires NoCollisions(H, seen) && [] in seen && Kept(H, db, h, seen) && SoundRoot(H, root, seen)
    requires SaveWrites(H, db, root, w) && version !in h
    ensures Kept(H, (db + w)[RootKey(version) := RootHashOf(H, root)], h[version := root], seen)
  {
    var db' := (db + w)[RootKey(version) := RootHashOf(H, root)];
    var h' := h[version := root];
    forall v | v in h' ensures Holds(H, db', v, h'[v]) && SoundRoot(H, h'[v], seen) {
      if v == version { NewVersionHeld(H, db, root, version, w, seen); } else { OldVersionHeld(H, db, root, version, w, v, h[v], seen); }
    }
    forall k | k in db' && ROOTS_PREFIX <= k ensures exists v :: v in h' && k == RootKey(v) {
      if k == RootKey(version) {
        assert version in h';
      } else if k in w {
        WritesAreNotRoots(H, w, root.value, k);
      } else {
        var v :| v in h && k == RootKey(v);
        assert v in h';
      }
    }
  }

  lemma WritesAreNotRoots(H: Hasher, w: Db, t: Avl, k: Bytes)
    requires HoldsNodesOf(H, w, t) && k in w
    ensures !(ROOTS_PREFIX <= k)
  {
    var s :| s in Subtrees(t) && k == NodeKey(RootHash(H, s)) && w[k] == Serialize(Collapse(H, s));
    assert k[0] == 2;
  }

  lemma NewVersionHeld(H: Hasher, db: Db, root: Option<Avl>, version: nat, w: Db, seen: set<Bytes>)
    requires NoCollisions(H, seen) && [] in seen && SoundRoot(H, root, seen) && SaveWrites(H, db, root, w)
    ensures Holds(H, (db + w)[RootKey(version) := RootHashOf(H, root)], version, root)
  {
    if root.Some? {
      NodeIsNotEmpty(H, root.value, seen);
      WritesComplete(H, db, w, root.value, seen);
      RootRecordsDoNotTouchNodes(H, db + w, version, RootHashOf(H, root), root.value);
    }
  }

  lemma OldVersionHeld(H: Hasher, db: Db, root: Option<Avl>, version: nat, w: Db, v: nat, old': Option<Avl>, seen: set<Bytes>)
    requires NoCollisions(H, seen) && SoundRoot(H, root, seen) && SaveWrites(H, db, root, w)
    requires Holds(H, db, v, old') && SoundRoot(H, old', seen) && v != version
    ensures Holds(H, (db + w)[RootKey(version) := RootHashOf(H, root)], v, old')
  {
    if RootKey(v) == RootKey(version) { RootKeysApart(v, version); }
    if RootKey(v) in w { WritesAreNotRoots(H, w, root.value, RootKey(v)); }
    if old'.Some? {
      if root.Some? { WritesKeepInDb(H, db, w, root.value, old'.value, seen); } else { assert db + w == db; }
      RootRecordsDoNotTouchNodes(H, db + w, version, RootHashOf(H, root), old'.value);
    }
  }

  /** The database holds at most one root under a version. */
  lemma HoldsOnlyOne(H: Hasher, db: Db, v: nat, a: Option<Avl>, b: Option<Avl>)
    requires Holds(H, db, v, a) && Holds(H, db, v, b)
    ensures a == b
  {
    if a.Some? && b.Some? { StoredTreeUnique(H, db, a.value, b.value); }
  }

  function Recorded(h: map<nat, Option<Avl>>, s: State, op: Op): map<nat, Option<Avl>>
  {
    if op.Save? && s.loaded + 1 !in s.versions then h[s.loaded + 1 := s.root] else h
  }

  lemma SaveKeepsInv(H: Hasher, s: State, s': State, h: map<nat, Option<Avl>>, seen: set<Bytes>)
    requires Inv(H, s, h, seen) && Save'(H, s, s') && NoCollisions(H, seen) && [] in seen
    ensures Inv(H, s', Recorded(h, s, Save), seen)
  {
    if s.loaded + 1 !in s.versions {
      var w :| SaveWrites(H, s.db, s.root, w) && s'.db == (s.db + w)[RootKey(s.loaded + 1) := RootHashOf(H, s.root)];
      SaveKeepsVersions(H, s.db, s.root, s.loaded + 1, w, h, seen);
    }
  }

  lemma OpenKeepsInv(H: Hasher, s: State, target: Option<nat>, s': State, h: map<nat, Option<Avl>>, seen: set<Bytes>)
    requires Inv(H, s, h, seen) && Open'(H, s, target, s')
    ensures Inv(H, s', h, seen)
  {
    VersionsAreRecorded(H, s.db, h, seen);
    if s' != s && s' != State(s.db, None, 0, {}) {
      OpenedIsRecorded(H, s.db, s'.loaded, s'.root, h, seen);
    }
  }

  lemma OpenedIsRecorded(H: Hasher, db: Db, v: nat, root: Option<Avl>, h: map<nat, Option<Avl>>, seen: set<Bytes>)
    requires Kept(H, db, h, seen) && Holds(H, db, v, root)
    ensures v in h && root == h[v]
  {
    RootKeyDecodes(v);
    var u :| u in h && RootKey(v) == RootKey(u);
    RootKeysApart(v, u);
    HoldsOnlyOne(H, db, v, root, h[v]);
  }

  lemma StepKeepsInv(H: Hasher, s: State, op: Op, s': State, h: map<nat, Option<Avl>>, seen: set<Bytes>)
    requires Inv(H, s, h, seen) && Next(H, s, op, s') && NoCollisions(H, seen) && [] in seen
    requires s.loaded < MAX_U32 && (s'.root.Some? ==> Preimages(H, s'.root.value) <= seen)
    ensures Inv(H, s', Recorded(h, s, op), seen)
  {
    match op
    case Put(key, value) =>
    case Save => SaveKeepsInv(H, s, s', h, seen);
    case Open(target) => OpenKeepsInv(H, s, target, s', h, seen);
  }

  /** The invariant after `n` steps. */
  ghost predicate InvAt(H: Hasher, run: seq<State>, ops: seq<Op>, seen: set<Bytes>, n: nat)
    requires |run| == |ops| + 1 && n <= |ops|
  {
    Inv(H, run[n], History(run, ops, n), seen)
  }

  lemma RunStepKeepsInv(H: Hasher, run: seq<State>, ops: seq<Op>, seen: set<Bytes>, n: nat, h: map<nat, Option<Avl>>)
    requires StepAt(H, run, ops, n) && NoCollisions(H, seen) && [] in seen
    requires AccountedAt(H, run, seen, n) && AccountedAt(H, run, seen, n + 1)
    requires Inv(H, run[n], h, seen)
    ensures Inv(H, run[n + 1], Recorded(h, run[n], ops[n]), seen)
  {
    StepKeepsInv(H, run[n], ops[n], run[n + 1], h, seen);
  }

  lemma InitHolds(H: Hasher, s: State, seen: set<Bytes>)
    requires Init(s)
    ensures Inv(H, s, map[], seen)
  {
  }

  lemma {:induction false} RunKeepsInv(H: Hasher, run: seq<State>, ops: seq<Op>, seen: set<Bytes>, n: nat)
    requires IsRun(H, run, ops) && Accounted(H, run, seen) && n <= |ops|
    ensures InvAt(H, run, ops, seen, n)
  {
    hide Inv, Next, NoCollisions, Recorded;
    InitHolds(H, run[0], seen);
    if n > 0 {
      RunKeepsInv(H, run, ops, seen, n - 1);
      assert StepAt(H, run, ops, n - 1) && AccountedAt(H, run, seen, n - 1) && AccountedAt(H, run, seen, n);
      RunStepKeepsInv(H, run, ops, seen, n - 1, History(run, ops, n - 1));
    }
  }

  /** A version once recorded is never recorded differently. */
  lemma {:induction false} HistoryGrows(H: Hasher, run: seq<State>, ops: seq<Op>, seen: set<Bytes>, m: nat, n: nat, v: nat)
    requires IsRun(H, run, ops) && Accounted(H, run, seen) && m <= n <= |ops|
    requires v in History(run, ops, m)
    ensures v in History(run, ops, n) && History(run, ops, n)[v] == History(run, ops, m)[v]
  {
    if m < n {
      HistoryGrows(H, run, ops, seen, m, n - 1, v);
      RunKeepsInv(H, run, ops, seen, n - 1);
    }
  }

  /** A save that succeeded, whether it wrote the version or found it there already. */
  ghost predicate Saved(run: seq<State>, ops: seq<Op>, i: nat)
  {
    i < |ops| && i + 1 < |run| && ops[i].Save? && run[i + 1].loaded == run[i].loaded + 1
  }

  lemma SavedIsRecorded(H: Hasher, run: seq<State>, ops: seq<Op>, seen: set<Bytes>, i: nat)
    requires IsRun(H, run, ops) && Accounted(H, run, seen) && Saved(run, ops, i)
    ensures var h, v := History(run, ops, i + 1), run[i + 1].loaded; v in h && h[v] == run[i].root
  {
    RunKeepsInv(H, run, ops, seen, i);
    assert StepAt(H, run, ops, i);
    var h, v := History(run, ops, i), run[i + 1].loaded;
    if v in run[i].versions {
      assert Holds(H, run[i].db, v, h[v]) && SoundRoot(H, h[v], seen);
      RootHashOfDetermines(H, h[v], run[i].root, seen);
    }
  }

  /** In any run, whatever is written later, a saved version stays in the database as the very tree
      it was when saved, and reopening it succeeds and gives exactly that tree and its map. */
  lemma SnapshotPersists(H: Hasher, run: seq<State>, ops: seq<Op>, seen: set<Bytes>, i: nat, j: nat, s': State)
    requires IsRun(H, run, ops) && Accounted(H, run, seen) && Saved(run, ops, i) && i < j <= |ops|
    ensures var v := run[i + 1].loaded;
            && v in run[j].versions && v in GetVersions(run[j].db)
            && Holds(H, run[j].db, v, run[i].root)
            && (Open'(H, run[j], Some(v), s') <==> s' == State(run[j].db, run[i].root, v, run[j].versions))
            && (Open'(H, run[j], Some(v), s') ==> ContentsOf(s'.root) == ContentsOf(run[i].root))
  {
    var v := run[i + 1].loaded;
    SavedIsRecorded(H, run, ops, seen, i);
    HistoryGrows(H, run, ops, seen, i + 1, j, v);
    RunKeepsInv(H, run, ops, seen, j);
    var h := History(run, ops, j);
    assert Holds(H, run[j].db, v, h[v]);
    VersionsAreRecorded(H, run[j].db, h, seen);
    if Open'(H, run[j], Some(v), s') {
      HoldsOnlyOne(H, run[j].db, v, s'.root, run[i].root);
    }
  }
}
