/** A store: the tree under a block cache under a transaction cache. */
module KvStore {
  import opened ByteStrings
  import opened IavlNode
  import opened IavlSpec
  import opened IavlHash
  import opened IavlDb
  import opened IavlInsert
  import opened IavlRuns
  import opened IavlFresh
  import opened IavlDisk
  import opened IavlTree
  import opened Hex
  import opened IavlTransfer
  import opened IavlRange
  import opened SortedKeys
  import opened CacheLayers
  import opened BlockWrites

  lemma ExportTakeable(H: Hasher, t: Avl, state: ModuleState)
    requires IsExport(H, state, t)
    ensures Takeable(state) && ReadHex(state.root) == Some(RootHash(H, t))
    ensures RootAmong(state, state.nodes.Keys) == Some(Collapse(H, t)) && SearchTree(t) && Encodable(t)
  {
    ExportParses(H, t, state);
    PrintedReadsBack(RootHash(H, t));
  }

  lemma TakenOver(H: Hasher, t: Avl, state: ModuleState, db: Db, db': Db)
    requires IsExport(H, state, t) && Imported(db, state.nodes, state.nodes.Keys, db')
    ensures Rep(H, db', Collapse(H, t), t)
  {
    ImportStores(H, t, state.nodes, db, db');
    LoadedStandsFor(H, db', t);
  }

  /** Every version saved is still there, and none besides. */
  ghost predicate StillKept(H: Hasher, db: Db, h: map<nat, Option<Avl>>, seen: set<Bytes>)
  {
    Kept(H, db, h, seen) && forall v :: GetRootHash(db, v).Some? <==> v in h
  }

  lemma VersionsKept(H: Hasher, t: Avl, state: ModuleState, db: Db, db': Db, h: map<nat, Option<Avl>>, seen: set<Bytes>)
    requires IsExport(H, state, t) && Imported(db, state.nodes, state.nodes.Keys, db')
    requires Kept(H, db, h, seen) && NoCollisions(H, seen + Preimages(H, t))
    ensures StillKept(H, db', h, seen + Preimages(H, t))
  {
    KeptWider(H, db, h, seen, seen + Preimages(H, t));
    ImportKeepsVersions(H, t, state.nodes, db, db', h, seen + Preimages(H, t));
  }

  class KVStore {
    const tree: Tree
    var blockCache: Pairs
    var txCache: Pairs

    constructor (tree: Tree)
      ensures this.tree == tree && blockCache == map[] && txCache == map[]
    {
      this.tree, blockCache, txCache := tree, map[], map[];
    }

    ghost function Footprint(): set<object>
    {
      {this, tree, tree.nodeDb}
    }

    ghost predicate Valid()
      reads Footprint()
    {
      tree.Valid()
    }

    ghost predicate Readable()
      reads Footprint()
    {
      tree.Readable()
    }

    ghost function Value(): Layers<Bytes>
      reads Footprint()
    {
      Layers(ContentsOf(tree.tree), blockCache, txCache)
    }

    method Get(key: Bytes) returns (r: Option<Bytes>)
      requires Readable()
      ensures r == Value().Get(key)
    {
      if key !in txCache {
        if key !in blockCache {
          r := tree.Get(key);
          return;
        }
        return Some(blockCache[key]);
      }
      r := Some(txCache[key]);
    }

    /** An empty key is a panic. */
    method Set(key: Bytes, value: Bytes) returns (ok: bool)
      modifies this`txCache
      ensures ok <==> key != []
      ensures Value() == if ok then old(Value()).Put(key, value) else old(Value())
    {
      if key == [] {
        return false;
      }
      txCache := txCache[key := value];
      ok := true;
    }

    method WriteThenClearTxCache()
      modifies this
      ensures old(Valid()) ==> Valid()
      ensures Value() == old(Value()).Promote()
    {
      var keys := Sorted(txCache.Keys);
      RestrictedEnds(blockCache, txCache, keys);
      for i := 0 to |keys|
        invariant txCache == old(txCache)
        invariant blockCache == old(blockCache) + Restricted(txCache, keys[..i])
      {
        RestrictedNext(old(blockCache), txCache, keys, i);
        blockCache := blockCache[keys[i] := txCache[keys[i]]];
      }
      txCache := map[];
    }

    method ClearTxCache()
      modifies this`txCache
      ensures old(Valid()) ==> Valid()
      ensures Value() == old(Value()).Discard()
    {
      txCache := map[];
    }

    /** What every step of the flush leaves alone. */
    twostate predicate SameVersions()
      reads Footprint()
    {
      tree.history == old(tree.history) && tree.versions == old(tree.versions) && tree.loadedVersion == old(tree.loadedVersion)
    }

    /** One insertion of the flush; `false` is a panic. */
    method WriteKey(key: Bytes, ghost i: nat, ghost before: Option<Avl>) returns (ok: bool)
      requires Valid() && tree.loadedVersion < MAX_U32 && Partway(blockCache, i, before, tree.tree)
      requires i < |Sorted(blockCache.Keys)| && key == Sorted(blockCache.Keys)[i] && key in blockCache
      modifies tree
      ensures Valid() && SameVersions() && (old(tree.IsAged()) ==> tree.IsAged())
      ensures ok ==> Partway(blockCache, i + 1, before, tree.tree)
      ensures Exact(tree.code, old(FlushSafe(blockCache, i))) ==>
                && Rest(tree.code.caseTwo, old(tree.tree), blockCache, i, tree.loadedVersion + 1)
                   == (if ok then Rest(tree.code.caseTwo, tree.tree, blockCache, i + 1, tree.loadedVersion + 1) else None)
                && (ok ==> Exact(tree.code, FlushSafe(blockCache, i + 1)))
      ensures tree.code.order.SlotHash? && old(FlushBlind(blockCache, i)) ==>
                && old(FlushGoes(blockCache, i)) == (ok && FlushGoes(blockCache, i + 1))
                && (ok ==> FlushBlind(blockCache, i + 1))
    {
      hide IavlTree.RootRep, SortedKeys.Sorted, Rest, RestSafe, RestBlind, Partway, IavlRuns.Inv, IavlTree.SetOf, IavlTree.SafeOf, IavlTree.SetLoadsOf, IavlTree.BlindOf, IavlTree.RootLoads, IavlTree.Tree.IsAged, IavlTree.Tree.IsFresh;
      ghost var root, l := tree.tree, RootLoads(tree.root);
      ghost var next := SetOf(tree.code.caseTwo, root, key, blockCache[key], tree.loadedVersion + 1);
      WriteNext(tree.code.caseTwo, root, next, blockCache, i, key, tree.loadedVersion + 1);
      ok := tree.Set(key, blockCache[key]);
      if ok { PartwayNext(blockCache, i, before, root, tree.tree, key); }
    }

    /** The writes of the cache from the `i`th key on move only what is in memory. */
    ghost predicate FlushSafe(cache: Pairs, i: nat)
      reads tree
    {
      RestSafe(tree.code.caseTwo, tree.tree, RootLoads(tree.root), cache, i, tree.loadedVersion + 1)
    }

    ghost predicate FlushBlind(cache: Pairs, i: nat)
      reads tree, tree.nodeDb
    {
      RestBlind(tree.H, tree.nodeDb.db, tree.code.caseTwo, tree.tree, RootLoads(tree.root), cache, i, tree.loadedVersion + 1)
    }

    ghost predicate FlushGoes(cache: Pairs, i: nat)
      reads tree
    {
      RestGoes(tree.code.caseTwo, tree.tree, RootLoads(tree.root), cache, i, tree.loadedVersion + 1)
    }

    /** The block comes at the latest version of an aged store, whose tree is empty or regular at every turn,
        and nothing that is hashed for it collides with what has been hashed. */
    ghost predicate FlushFresh(cache: Pairs)
      reads tree, tree.nodeDb
    {
      var version := tree.loadedVersion + 1;
      && tree.IsAged() && tree.AtHead()
      && RegularAll(tree.code.caseTwo, tree.tree, RootLoads(tree.root), Ordered(cache), version)
      && NoCollisions(tree.H, tree.seen + HashedAll(tree.H, tree.code.caseTwo, tree.tree, Ordered(cache), version))
    }

    /** The same for the program as written: a block of which no write that goes through tilts the tree, into a
        balanced tree with room. */
    ghost predicate CalmBlock(cache: Pairs)
      reads tree, tree.nodeDb
    {
      var version := tree.loadedVersion + 1;
      && tree.code == AS_WRITTEN && tree.IsAged() && tree.AtHead()
      && HasRoom(tree.tree, |cache|) && Calm(tree.tree, RootLoads(tree.root), Ordered(cache), version)
      && NoCollisions(tree.H, tree.seen + HashedAll(tree.H, AsWritten, tree.tree, Ordered(cache), version))
    }

    /** No write is forecast to panic, and each moves only what is in memory when its turn comes. */
    ghost predicate BlockGoes(cache: Pairs)
      reads tree
    {
      GoesThrough(tree.tree, RootLoads(tree.root), Ordered(cache), tree.loadedVersion + 1)
    }

    lemma FreshFlushIsBlind(cache: Pairs)
      requires Valid() && FlushFresh(cache)
      ensures FlushBlind(cache, 0)
    {
      hide Dated, BlindAll, RegularAll, HashedAll, IavlHash.NoCollisions, IavlRuns.Kept, IavlTree.RootRep, RootLoads;
      assert Ordered(cache)[0..] == Ordered(cache);
      BlockIsBlind(tree.H, tree.nodeDb.db, tree.code.caseTwo, tree.tree, RootLoads(tree.root), Ordered(cache), tree.loadedVersion + 1,
                   tree.history.Keys, tree.seen, tree.seen + HashedAll(tree.H, tree.code.caseTwo, tree.tree, Ordered(cache), tree.loadedVersion + 1));
    }

    lemma CalmIsFresh(cache: Pairs)
      requires CalmBlock(cache)
      ensures FlushFresh(cache) && (FlushGoes(cache, 0) <==> BlockGoes(cache))
    {
      hide SafeAll, RegularAll, HashedAll, Calm, GoesThrough, HasRoom, WriteAll, IavlHash.NoCollisions, RootLoads, Tree.IsAged;
      assert Ordered(cache)[0..] == Ordered(cache);
      OrderedLength(cache);
      CalmGoesExactly(tree.tree, RootLoads(tree.root), Ordered(cache), tree.loadedVersion + 1);
    }

    /** What decides a flush, foretold before it starts. */
    lemma FlushForetold(cache: Pairs)
      requires Valid()
      ensures FlushFresh(cache) ==> FlushBlind(cache, 0)
      ensures CalmBlock(cache) ==> tree.code.order.SlotHash? && FlushBlind(cache, 0) && tree.AtHead() && (FlushGoes(cache, 0) <==> BlockGoes(cache))
    {
      hide FlushBlind, FlushGoes, BlockGoes, RegularAll, HashedAll, Calm, HasRoom, IavlHash.NoCollisions, IavlTree.Tree.Valid;
      if CalmBlock(cache) { CalmIsFresh(cache); }
      if FlushFresh(cache) { FreshFlushIsBlind(cache); }
    }

    /** `false` is a panic in one of the insertions. As written, with a database blind to the trees under way,
        there is one exactly if an insertion panics or would move what is not in memory; at the latest version
        of an aged store the database is, and for a calm block the forecasts tell which. */
    method WriteThenClearBlockCache() returns (ok: bool)
      requires Valid() && tree.loadedVersion < MAX_U32
      modifies this, tree
      ensures Valid() && SameVersions() && txCache == old(txCache) && (old(tree.IsAged()) ==> tree.IsAged())
      ensures ok ==> Value() == Layers(old(Value().base + blockCache), map[], txCache)
      ensures Exact(tree.code, old(FlushSafe(blockCache, 0))) ==>
                Committed(tree.code.caseTwo, old(tree.tree), old(blockCache), tree.loadedVersion + 1)
                == if ok then Some(tree.tree) else None
      ensures tree.code.order.SlotHash? && old(FlushBlind(blockCache, 0)) ==> (ok <==> old(FlushGoes(blockCache, 0)))
      ensures tree.code.order.SlotHash? && old(FlushFresh(blockCache)) ==> (ok <==> old(FlushGoes(blockCache, 0)))
      ensures old(CalmBlock(blockCache)) ==> (ok <==> old(BlockGoes(blockCache)))
    {
      hide IavlTree.Tree.Valid, IavlTree.Tree.IsAged, FlushSafe, FlushBlind, FlushFresh, CalmBlock, BlockGoes, Partway, IavlTree.RootRep, IavlTree.RootLoads, SortedKeys.Sorted, Rest, RestGoes, Committed;
      FlushForetold(blockCache);
      var keys := Sorted(blockCache.Keys);
      ghost var c, version, cache, before := tree.code.caseTwo, tree.loadedVersion + 1, blockCache, tree.tree;
      ghost var exact := Exact(tree.code, FlushSafe(blockCache, 0));
      ghost var blind, goes := tree.code.order.SlotHash? && FlushBlind(blockCache, 0), FlushGoes(blockCache, 0);
      FlushStarts(c, cache, before, version);
      for i := 0 to |keys|
        invariant Valid() && SameVersions() && (old(tree.IsAged()) ==> tree.IsAged())
        invariant blockCache == cache && txCache == old(txCache)
        invariant Partway(cache, i, before, tree.tree)
        invariant blind ==> FlushBlind(cache, i) && FlushGoes(cache, i) == goes
        invariant exact ==> Exact(tree.code, FlushSafe(cache, i)) && Rest(c, tree.tree, cache, i, version) == Committed(c, before, cache, version)
      {
        assert keys[i] in keys;
        ok := WriteKey(keys[i], i, before);
        if !ok {
          return;
        }
      }
      FlushEnds(c, cache, before, tree.tree, version);
      blockCache := map[];
      ok := true;
    }

    /** Whether a commit returns is settled: the next version is not taken, and the insertions read straight, or
        move only what is in memory, or meet a database blind to the trees under way. */
    ghost predicate Decided()
      reads Footprint()
    {
      && tree.loadedVersion + 1 !in tree.history
      && (Exact(tree.code, FlushSafe(blockCache + txCache, 0)) || FlushBlind(blockCache + txCache, 0))
    }

    /** The insertions of a commit all return, and move only what is in memory unless the code reads straight. */
    ghost predicate Goes()
      reads Footprint()
    {
      && Committed(tree.code.caseTwo, tree.tree, blockCache + txCache, tree.loadedVersion + 1).Some?
      && Exact(tree.code, FlushSafe(blockCache + txCache, 0))
    }

    /** At the latest version of an aged store it is settled, and for a calm block foretold. */
    lemma CommitForetold()
      requires Valid()
      ensures FlushFresh(blockCache + txCache) ==> Decided()
      ensures CalmBlock(blockCache + txCache) ==> Decided() && (Goes() <==> BlockGoes(blockCache + txCache))
    {
      hide FlushBlind, RestSafe, BlockGoes, RegularAll, HashedAll, Calm, HasRoom, IavlHash.NoCollisions, IavlTree.Tree.Valid;
      FlushForetold(blockCache + txCache);
    }

    /** Everything cached goes into the tree, and the tree is saved as the next version. `None` is a
        panic: an insertion that panics, or a next version saved before as something else. */
    method Commit() returns (r: Option<Hash>)
      requires Valid() && tree.loadedVersion < MAX_U32
      modifies this, tree, tree.nodeDb
      ensures r.Some? ==> Value() == old(Value()).Flush() && r == Some(RootHashOf(tree.H, tree.tree))
      ensures r.Some? ==> tree.loadedVersion == old(tree.loadedVersion) + 1 && (old(tree.IsAged()) ==> tree.IsAged())
      ensures r.Some? && old(tree.IsLatest()) ==> tree.IsLatest()
      ensures r.Some? && NoCollisions(tree.H, tree.seen) ==> Valid() && SavedAsIs()
      ensures Exact(tree.code, old(FlushSafe(blockCache + txCache, 0))) ==>
                var t := Committed(tree.code.caseTwo, old(tree.tree), old(blockCache + txCache), old(tree.loadedVersion) + 1);
                (r.Some? ==> t == Some(tree.tree))
                && (r.None? && old(tree.loadedVersion) + 1 !in old(tree.history) ==> t.None?)
      ensures old(Decided()) ==> (r.Some? <==> old(Goes()))
      ensures tree.code.order.SlotHash? && old(FlushFresh(blockCache + txCache)) ==> (r.Some? <==> old(Goes()))
      ensures old(CalmBlock(blockCache + txCache)) ==> (r.Some? <==> old(BlockGoes(blockCache + txCache)))
    {
      hide IavlTree.RootRep, SortedKeys.Sorted, Rest, RestSafe, IavlRuns.Inv, IavlRuns.Save', IavlRuns.Recorded, IavlTree.RootLoads, RestBlind, IavlTree.Tree.IsAged, FlushFresh, CalmBlock, BlockGoes;
      CommitForetold();
      WriteThenClearTxCache();
      var ok := WriteThenClearBlockCache();
      if !ok {
        return None;
      }
      var saved := tree.SaveVersion();
      r := if saved.SavedAs? then Some(saved.hash) else None;
    }

    /** The tree is recorded under its version. */
    ghost predicate SavedAsIs()
      reads tree
    {
      tree.loadedVersion in tree.history && tree.history[tree.loadedVersion] == tree.tree
    }

    /** What is committed within the bounds; cached writes are not covered. */
    method Range(start: Bound, end: Bound) returns (all: seq<Entry>)
      requires Readable()
      ensures all == Within(if tree.tree.Some? then Entries(tree.tree.value) else [], start, end)
    {
      var range := new IavlRange.Range(tree.H, tree.nodeDb.db, tree.root, start, end, tree.tree);
      all := range.Collect();
    }

    /** `None` is a panic: a version that is not there, or one saved empty. */
    method LoadAllNodes(version: nat) returns (r: Option<ModuleState>)
      requires Valid()
      ensures r.Some? <==> version in tree.history && tree.history[version].Some?
      ensures r.Some? ==> r.value.root == NameOf(tree.H, tree.history[version].value)
      ensures r.Some? ==> Exports(tree.H, tree.history[version].value, r.value.nodes)
    {
      r := GetAllNodes(tree.H, tree.nodeDb, version, tree.history, tree.seen);
    }

    /** Takes over the nodes of a message; one with a name or node that cannot be read is a panic (`None`).
        After the export of another store's version `t` the store reads as `t` under its own caches, the
        hash returned is the root hash of `t`, and nothing saved before is lost. */
    method ProcessAllStateInfo(state: ModuleState, version: nat, ghost t: Avl) returns (r: Option<Hash>)
      modifies tree, tree.nodeDb
      ensures r.Some? <==> Takeable(state)
      ensures r.Some? ==> r == ReadHex(state.root) && tree.loadedVersion == version && tree.versions == old(tree.versions) + {version}
      ensures r.Some? ==> tree.root == RootAmong(state, state.nodes.Keys)
      ensures r.Some? ==> Imported(old(tree.nodeDb.db), state.nodes, state.nodes.Keys, tree.nodeDb.db)
      ensures tree.history == old(tree.history) && tree.seen == old(tree.seen)
      ensures IsExport(tree.H, state, t) ==> r == Some(RootHash(tree.H, t)) && Readable() && tree.tree == Some(t)
      ensures IsExport(tree.H, state, t) ==> Value() == Layers(Contents(t), blockCache, txCache)
      ensures old(Valid()) && IsExport(tree.H, state, t) && NoCollisions(tree.H, tree.seen + Preimages(tree.H, t)) ==>
                StillKept(tree.H, tree.nodeDb.db, tree.history, tree.seen + Preimages(tree.H, t))
    {
      hide IavlDb.Rep, IavlHash.RootHash, StillKept, IavlRuns.Kept, IavlSpec.Contents, IavlSpec.SearchTree, IavlSpec.Encodable, IavlHash.Preimages, IavlHash.NoCollisions, IsExport, Parses, Imported, RootAmong, IavlHash.Collapse, IavlRuns.SoundRoot;
      ghost var before, exported, valid := tree.nodeDb.db, IsExport(tree.H, state, t), Valid();
      if exported { ExportTakeable(tree.H, t, state); }
      var ok, root := ImportNodes(tree.nodeDb, state);
      if exported {
        TakenOver(tree.H, t, state, before, tree.nodeDb.db);
        if valid && NoCollisions(tree.H, tree.seen + Preimages(tree.H, t)) {
          VersionsKept(tree.H, t, state, before, tree.nodeDb.db, tree.history, tree.seen);
        }
      }
      if !ok {
        return None;
      }
      tree.Update(Some(root), version, Some(t));
      r := FromHex(state.root);
    }
  }
}
