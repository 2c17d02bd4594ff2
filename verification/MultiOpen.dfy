/** Opening the stores of an application over what the database holds of them. */
module MultiOpen {
  import opened ByteStrings
  import opened IavlNode
  import opened IavlSpec
  import opened IavlInsert
  import opened IavlRuns
  import opened IavlFresh
  import opened IavlTree
  import opened CacheLayers
  import opened KvStore
  import opened AppHash
  import opened MultiStores

  /** What is recorded in a store's part of the database, and what was hashed for it. */
  datatype Past = Past(history: map<nat, Option<Avl>>, seen: set<Bytes>)

  ghost predicate KeptIn(H: Hasher, nodeDb: NodeDB, past: Past)
    reads nodeDb
  {
    Kept(H, nodeDb.db, past.history, past.seen) && [] in past.seen
  }

  /** The store at the latest version recorded, nothing cached. */
  ghost predicate Opened(H: Hasher, code: Code, nodeDb: NodeDB, past: Past, store: KVStore)
    reads store, store.tree, nodeDb
  {
    && store.tree.nodeDb == nodeDb && store.tree.H == H && store.tree.code == code
    && store.Valid() && store.blockCache == map[] && store.txCache == map[]
    && store.tree.history == past.history && store.tree.seen == past.seen
    && (if past.history == map[] then store.tree.loadedVersion == 0 && store.tree.tree == None
        else Latest(past.history.Keys, store.tree.loadedVersion) && store.tree.tree == past.history[store.tree.loadedVersion])
    && (AgedHistory(H, nodeDb.db, past.history, past.seen) ==> store.tree.IsAged())
  }

  method OpenStore(H: Hasher, code: Code, nodeDb: NodeDB, ghost past: Past) returns (store: KVStore, hash: Hash)
    requires KeptIn(H, nodeDb, past)
    ensures fresh(store) && fresh(store.tree) && Opened(H, code, nodeDb, past, store)
    ensures hash == RootHashOf(H, store.tree.tree)
  {
    hide IavlTree.RootRep, IavlRuns.Inv, IavlRuns.Kept, AgedHistory, IavlTree.Tree.IsAged, IavlRuns.RootHashOf;
    var tree := Tree.Open(H, code, nodeDb, None, past.history, past.seen);
    hash := tree.value.RootHash();
    store := new KVStore(tree.value);
  }

  ghost predicate Listed(names: seq<Bytes>, dbs: map<Bytes, NodeDB>)
  {
    && (forall name :: name in names <==> name in dbs)
    && (forall i, j :: 0 <= i < j < |names| ==> names[i] != names[j])
  }

  /** Each part of the database is another, and holds what it is said to. */
  ghost predicate AllHold(H: Hasher, dbs: map<Bytes, NodeDB>, pasts: map<Bytes, Past>)
    reads dbs.Values
  {
    && (forall a, b :: a in dbs && b in dbs && a != b ==> dbs[a] != dbs[b])
    && forall name :: name in dbs ==> name in pasts && KeptIn(H, dbs[name], pasts[name])
  }

  /** Every store opened over its own part of the database. */
  ghost predicate AllOpened(H: Hasher, code: Code, dbs: map<Bytes, NodeDB>, pasts: map<Bytes, Past>, stores: map<Bytes, KVStore>)
    reads dbs.Values, set name | name in stores :: stores[name], set name | name in stores :: stores[name].tree
  {
    && stores.Keys <= dbs.Keys && stores.Keys <= pasts.Keys
    && (forall name :: name in stores ==> Opened(H, code, dbs[name], pasts[name], stores[name]))
    && forall a, b :: a in stores && b in stores && a != b ==> stores[a] != stores[b] && stores[a].tree != stores[b].tree
  }

  /** Part-way through: the stores opened, and their roots as listed. */
  ghost predicate Opening(H: Hasher, code: Code, dbs: map<Bytes, NodeDB>, pasts: map<Bytes, Past>, stores: map<Bytes, KVStore>,
                          infos: seq<StoreInfo>, roots: Roots)
    reads dbs.Values, set name | name in stores :: stores[name], set name | name in stores :: stores[name].tree
  {
    && AllOpened(H, code, dbs, pasts, stores) && ListsRoots(infos, roots)
    && roots == map name | name in stores :: RootHashOf(H, stores[name].tree.tree)
  }

  method OpenNext(H: Hasher, code: Code, dbs: map<Bytes, NodeDB>, name: Bytes, stores: map<Bytes, KVStore>, infos: seq<StoreInfo>,
                  ghost roots: Roots, ghost pasts: map<Bytes, Past>)
    returns (store: KVStore, hash: Hash)
    requires AllHold(H, dbs, pasts) && Opening(H, code, dbs, pasts, stores, infos, roots) && name in dbs && name !in stores
    ensures fresh(store) && fresh(store.tree)
    ensures Opening(H, code, dbs, pasts, stores[name := store], infos + [StoreInfo(name, hash)], roots[name := hash])
  {
    hide Opened, Opening, KeptIn;
    store, hash := OpenStore(H, code, dbs[name], pasts[name]);
    OpenedOneMore(H, code, dbs, pasts, stores, name, store, infos, roots);
  }

  lemma OpenedOneMore(H: Hasher, code: Code, dbs: map<Bytes, NodeDB>, pasts: map<Bytes, Past>, stores: map<Bytes, KVStore>,
                      name: Bytes, store: KVStore, infos: seq<StoreInfo>, roots: Roots)
    requires Opening(H, code, dbs, pasts, stores, infos, roots) && name in dbs && name in pasts && name !in stores
    requires Opened(H, code, dbs[name], pasts[name], store)
    requires forall a :: a in stores ==> stores[a] != store && stores[a].tree != store.tree
    ensures var hash := RootHashOf(H, store.tree.tree);
            Opening(H, code, dbs, pasts, stores[name := store], infos + [StoreInfo(name, hash)], roots[name := hash])
  {
    hide Opened, ListsRoots, IavlRuns.RootHashOf;
    ListOneMore(infos, roots, name, RootHashOf(H, store.tree.tree));
  }

  lemma NothingOpened(H: Hasher, code: Code, dbs: map<Bytes, NodeDB>, pasts: map<Bytes, Past>)
    ensures Opening(H, code, dbs, pasts, map[], [], map[])
  {
  }

  /** Over distinct names: every store at the latest version recorded for it, under the hash of them all. The
      head version is that of the store named last. No store at all is a panic. */
  method OpenStores(H: Hasher, code: Code, dbs: map<Bytes, NodeDB>, names: seq<Bytes>, ghost pasts: map<Bytes, Past>)
    returns (r: Option<MultiStore>)
    requires Listed(names, dbs) && AllHold(H, dbs, pasts)
    ensures r.None? <==> names == []
    ensures r.Some? ==> fresh(r.value) && r.value.H == H && r.value.stores.Keys == dbs.Keys
    ensures r.Some? ==> AllOpened(H, code, dbs, pasts, r.value.stores) && r.value.Valid()
    ensures r.Some? ==> r.value.headCommitHash == AppHashOf(H, TreeRoots(H, r.value.Trees()))
    ensures r.Some? ==> r.value.headVersion == r.value.stores[names[|names| - 1]].tree.loadedVersion
  {
    hide Opening, AllOpened, AllHold, AppHash.HashOfInfos, AppHashOf, MultiStore.Valid, MultiStore.Trees, TreeRoots;
    var stores: map<Bytes, KVStore>, infos, head := map[], [], 0;
    ghost var roots: Roots := map[];
    NothingOpened(H, code, dbs, pasts);
    for i := 0 to |names|
      invariant stores.Keys <= dbs.Keys && forall j :: 0 <= j < |names| ==> (names[j] in stores <==> j < i)
      invariant |infos| == i && Opening(H, code, dbs, pasts, stores, infos, roots)
      invariant i > 0 ==> names[i - 1] in stores && head == stores[names[i - 1]].tree.loadedVersion
    {
      var name := names[i];
      var store, hash := OpenNext(H, code, dbs, name, stores, infos, roots, pasts);
      infos := infos + [StoreInfo(name, hash)];
      roots := roots[name := hash];
      head := store.tree.loadedVersion;
      stores := stores[name := store];
    }
    var hash := HashStoreInfos(H, infos);
    if hash.None? {
      return None;
    }
    var all := new MultiStore(H, stores, head, hash.value);
    AllIn(code, dbs, pasts, all, infos, roots);
    r := Some(all);
  }

  lemma AllIn(code: Code, dbs: map<Bytes, NodeDB>, pasts: map<Bytes, Past>, all: MultiStore, infos: seq<StoreInfo>, roots: Roots)
    requires AllHold(all.H, dbs, pasts) && Opening(all.H, code, dbs, pasts, all.stores, infos, roots) && all.stores != map[]
    ensures AllOpened(all.H, code, dbs, pasts, all.stores) && all.Valid()
    ensures HashOfInfos(all.H, infos) == AppHashOf(all.H, TreeRoots(all.H, all.Trees()))
  {
    hide IavlRuns.RootHashOf, AppHash.HashOfInfos, AppHashOf, ListsRoots, KeptIn, KVStore.Valid, IavlTree.Tree.IsAged, AgedHistory;
    AnyListing(all.H, infos, roots);
    assert roots == TreeRoots(all.H, all.Trees());
  }

  /** What the parts of the database behind these stores hold. */
  ghost function PastsOf(a: MultiStore): map<Bytes, Past>
    reads a.Footprint()
  {
    map name | name in a.stores :: Past(a.stores[name].tree.history, a.stores[name].tree.seen)
  }

  function PartsOf(a: MultiStore): map<Bytes, NodeDB>
  {
    map name | name in a.stores :: a.stores[name].tree.nodeDb
  }

  lemma PartsHold(a: MultiStore)
    requires a.Settled()
    ensures AllHold(a.H, PartsOf(a), PastsOf(a))
  {
    hide IavlTree.RootRep, IavlRuns.Kept, AppHashOf, TreeRoots, KVStore.SavedAsIs;
    forall name | name in a.stores ensures KeptIn(a.H, PartsOf(a)[name], PastsOf(a)[name]) {
      assert a.stores[name].Valid();
    }
  }

  /** The store reads as what the other has committed, at the same version, and nothing is cached. */
  ghost predicate TakesUp(a: KVStore, b: KVStore)
    reads a, a.tree, a.tree.nodeDb, b, b.tree, b.tree.nodeDb
  {
    && b.Value() == Layers(ContentsOf(a.tree.tree), map[], map[])
    && b.tree.tree == a.tree.tree && b.tree.loadedVersion == a.tree.loadedVersion && b.tree.history == a.tree.history
    && (a.tree.IsAged() ==> b.tree.IsAged())
  }

  lemma SameStore(H: Hasher, code: Code, a: KVStore, b: KVStore)
    requires a.tree.H == H && a.SavedAsIs() && a.tree.IsLatest() && Opened(H, code, a.tree.nodeDb, Past(a.tree.history, a.tree.seen), b)
    ensures TakesUp(a, b) && b.SavedAsIs() && b.tree.IsLatest() && b.tree.tree == a.tree.tree
  {
    hide IavlTree.RootRep, IavlRuns.Inv, AgedHistory, IavlRuns.ContentsOf;
  }

  lemma SameStores(a: MultiStore, code: Code, b: MultiStore)
    requires a.Settled() && a.AllLatest() && a.H == b.H && b.stores.Keys == a.stores.Keys
    requires AllOpened(a.H, code, PartsOf(a), PastsOf(a), b.stores)
    ensures forall name :: name in a.stores ==>
              TakesUp(a.stores[name], b.stores[name]) && b.stores[name].SavedAsIs() && b.stores[name].tree.IsLatest()
    ensures TreeRoots(a.H, a.Trees()) == TreeRoots(b.H, b.Trees())
  {
    hide Opened, TakesUp, KVStore.SavedAsIs, IavlTree.Tree.IsLatest, IavlRuns.RootHashOf, AppHashOf, KVStore.Valid;
    forall name | name in a.stores
      ensures TakesUp(a.stores[name], b.stores[name]) && b.stores[name].SavedAsIs() && b.stores[name].tree.IsLatest()
      ensures b.stores[name].tree.tree == a.stores[name].tree.tree
    {
      SameStore(a.H, code, a.stores[name], b.stores[name]);
    }
    assert a.Trees() == b.Trees();
  }

  lemma NotBare(a: MultiStore, names: seq<Bytes>)
    requires a.Settled() && Listed(names, PartsOf(a))
    ensures names != [] && PartsOf(a).Keys == a.stores.Keys
  {
    hide KVStore.Valid, KVStore.SavedAsIs, AppHashOf, TreeRoots;
    var name :| name in a.stores;
    assert name in PartsOf(a);
  }

  lemma SettledAgain(a: MultiStore, code: Code, names: seq<Bytes>, b: MultiStore)
    requires a.Settled() && a.AllLatest() && a.H == b.H && b.stores.Keys == a.stores.Keys && b.Valid()
    requires AllOpened(a.H, code, PartsOf(a), PastsOf(a), b.stores)
    requires b.headCommitHash == AppHashOf(b.H, TreeRoots(b.H, b.Trees()))
    requires names != [] && names[|names| - 1] in b.stores && b.headVersion == b.stores[names[|names| - 1]].tree.loadedVersion
    ensures b.Settled() && b.AllLatest() && b.headVersion == a.headVersion && b.headCommitHash == a.headCommitHash
    ensures forall name :: name in a.stores ==> TakesUp(a.stores[name], b.stores[name])
  {
    hide AllOpened, AppHashOf, TreeRoots, KVStore.Valid, KVStore.SavedAsIs, IavlTree.Tree.IsLatest, IavlTree.Tree.IsAged, KVStore.Value;
    SameStores(a, code, b);
  }

  /** Where an application stopped between blocks another goes on: opened again over the same database, every
      store has the tree that was committed, under the same head version and application hash. */
  method Reopen(a: MultiStore, code: Code, names: seq<Bytes>) returns (b: MultiStore)
    requires a.Settled() && a.AllLatest() && Listed(names, PartsOf(a))
    ensures fresh(b) && b.Settled() && b.AllLatest() && b.stores.Keys == a.stores.Keys
    ensures b.headVersion == a.headVersion && b.headCommitHash == a.headCommitHash
    ensures forall name :: name in a.stores ==> TakesUp(a.stores[name], b.stores[name])
  {
    hide AllHold, AllOpened, AppHashOf, TakesUp, MultiStore.Settled, MultiStore.Valid, MultiStore.AllLatest, PartsOf, PastsOf;
    PartsHold(a);
    NotBare(a, names);
    var r := OpenStores(a.H, code, PartsOf(a), names, PastsOf(a));
    b := r.value;
    assert forall o :: o in a.Footprint() ==> unchanged(o);
    SettledAgain(a, code, names, b);
  }
}
