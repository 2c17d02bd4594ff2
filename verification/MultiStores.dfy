/** All stores of the application, committed together under one hash. */
module MultiStores {
  import opened ByteStrings
  import opened Varint
  import opened IavlNode
  import opened IavlSpec
  import opened IavlHash
  import opened IavlRuns
  import opened SortedKeys
  import opened CacheLayers
  import opened KvStore
  import opened Merkle
  import opened AppHash

  type Roots = map<Bytes, Hash>

  /** Name and root hash of every store, once each, in some order. */
  ghost predicate ListsRoots(infos: seq<StoreInfo>, roots: Roots)
  {
    && (forall i :: 0 <= i < |infos| ==> infos[i].name in roots && roots[infos[i].name] == infos[i].hash)
    && (forall i, j :: 0 <= i < j < |infos| ==> infos[i].name != infos[j].name)
    && (forall name :: name in roots ==> exists i :: 0 <= i < |infos| && infos[i].name == name)
  }

  function InfosOf(names: seq<Bytes>, roots: Roots): seq<StoreInfo>
    requires forall name :: name in names ==> name in roots
  {
    seq(|names|, i requires 0 <= i < |names| => assert names[i] in names; StoreInfo(names[i], roots[names[i]]))
  }

  /** The application hash, a function of the root hashes by name. */
  function AppHashOf(H: Hasher, roots: Roots): Hash
  {
    HashOfInfos(H, InfosOf(Sorted(roots.Keys), roots))
  }

  lemma {:induction false} CountOnce(infos: seq<StoreInfo>, e: StoreInfo)
    requires forall i, j :: 0 <= i < j < |infos| ==> infos[i].name != infos[j].name
    ensures multiset(infos)[e] == if e in infos then 1 else 0
  {
    if infos != [] {
      var n := |infos| - 1;
      assert infos == infos[..n] + [infos[n]];
      CountOnce(infos[..n], e);
    }
  }

  lemma RootListed(infos: seq<StoreInfo>, roots: Roots, e: StoreInfo)
    requires ListsRoots(infos, roots)
    ensures e in infos <==> e.name in roots && roots[e.name] == e.hash
  {
    if e.name in roots && roots[e.name] == e.hash {
      var i :| 0 <= i < |infos| && infos[i].name == e.name;
      assert infos[i] == e;
    }
  }

  lemma SortedLists(roots: Roots)
    ensures ListsRoots(InfosOf(Sorted(roots.Keys), roots), roots)
  {
    var names := Sorted(roots.Keys);
    var infos := InfosOf(names, roots);
    forall i | 0 <= i < |infos| ensures infos[i].name in roots && roots[infos[i].name] == infos[i].hash {
      assert names[i] in names;
    }
    forall i, j | 0 <= i < j < |infos| ensures infos[i].name != infos[j].name {
      LessIrreflexive(names[i]);
    }
    forall name | name in roots ensures exists i :: 0 <= i < |infos| && infos[i].name == name {
      var i :| 0 <= i < |names| && names[i] == name;
      assert infos[i].name == name;
    }
  }

  /** What is hashed for a store: its name and the hash of its root hash, each behind its length. */
  function StoreBytes(H: Hasher, name: Bytes, root: Hash): Bytes
  {
    EncodeBytes(name) + EncodeBytes(H(root))
  }

  function StoreLeaves(H: Hasher, names: seq<Bytes>, roots: Roots): seq<Bytes>
    requires forall name :: name in names ==> name in roots
  {
    seq(|names|, i requires 0 <= i < |names| => assert names[i] in names; StoreBytes(H, names[i], roots[names[i]]))
  }

  /** The application hash is the Merkle root over the stores by ascending name, in the byte order. */
  lemma {:induction false} AppHashByName(H: Hasher, roots: Roots, names: seq<Bytes>)
    requires StrictlyAscending(names) && forall name :: name in names <==> name in roots
    ensures AppHashOf(H, roots) == MerkleRoot(H, StoreLeaves(H, names, roots))
  {
    hide SortedKeys.Sorted, Merkle.MerkleRoot, AppHash.HashOfInfos, StoreLeaves, AppHash.AllBytes, AppHash.ToPairs, Less;
    AscendingUnique(names, Sorted(roots.Keys));
    AscendingNamesInOrder(H, InfosOf(names, roots));
    LeavesOf(H, names, roots);
  }

  lemma {:induction false} LeavesOf(H: Hasher, names: seq<Bytes>, roots: Roots)
    requires forall name :: name in names ==> name in roots
    ensures AllBytes(ToPairs(H, InfosOf(names, roots))) == StoreLeaves(H, names, roots)
  {
    hide Varint.EncodeVar, AppHash.AllBytes, AppHash.ToPairs;
    ToPairsAt(H, InfosOf(names, roots));
    AllBytesAt(ToPairs(H, InfosOf(names, roots)));
    forall i | 0 <= i < |names| ensures AllBytes(ToPairs(H, InfosOf(names, roots)))[i] == StoreLeaves(H, names, roots)[i] {
      assert names[i] in names;
      PairBytes(Pair(names[i], H(roots[names[i]])));
    }
  }

  lemma PairBytes(p: Pair)
    ensures ToBytes(p) == EncodeBytes(p.key) + EncodeBytes(p.value)
  {
  }

  /** In whatever order the stores are visited, the hash is that of the roots by name. */
  lemma AnyListing(H: Hasher, infos: seq<StoreInfo>, roots: Roots)
    requires ListsRoots(infos, roots)
    ensures HashOfInfos(H, infos) == AppHashOf(H, roots)
  {
    var sorted := InfosOf(Sorted(roots.Keys), roots);
    SortedLists(roots);
    forall e ensures multiset(infos)[e] == multiset(sorted)[e] {
      CountOnce(infos, e);
      CountOnce(sorted, e);
      RootListed(infos, roots, e);
      RootListed(sorted, roots, e);
    }
    OrderDoesNotMatter(H, infos, sorted);
  }

  /** One store more in a listing. */
  lemma ListOneMore(infos: seq<StoreInfo>, roots: Roots, name: Bytes, hash: Hash)
    requires ListsRoots(infos, roots) && name !in roots
    ensures ListsRoots(infos + [StoreInfo(name, hash)], roots[name := hash])
  {
    var more, all := infos + [StoreInfo(name, hash)], roots[name := hash];
    forall n | n in all ensures exists i :: 0 <= i < |more| && more[i].name == n {
      if n == name {
        assert more[|infos|].name == n;
      } else {
        var i :| 0 <= i < |infos| && infos[i].name == n;
        assert more[i].name == n;
      }
    }
  }

  // ---------------------------------------------------------------- what the application hash tells

  type Trees = map<Bytes, Option<Avl>>

  function TreeRoots(H: Hasher, trees: Trees): Roots
  {
    map name | name in trees :: RootHashOf(H, trees[name])
  }

  /** `seen` has everything hashed for the application hash of these trees. */
  ghost predicate Covered(H: Hasher, trees: Trees, seen: set<Bytes>)
  {
    && [] in seen && AppPreimages(H, InfosOf(Sorted(trees.Keys), TreeRoots(H, trees))) <= seen
    && forall name :: name in trees ==> SoundRoot(H, trees[name], seen)
  }

  lemma TreeRootAt(H: Hasher, trees: Trees, name: Bytes)
    requires name in trees
    ensures name in TreeRoots(H, trees) && TreeRoots(H, trees)[name] == RootHashOf(H, trees[name])
  {
  }

  lemma NoneCollide(H: Hasher, seen: set<Bytes>)
    requires !Collide(H, seen, seen)
    ensures NoCollisions(H, seen)
  {
  }

  /** One application hash, one state: two sets of search trees with the same hash are the same trees
      under the same names, or two distinct byte strings among those hashed share a hash. */
  lemma AppHashDeterminesState(H: Hasher, a: Trees, b: Trees, seen: set<Bytes>)
    requires AppHashOf(H, TreeRoots(H, a)) == AppHashOf(H, TreeRoots(H, b))
    requires Covered(H, a, seen) && Covered(H, b, seen)
    ensures a == b || Collide(H, seen, seen)
  {
    hide AppHashOf, TreeRoots, Covered, IavlHash.NoCollisions, IavlHash.Collide;
    if !Collide(H, seen, seen) {
      NoneCollide(H, seen);
      SameRoots(H, a, b, seen);
      SameKeys(H, a, b);
      forall name | name in a ensures a[name] == b[name] { SameTreeAt(H, a, b, seen, name); }
    }
  }

  lemma SameKeys(H: Hasher, a: Trees, b: Trees)
    requires TreeRoots(H, a) == TreeRoots(H, b)
    ensures a.Keys == b.Keys
  {
    assert a.Keys == TreeRoots(H, a).Keys && b.Keys == TreeRoots(H, b).Keys;
  }

  lemma SameTreeAt(H: Hasher, a: Trees, b: Trees, seen: set<Bytes>, name: Bytes)
    requires TreeRoots(H, a) == TreeRoots(H, b) && name in a && name in b && NoCollisions(H, seen)
    requires Covered(H, a, seen) && Covered(H, b, seen)
    ensures a[name] == b[name]
  {
    TreeRootAt(H, a, name);
    TreeRootAt(H, b, name);
    RootHashOfDetermines(H, a[name], b[name], seen);
  }

  lemma SameRoots(H: Hasher, a: Trees, b: Trees, seen: set<Bytes>)
    requires AppHashOf(H, TreeRoots(H, a)) == AppHashOf(H, TreeRoots(H, b))
    requires Covered(H, a, seen) && Covered(H, b, seen) && !Collide(H, seen, seen)
    ensures TreeRoots(H, a) == TreeRoots(H, b)
  {
    hide AppHash.HashOfInfos, AppHash.AppPreimages, ListsRoots, IavlRuns.RootHashOf, IavlRuns.SoundRoot;
    var ra, rb := TreeRoots(H, a), TreeRoots(H, b);
    var x, y := InfosOf(Sorted(a.Keys), ra), InfosOf(Sorted(b.Keys), rb);
    assert ra.Keys == a.Keys && rb.Keys == b.Keys;
    AppHashBinding(H, x, y);
    if Collide(H, AppPreimages(H, x), AppPreimages(H, y)) {
      CollideWider(H, AppPreimages(H, x), AppPreimages(H, y), seen, seen);
    }
    if Collide(H, AppPreimages(H, y), AppPreimages(H, x)) {
      CollideWider(H, AppPreimages(H, y), AppPreimages(H, x), seen, seen);
    }
    SortedLists(ra);
    SortedLists(rb);
    SameListing(x, ra, y, rb);
  }

  /** Two listings with the same entries are of the same roots. */
  lemma SameListing(x: seq<StoreInfo>, ra: Roots, y: seq<StoreInfo>, rb: Roots)
    requires ListsRoots(x, ra) && ListsRoots(y, rb)
    requires forall info :: info in x <==> info in y
    ensures ra == rb
  {
    forall name | name in ra ensures name in rb && rb[name] == ra[name] {
      RootListed(x, ra, StoreInfo(name, ra[name]));
      RootListed(y, rb, StoreInfo(name, ra[name]));
    }
    forall name | name in rb ensures name in ra {
      RootListed(x, ra, StoreInfo(name, rb[name]));
      RootListed(y, rb, StoreInfo(name, rb[name]));
    }
  }

  // ---------------------------------------------------------------- the stores

  class MultiStore {
    const H: Hasher
    const stores: map<Bytes, KVStore>
    var headVersion: nat
    var headCommitHash: Hash

    ghost function Footprint(): set<object>
    {
      {this} + (set name | name in stores :: stores[name])
      + (set name | name in stores :: stores[name].tree) + (set name | name in stores :: stores[name].tree.nodeDb)
    }

    /** Every store has its own caches, tree and part of the database. */
    ghost predicate Apart()
    {
      && stores != map[]
      && (forall a, b :: a in stores && b in stores && a != b ==>
            stores[a] != stores[b] && stores[a].tree != stores[b].tree && stores[a].tree.nodeDb != stores[b].tree.nodeDb)
      && (forall name :: name in stores ==> stores[name].tree.H == H)
    }

    ghost predicate Valid()
      reads Footprint()
    {
      Apart() && forall name :: name in stores ==> stores[name].Valid()
    }

    ghost function Trees(): Trees
      reads set name | name in stores :: stores[name].tree
    {
      map name | name in stores :: stores[name].tree.tree
    }

    /** Between blocks: every store's tree is saved as the head version, under the head hash. */
    ghost predicate Settled()
      reads Footprint()
    {
      && Valid() && headCommitHash == AppHashOf(H, TreeRoots(H, Trees()))
      && forall name :: name in stores ==> stores[name].SavedAsIs() && stores[name].tree.loadedVersion == headVersion
    }

    constructor (H: Hasher, stores: map<Bytes, KVStore>, headVersion: nat, headCommitHash: Hash)
      ensures this.H == H && this.stores == stores && this.headVersion == headVersion && this.headCommitHash == headCommitHash
    {
      this.H, this.stores, this.headVersion, this.headCommitHash := H, stores, headVersion, headCommitHash;
    }

    twostate predicate HeadSame()
      reads this
    {
      headVersion == old(headVersion) && headCommitHash == old(headCommitHash)
    }

    twostate predicate OthersReadSame(name: Bytes)
      reads Footprint()
    {
      forall other :: other in stores && other != name ==> stores[other].Value() == old(stores[other].Value())
    }

    method WriteThenClearOne(name: Bytes)
      requires Valid() && name in stores
      modifies stores[name]
      ensures Valid() && OthersReadSame(name)
      ensures stores[name].Value() == old(stores[name].Value()).Promote()
    {
      hide IavlTree.RootRep, IavlRuns.Inv;
      stores[name].WriteThenClearTxCache();
    }

    method WriteThenClearTxCaches()
      requires Valid()
      modifies Footprint()
      ensures Valid() && HeadSame()
      ensures forall name :: name in stores ==> stores[name].Value() == old(stores[name].Value()).Promote()
    {
      hide Valid, KVStore.Value;
      var rest := stores.Keys;
      while rest != {}
        invariant rest <= stores.Keys && Valid() && HeadSame()
        invariant forall name :: name in stores ==>
                    stores[name].Value() == if name in rest then old(stores[name].Value()) else old(stores[name].Value()).Promote()
        decreases |rest|
      {
        var name :| name in rest;
        rest := rest - {name};
        WriteThenClearOne(name);
      }
    }

    method ClearOne(name: Bytes)
      requires Valid() && name in stores
      modifies stores[name]
      ensures Valid() && OthersReadSame(name)
      ensures stores[name].Value() == old(stores[name].Value()).Discard()
    {
      hide IavlTree.RootRep, IavlRuns.Inv;
      stores[name].ClearTxCache();
    }

    method ClearTxCaches()
      requires Valid()
      modifies Footprint()
      ensures Valid() && HeadSame()
      ensures forall name :: name in stores ==> stores[name].Value() == old(stores[name].Value()).Discard()
    {
      hide Valid, KVStore.Value;
      var rest := stores.Keys;
      while rest != {}
        invariant rest <= stores.Keys && Valid() && HeadSame()
        invariant forall name :: name in stores ==>
                    stores[name].Value() == if name in rest then old(stores[name].Value()) else old(stores[name].Value()).Discard()
        decreases |rest|
      {
        var name :| name in rest;
        rest := rest - {name};
        ClearOne(name);
      }
    }

    /** What every store read as, at which version, and which were sure to commit, which sure to panic
        and which at their latest version, before a commit. */
    ghost function Now(): Before
      reads Footprint()
    {
      Before(map name | name in stores :: stores[name].Value(),
             map name | name in stores :: stores[name].tree.loadedVersion,
             set name | name in stores && stores[name].Decided() && stores[name].Goes(),
             set name | name in stores && stores[name].Decided() && !stores[name].Goes(),
             set name | name in stores && stores[name].tree.IsLatest())
    }

    /** The store is as it was, and may be committed. */
    ghost predicate Waiting(name: Bytes, before: Before)
      requires name in stores
      reads stores[name].Footprint()
    {
      && name in before.values && name in before.versions
      && stores[name].Valid() && stores[name].tree.loadedVersion < MAX_U32
      && stores[name].Value() == before.values[name]
      && stores[name].tree.loadedVersion == before.versions[name]
      && (name in before.able ==> stores[name].Decided() && stores[name].Goes())
      && (name in before.unable ==> stores[name].Decided() && !stores[name].Goes())
      && (name in before.latest ==> stores[name].tree.IsLatest())
    }

    /** The store was committed: everything it read as is in its tree, saved as the next version. */
    ghost predicate Done(name: Bytes, before: Before)
      requires name in stores
      reads stores[name].Footprint()
    {
      && name in before.values && name in before.versions
      && stores[name].Value() == before.values[name].Flush()
      && stores[name].tree.loadedVersion == before.versions[name] + 1
      && (name in before.latest ==> stores[name].tree.IsLatest())
      && (NoCollisions(H, stores[name].tree.seen) ==> stores[name].Valid() && stores[name].SavedAsIs())
    }

    ghost function RootOf(name: Bytes): Hash
      requires name in stores
      reads stores[name].Footprint()
    {
      RootHashOf(H, stores[name].tree.tree)
    }

    method CommitOne(name: Bytes, ghost before: Before) returns (r: Option<Hash>)
      requires Apart() && name in stores && Waiting(name, before)
      modifies stores[name], stores[name].tree, stores[name].tree.nodeDb
      ensures r.Some? ==> Done(name, before) && r == Some(RootOf(name))
      ensures (name in before.able ==> r.Some?) && (name in before.unable ==> r.None?)
      ensures OthersStay(name, before)
    {
      hide Waiting, Done, RootOf;
      r := CommitStore(name, before);
      forall other | other in stores && other != name
        ensures old(Waiting(other, before)) ==> Waiting(other, before)
        ensures old(Done(other, before)) ==> Done(other, before)
        ensures RootOf(other) == old(RootOf(other))
      {
        assert forall o :: o in stores[other].Footprint() ==> unchanged(o);
      }
    }

    /** The other stores keep waiting, or stay done. */
    twostate predicate OthersStay(name: Bytes, before: Before)
      reads Footprint()
    {
      forall other :: other in stores && other != name ==>
        && (old(Waiting(other, before)) ==> Waiting(other, before))
        && (old(Done(other, before)) ==> Done(other, before))
        && RootOf(other) == old(RootOf(other))
    }

    method CommitStore(name: Bytes, ghost before: Before) returns (r: Option<Hash>)
      requires name in stores && Waiting(name, before) && stores[name].tree.H == H
      modifies stores[name], stores[name].tree, stores[name].tree.nodeDb
      ensures r.Some? ==> Done(name, before) && r == Some(RootOf(name))
      ensures (name in before.able ==> r.Some?) && (name in before.unable ==> r.None?)
    {
      hide KVStore.Valid, KVStore.Value, KVStore.Decided, KVStore.Goes, KVStore.SavedAsIs;
      r := stores[name].Commit();
    }

    ghost predicate AllWaiting(names: set<Bytes>, before: Before)
      reads Footprint()
    {
      names <= stores.Keys && forall name :: name in names ==> Waiting(name, before)
    }

    ghost predicate AllDone(roots: Roots, before: Before)
      reads Footprint()
    {
      roots.Keys <= stores.Keys && forall name :: name in roots ==> Done(name, before) && roots[name] == RootOf(name)
    }

    /** Part-way through a commit: what is listed is done, what is left is waiting. */
    ghost predicate Committing(rest: set<Bytes>, infos: seq<StoreInfo>, roots: Roots, before: Before)
      reads Footprint()
    {
      roots.Keys == stores.Keys - rest && ListsRoots(infos, roots) && AllWaiting(rest, before) && AllDone(roots, before)
    }

    method CommitNext(name: Bytes, infos: seq<StoreInfo>, ghost rest: set<Bytes>, ghost roots: Roots, ghost before: Before)
      returns (r: Option<Hash>)
      requires Apart() && Committing(rest, infos, roots, before) && name in rest
      modifies Footprint() - {this}
      ensures r.Some? ==> Committing(rest - {name}, infos + [StoreInfo(name, r.value)], roots[name := r.value], before)
      ensures (name in before.able ==> r.Some?) && (name in before.unable ==> r.None?)
    {
      hide Waiting, Done, RootOf, ListsRoots;
      r := CommitOne(name, before);
      if r.Some? { ListOneMore(infos, roots, name, r.value); }
    }

    /** The loop over the stores; no infos is a panic in one of them. */
    method CommitAll(ghost before: Before) returns (r: Option<seq<StoreInfo>>, ghost roots: Roots)
      requires Apart() && AllWaiting(stores.Keys, before)
      modifies Footprint() - {this}
      ensures r.Some? ==> Committing({}, r.value, roots, before)
      ensures (stores.Keys <= before.able ==> r.Some?) && (r.Some? ==> before.unable * stores.Keys == {})
    {
      hide Committing, AllWaiting, Apart, Footprint;
      var infos := [];
      roots := map[];
      NothingDone(before);
      var rest := stores.Keys;
      while rest != {}
        invariant rest <= stores.Keys && before.unable * stores.Keys <= rest
        invariant Committing(rest, infos, roots, before)
        decreases |rest|
      {
        var name :| name in rest;
        var hash := CommitNext(name, infos, rest, roots, before);
        if hash.None? {
          return None, roots;
        }
        infos := infos + [StoreInfo(name, hash.value)];
        roots := roots[name := hash.value];
        rest := rest - {name};
      }
      r := Some(infos);
    }

    lemma NothingDone(before: Before)
      requires AllWaiting(stores.Keys, before)
      ensures Committing(stores.Keys, [], map[], before)
    {
    }

    /** What a commit leaves, before the head is moved. */
    ghost predicate AllCommitted(before: Before, hash: Hash)
      reads Footprint() - {this}
    {
      (forall name :: name in stores ==> Done(name, before)) && hash == AppHashOf(H, TreeRoots(H, Trees()))
    }

    method CommitStores() returns (r: Option<Hash>)
      requires Valid() && forall name :: name in stores ==> stores[name].tree.loadedVersion < MAX_U32
      modifies Footprint() - {this}
      ensures r.Some? ==> AllCommitted(old(Now()), r.value)
      ensures (stores.Keys <= old(Now()).able ==> r.Some?) && (r.Some? ==> old(Now()).unable * stores.Keys == {})
    {
      hide Valid, Apart, Now, Committing, AllWaiting, AllCommitted, AppHash.HashOfInfos;
      ghost var before := Now();
      EveryoneWaits();
      var infos, roots := CommitAll(before);
      if infos.None? {
        return None;
      }
      r := HashStoreInfos(H, infos.value);
      AllListed(infos.value, roots, before);
    }

    lemma AllListed(infos: seq<StoreInfo>, roots: Roots, before: Before)
      requires Apart() && Committing({}, infos, roots, before)
      ensures infos != [] && AllCommitted(before, HashOfInfos(H, infos))
    {
      hide Done, RootOf, AppHash.HashOfInfos;
      AnyListing(H, infos, roots);
      var first :| first in stores;
      assert first in roots;
      RootsAreTrees(roots, before);
    }

    /** Whether every store's commit returns is settled. */
    ghost predicate AllDecided()
      reads Footprint()
    {
      forall name :: name in stores ==> stores[name].Decided()
    }

    ghost predicate AllGo()
      reads Footprint()
    {
      forall name :: name in stores ==> stores[name].Goes()
    }

    /** Every store's block is calm. */
    ghost predicate AllCalm()
      reads Footprint()
    {
      forall name :: name in stores ==> stores[name].CalmBlock(stores[name].blockCache + stores[name].txCache)
    }

    /** Calm blocks settle the commit of them all by the forecasts. */
    lemma CommitForetold()
      requires Valid() && AllCalm()
      ensures AllDecided()
      ensures AllGo() <==> forall name :: name in stores ==> stores[name].BlockGoes(stores[name].blockCache + stores[name].txCache)
    {
      hide KVStore.Valid, KVStore.CalmBlock, KVStore.BlockGoes, KVStore.Decided, KVStore.Goes, KVStore.FlushFresh;
      forall name | name in stores
        ensures stores[name].Decided()
        ensures stores[name].Goes() <==> stores[name].BlockGoes(stores[name].blockCache + stores[name].txCache)
      {
        stores[name].CommitForetold();
      }
    }

    /** No store has a version past the one that is loaded. */
    ghost predicate AllLatest()
      reads Footprint()
    {
      forall name :: name in stores ==> stores[name].tree.IsLatest()
    }

    lemma NowTells()
      ensures AllLatest() ==> stores.Keys <= Now().latest
      ensures AllDecided() && AllGo() ==> stores.Keys <= Now().able
      ensures AllDecided() && !AllGo() ==> Now().unable * stores.Keys != {}
    {
      hide KVStore.Value, KVStore.Decided, KVStore.Goes, IavlTree.Tree.IsLatest;
      if AllDecided() && !AllGo() {
        var name :| name in stores && !stores[name].Goes();
        assert name in Now().unable * stores.Keys;
      }
    }

    /** Every store is committed, in any order, under one hash; `None` is a panic in one of them. Where every
        store's commit is settled, there is one exactly if some store's does not go through. */
    method Commit() returns (r: Option<Hash>)
      requires Valid() && forall name :: name in stores ==> stores[name].tree.loadedVersion < MAX_U32
      modifies Footprint()
      ensures r.Some? ==> AllCommitted(old(Now()), r.value)
      ensures r.Some? ==> headCommitHash == r.value && headVersion == old(headVersion) + 1
      ensures old(AllDecided()) ==> (r.Some? <==> old(AllGo()))
      ensures r.Some? && old(AllLatest()) ==> AllLatest()
    {
      hide Valid, Apart, Now, AllCommitted, AllDecided, AllGo, AllLatest;
      ghost var before := Now();
      NowTells();
      r := CommitStores();
      if r.Some? {
        headCommitHash := r.value;
        headVersion := headVersion + 1;
        DoneLatest(before, r.value);
      }
    }

    lemma EveryoneWaits()
      requires Valid() && forall name :: name in stores ==> stores[name].tree.loadedVersion < MAX_U32
      ensures Apart() && AllWaiting(stores.Keys, Now())
    {
      hide KVStore.Valid, KVStore.Value, KVStore.Decided, KVStore.Goes;
    }

    lemma DoneLatest(before: Before, hash: Hash)
      requires AllCommitted(before, hash)
      ensures stores.Keys <= before.latest ==> AllLatest()
    {
      hide KVStore.Value, IavlTree.Tree.IsLatest, AppHashOf;
    }

    lemma RootsAreTrees(roots: Roots, before: Before)
      requires roots.Keys == stores.Keys && AllDone(roots, before)
      ensures roots == TreeRoots(H, Trees())
    {
      hide Done;
    }
  }

  datatype Before = Before(values: map<Bytes, Layers<Bytes>>, versions: map<Bytes, nat>, able: set<Bytes>, unable: set<Bytes>,
                           latest: set<Bytes>)
}
