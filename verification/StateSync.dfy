/** A node that is ahead hands its committed state to one that is behind. */
module StateSync {
  import opened ByteStrings
  import opened IavlNode
  import opened IavlSpec
  import opened IavlHash
  import opened IavlTransfer
  import opened CacheLayers
  import opened KvStore
  import opened AppHash
  import opened MultiStores

  type States = map<Bytes, ModuleState>

  datatype Reply = Silent | Panicked | Sent(states: States, height: nat)

  ghost predicate AreExports(H: Hasher, states: States, trees: map<Bytes, Avl>)
  {
    states.Keys == trees.Keys && forall name :: name in states ==> IsExport(H, states[name], trees[name])
  }

  function RootsOf(H: Hasher, trees: map<Bytes, Avl>): Roots
  {
    map name | name in trees :: RootHash(H, trees[name])
  }

  lemma RootsOneMore(H: Hasher, done: map<Bytes, Avl>, name: Bytes, t: Avl)
    ensures RootsOf(H, done[name := t]) == RootsOf(H, done)[name := RootHash(H, t)]
  {
    hide IavlHash.RootHash;
  }

  type Values = map<Bytes, Layers<Bytes>>

  class Peer {
    const stores: MultiStore
    var height: nat

    constructor (stores: MultiStore)
      ensures this.stores == stores && height == stores.headVersion
    {
      this.stores, height := stores, stores.headVersion;
    }

    ghost function Footprint(): set<object>
    {
      {this} + stores.Footprint()
    }

    /** What the store has saved as this version, if anything. */
    ghost function Saved(name: Bytes, version: nat): Option<Avl>
      requires name in stores.stores
      reads stores.stores[name].tree
    {
      var h := stores.stores[name].tree.history;
      if version in h then h[version] else None
    }

    method LoadOne(name: Bytes) returns (r: Option<ModuleState>)
      requires stores.Valid() && name in stores.stores
      ensures stores.Valid()
      ensures r.Some? <==> Saved(name, height).Some?
      ensures r.Some? ==> IsExport(stores.H, r.value, Saved(name, height).value)
    {
      hide IavlTree.RootRep, Exports;
      assert stores.stores[name].Valid();
      r := stores.stores[name].LoadAllNodes(height);
    }

    /** The states are exports of what is saved at the own height, of every store but the rest. */
    ghost predicate Gathered(states: States, rest: set<Bytes>)
      reads set name | name in stores.stores :: stores.stores[name].tree
      reads this
    {
      && states.Keys == stores.stores.Keys - rest
      && forall name :: name in states ==>
           Saved(name, height).Some? && IsExport(stores.H, states[name], Saved(name, height).value)
    }

    lemma GatherOne(states: States, rest: set<Bytes>, name: Bytes, state: ModuleState)
      requires Gathered(states, rest) && name in rest && rest <= stores.stores.Keys
      requires Saved(name, height).Some? && IsExport(stores.H, state, Saved(name, height).value)
      ensures Gathered(states[name := state], rest - {name})
    {
      hide IsExport, Saved;
    }

    /** Every store has something saved at the own height. */
    ghost predicate CanSend()
      reads set name | name in stores.stores :: stores.stores[name].tree
      reads this
    {
      forall name :: name in stores.stores ==> Saved(name, height).Some?
    }

    /** Answers one that is behind with every store's nodes at the own height. Stores without that
        version, or saved empty, are a panic. */
    method ProcessVersionMsg(bestHeight: nat) returns (r: Reply)
      requires stores.Valid()
      ensures r.Silent? <==> height <= bestHeight
      ensures r.Panicked? <==> height > bestHeight && !CanSend()
      ensures r.Sent? ==> r.height == height && Gathered(r.states, {})
    {
      hide MultiStore.Valid, Gathered, IsExport, Saved;
      if height <= bestHeight {
        return Silent;
      }
      var states: States := map[];
      var rest := stores.stores.Keys;
      assert Gathered(states, rest) by { NothingGathered(); }
      while rest != {}
        invariant rest <= stores.stores.Keys && stores.Valid()
        invariant Gathered(states, rest)
        decreases |rest|
      {
        var name :| name in rest;
        var state := LoadOne(name);
        if state.None? {
          return Panicked;
        }
        GatherOne(states, rest, name, state.value);
        states := states[name := state.value];
        rest := rest - {name};
      }
      AllGathered(states);
      r := Sent(states, height);
    }

    lemma NothingGathered()
      ensures Gathered(map[], stores.stores.Keys)
    {
    }

    lemma AllGathered(states: States)
      requires Gathered(states, {})
      ensures CanSend()
    {
    }

    // -------------------------------------------------------------- taking a state over

    /** The store reads as before. */
    ghost predicate Untouched(name: Bytes, before: Values)
      requires name in stores.stores
      reads stores.stores[name].Footprint()
    {
      name in before && stores.stores[name].Readable() && stores.stores[name].Value() == before[name]
    }

    /** The store reads as `t` under the caches it had. */
    ghost predicate Taken(name: Bytes, before: Values, t: Avl, version: nat)
      requires name in stores.stores
      reads stores.stores[name].Footprint()
    {
      && name in before && stores.stores[name].Readable()
      && stores.stores[name].Value() == before[name].(base := Contents(t))
      && stores.stores[name].tree.tree == Some(t) && stores.stores[name].tree.loadedVersion == version
    }

    method TakeStore(name: Bytes, state: ModuleState, version: nat, ghost before: Values, ghost t: Avl) returns (hash: Option<Hash>)
      requires name in stores.stores && stores.stores[name].tree.H == stores.H
      modifies stores.stores[name].tree, stores.stores[name].tree.nodeDb
      ensures hash.Some? <==> Takeable(state)
      ensures old(Untouched(name, before)) && IsExport(stores.H, state, t) ==>
                hash == Some(RootHash(stores.H, t)) && Taken(name, before, t, version)
    {
      hide KVStore.Readable, StillKept, Takeable, IsExport;
      hash := stores.stores[name].ProcessAllStateInfo(state, version, t);
    }

    /** The stores in `done` are taken over, the others are as before. */
    ghost predicate TakenOver(before: Values, done: map<Bytes, Avl>, version: nat)
      reads stores.Footprint() - {stores}
    {
      && done.Keys <= stores.stores.Keys
      && forall name :: name in stores.stores ==>
           if name in done then Taken(name, before, done[name], version) else Untouched(name, before)
    }

    method TakeOne(name: Bytes, state: ModuleState, version: nat, ghost before: Values, ghost done: map<Bytes, Avl>, ghost t: Avl)
      returns (hash: Option<Hash>)
      requires stores.Apart() && name in stores.stores && name !in done
      modifies stores.stores[name].tree, stores.stores[name].tree.nodeDb
      ensures hash.Some? <==> Takeable(state)
      ensures old(TakenOver(before, done, version)) && IsExport(stores.H, state, t) ==>
                hash == Some(RootHash(stores.H, t)) && TakenOver(before, done[name := t], version)
    {
      hide Untouched, Taken, IsExport, Takeable;
      hash := TakeStore(name, state, version, before, t);
      forall other | other in stores.stores && other != name
        ensures old(Untouched(other, before)) ==> Untouched(other, before)
        ensures other in done && old(Taken(other, before, done[other], version)) ==> Taken(other, before, done[other], version)
      {
        assert forall o :: o in stores.stores[other].Footprint() ==> unchanged(o);
      }
    }

    /** Part-way through a message: what has been taken over, and listed for the hash. */
    ghost predicate Taking(states: States, trees: map<Bytes, Avl>, rest: set<Bytes>, infos: seq<StoreInfo>,
                           done: map<Bytes, Avl>, before: Values, version: nat)
      reads stores.Footprint()
    {
      && AreExports(stores.H, states, trees) && rest <= states.Keys
      && done == trees - rest && ListsRoots(infos, RootsOf(stores.H, done))
      && TakenOver(before, done, version)
    }

    lemma NothingTaken(states: States, trees: map<Bytes, Avl>, before: Values, version: nat)
      requires Good(states, version, trees, before)
      ensures Taking(states, trees, states.Keys, [], map[], before, version)
    {
    }

    lemma ListTaken(infos: seq<StoreInfo>, done: map<Bytes, Avl>, name: Bytes, t: Avl)
      requires ListsRoots(infos, RootsOf(stores.H, done)) && name !in done
      ensures ListsRoots(infos + [StoreInfo(name, RootHash(stores.H, t))], RootsOf(stores.H, done[name := t]))
    {
      hide ListsRoots, IavlHash.RootHash;
      ListOneMore(infos, RootsOf(stores.H, done), name, RootHash(stores.H, t));
      RootsOneMore(stores.H, done, name, t);
    }

    method TakeNext(name: Bytes, states: States, infos: seq<StoreInfo>, version: nat, ghost trees: map<Bytes, Avl>,
                    ghost rest: set<Bytes>, ghost done: map<Bytes, Avl>, ghost before: Values)
      returns (hash: Option<Hash>)
      requires stores.Apart() && name in rest && name in stores.stores && name in states && name in trees && done == trees - rest
      modifies stores.Footprint() - {stores}
      ensures hash.Some? <==> Takeable(states[name])
      ensures old(Taking(states, trees, rest, infos, done, before, version)) ==>
                hash.Some? && Taking(states, trees, rest - {name}, infos + [StoreInfo(name, hash.value)], done[name := trees[name]], before, version)
    {
      hide TakenOver, ListsRoots, IsExport, IavlHash.RootHash, Takeable;
      if Taking(states, trees, rest, infos, done, before, version) { ListTaken(infos, done, name, trees[name]); }
      hash := TakeOne(name, states[name], version, before, done, trees[name]);
    }

    /** Every name is a store's, and its state can be read. */
    ghost predicate CanTake(states: States, names: set<Bytes>)
    {
      forall name :: name in names && name in states ==> name in stores.stores && Takeable(states[name])
    }

    /** The message is the export of these trees, and the stores read as `before`. */
    ghost predicate Good(states: States, version: nat, trees: map<Bytes, Avl>, before: Values)
      reads stores.Footprint()
    {
      TakenOver(before, map[], version) && AreExports(stores.H, states, trees)
    }

    /** The loop over the message, in any order; `None` is a panic on a name that is not a store's, or a
        state that cannot be read. */
    method TakeAll(states: States, version: nat, ghost trees: map<Bytes, Avl>, ghost before: Values)
      returns (r: Option<seq<StoreInfo>>, ghost done: map<Bytes, Avl>)
      requires stores.Apart() && trees.Keys == states.Keys
      modifies stores.Footprint() - {stores}
      ensures r.Some? <==> CanTake(states, states.Keys)
      ensures r.Some? ==> (r.value == [] <==> states == map[])
      ensures r.Some? && old(Good(states, version, trees, before)) ==> Taking(states, trees, {}, r.value, done, before, version)
    {
      hide TakenOver, Taking, Good, AreExports, Takeable, MultiStore.Apart, MultiStore.Footprint;
      var infos: seq<StoreInfo> := [];
      done := map[];
      ghost var good := Good(states, version, trees, before);
      if good { NothingTaken(states, trees, before, version); }
      var rest := states.Keys;
      while rest != {}
        invariant rest <= states.Keys && CanTake(states, states.Keys - rest) && done == trees - rest
        invariant infos == [] <==> rest == states.Keys
        invariant good ==> Taking(states, trees, rest, infos, done, before, version)
        decreases |rest|
      {
        var name :| name in rest;
        if name !in stores.stores {
          return None, done;
        }
        var hash := TakeNext(name, states, infos, version, trees, rest, done, before);
        if hash.None? {
          return None, done;
        }
        infos := infos + [StoreInfo(name, hash.value)];
        done := done[name := trees[name]];
        rest := rest - {name};
      }
      r := Some(infos);
    }

    /** All is taken over, and the head moved with it. */
    ghost predicate CaughtUp(trees: map<Bytes, Avl>, before: Values, version: nat)
      reads Footprint()
    {
      && TakenOver(before, trees, version)
      && stores.headCommitHash == AppHashOf(stores.H, RootsOf(stores.H, trees))
      && stores.headVersion == version && height == version
    }

    /** `None` is a panic: a name that is not a store's, a state that cannot be read, or no store at all. */
    method TakeStates(states: States, version: nat, ghost trees: map<Bytes, Avl>, ghost before: Values) returns (r: Option<Hash>)
      requires stores.Apart() && trees.Keys == states.Keys
      modifies stores.Footprint() - {stores}
      ensures r.Some? <==> states != map[] && CanTake(states, states.Keys)
      ensures r.Some? && old(Good(states, version, trees, before)) ==>
                TakenOver(before, trees, version) && r == Some(AppHashOf(stores.H, RootsOf(stores.H, trees)))
    {
      hide TakenOver, Taking, Good, CanTake, MultiStore.Apart, AppHash.HashOfInfos;
      ghost var good := Good(states, version, trees, before);
      var infos, done := TakeAll(states, version, trees, before);
      if infos.None? {
        return None;
      }
      r := HashStoreInfos(stores.H, infos.value);
      if good { TakenIsAll(states, trees, infos.value, done, before, version); }
    }

    /** A state message for this node from one that is ahead; any other message changes nothing. `false`
        is a panic: a name that is not a store's, a state that cannot be read, or no store at all. After
        the exports of these trees everything is taken over. */
    method ProcessStateMsg(states: States, addressed: bool, version: nat, ghost trees: map<Bytes, Avl>, ghost before: Values)
      returns (ok: bool)
      requires stores.Apart() && trees.Keys == states.Keys
      modifies this, stores.Footprint()
      ensures !addressed || version <= old(height) ==> ok && unchanged(this) && unchanged(stores.Footprint())
      ensures addressed && version > old(height) ==> (ok <==> states != map[] && CanTake(states, states.Keys))
      ensures ok && addressed && version > old(height) ==> stores.headVersion == version && height == version
      ensures ok && addressed && version > old(height) && old(Good(states, version, trees, before)) ==> CaughtUp(trees, before, version)
    {
      hide TakenOver, Good, CanTake, MultiStore.Apart, AppHashOf, RootsOf;
      if !addressed || height >= version {
        return true;
      }
      var hash := TakeStates(states, version, trees, before);
      if hash.None? {
        return false;
      }
      stores.headCommitHash := hash.value;
      stores.headVersion := version;
      height := version;
      ok := true;
    }

    /** Exports can be read. */
    lemma ExportsTakeable(states: States, trees: map<Bytes, Avl>)
      requires AreExports(stores.H, states, trees) && states.Keys <= stores.stores.Keys
      ensures CanTake(states, states.Keys)
    {
      hide IsExport, Takeable;
      forall name | name in states ensures Takeable(states[name]) {
        assert IsExport(stores.H, states[name], trees[name]);
        ExportTakeable(stores.H, trees[name], states[name]);
      }
    }

    lemma TakenIsAll(states: States, trees: map<Bytes, Avl>, infos: seq<StoreInfo>, done: map<Bytes, Avl>,
                     before: Values, version: nat)
      requires Taking(states, trees, {}, infos, done, before, version)
      ensures TakenOver(before, trees, version) && (infos != [] <==> states != map[])
      ensures HashOfInfos(stores.H, infos) == AppHashOf(stores.H, RootsOf(stores.H, trees))
    {
      hide TakenOver, IsExport, AppHash.HashOfInfos;
      assert trees - {} == trees;
      AnyListing(stores.H, infos, RootsOf(stores.H, trees));
      if infos != [] { assert infos[0].name in trees; }
      if states != map[] {
        var name :| name in states;
        assert name in RootsOf(stores.H, trees);
      }
    }

    /** Between blocks, at this height. */
    ghost predicate Settled()
      reads this, stores.Footprint()
    {
      stores.Settled() && stores.headVersion == height
    }

    /** The height is raised first; `None` is a panic in one of the stores. */
    method Commit() returns (r: Option<Hash>)
      requires stores.Valid() && stores.headVersion == height < MAX_U32
      requires forall name :: name in stores.stores ==> stores.stores[name].tree.loadedVersion == height
      modifies this, stores.Footprint()
      ensures height == old(height) + 1
      ensures r.Some? ==> stores.AllCommitted(old(stores.Now()), r.value)
      ensures old(stores.AllDecided()) ==> (r.Some? <==> old(stores.AllGo()))
      ensures r.Some? && old(stores.AllLatest()) ==> stores.AllLatest()
      ensures r.Some? && (forall name :: name in stores.stores ==> NoCollisions(stores.H, stores.stores[name].tree.seen)) ==> Settled()
    {
      hide IavlHash.NoCollisions, MultiStore.Valid, MultiStore.Now, MultiStore.Apart, MultiStore.AllCommitted, MultiStore.AllDecided, MultiStore.AllGo, MultiStore.AllLatest, Settled, AppHashOf;
      ghost var before := stores.Now();
      BeforeCommit();
      height := height + 1;
      r := stores.Commit();
      if r.Some? && (forall name :: name in stores.stores ==> NoCollisions(stores.H, stores.stores[name].tree.seen)) {
        CommitSettles(before);
      }
    }

    lemma BeforeCommit()
      requires stores.Valid() && forall name :: name in stores.stores ==> stores.stores[name].tree.loadedVersion == height
      ensures stores.Apart() && stores.Now().versions.Keys == stores.stores.Keys
      ensures forall name :: name in stores.Now().versions ==> stores.Now().versions[name] == height
    {
      hide KVStore.Valid, KVStore.Value, KVStore.Decided, KVStore.Goes;
    }

    lemma CommitSettles(before: Before)
      requires stores.Apart() && stores.headVersion == height && stores.AllCommitted(before, stores.headCommitHash)
      requires before.versions.Keys == stores.stores.Keys && forall name :: name in before.versions ==> before.versions[name] + 1 == height
      requires forall name :: name in stores.stores ==> NoCollisions(stores.H, stores.stores[name].tree.seen)
      ensures Settled()
    {
      hide IavlHash.NoCollisions, KVStore.Valid, KVStore.Value, AppHash.HashOfInfos;
    }
  }

  /** Nothing is cached, so the store reads as its tree. */
  ghost predicate Idle(p: Peer)
    reads p.stores.Footprint()
  {
    forall name :: name in p.stores.stores ==>
      p.stores.stores[name].Readable() && p.stores.stores[name].blockCache == map[] && p.stores.stores[name].txCache == map[]
  }

  /** What every store reads as. */
  ghost function ValuesOf(p: Peer): Values
    reads p.stores.Footprint()
  {
    map name | name in p.stores.stores :: p.stores.stores[name].Value()
  }

  /** The trees a settled peer would send. */
  ghost function TreesSent(p: Peer): map<Bytes, Avl>
    requires p.CanSend()
    reads p, set name | name in p.stores.stores :: p.stores.stores[name].tree
  {
    map name | name in p.stores.stores :: p.Saved(name, p.height).value
  }

  /** Every store of `b` reads as what the store of that name has committed in `a`. */
  ghost predicate ReadsAs(b: Peer, a: map<Bytes, Avl>)
    reads b.stores.Footprint()
  {
    && b.stores.stores.Keys == a.Keys
    && forall name :: name in a ==>
         b.stores.stores[name].Readable() && b.stores.stores[name].Value() == Layers(Contents(a[name]), map[], map[])
  }

  /** The message arrives at a node that is behind and has nothing cached. */
  method Receive(b: Peer, states: States, version: nat, ghost trees: map<Bytes, Avl>) returns (ok: bool)
    requires b.stores.Apart() && Idle(b) && b.height < version
    requires AreExports(b.stores.H, states, trees) && states.Keys == b.stores.stores.Keys
    modifies b, b.stores.Footprint()
    ensures ok
    ensures b.height == version && b.stores.headVersion == version && ReadsAs(b, trees)
    ensures b.stores.headCommitHash == AppHashOf(b.stores.H, RootsOf(b.stores.H, trees))
  {
    hide Idle, Peer.TakenOver, Peer.CanTake, IsExport, AppHashOf, ReadsAs, NothingCached, ValuesOf;
    ghost var before := ValuesOf(b);
    IdleUntouched(b, version);
    b.ExportsTakeable(states, trees);
    ok := b.ProcessStateMsg(states, true, version, trees, before);
    TakenReads(b, before, trees, version);
  }

  /** One node asks, another answers, the message arrives. The one behind ends at the height and with the
      application hash of the one ahead, and reads every key of every store as the other has it committed.
      It works unless a store of the one ahead is empty. */
  method Sync(a: Peer, b: Peer) returns (ok: bool)
    requires a.Settled() && b.stores.Apart() && Idle(b)
    requires a.stores.H == b.stores.H && a.stores.stores.Keys == b.stores.stores.Keys && b.height < a.height
    modifies b, b.stores.Footprint()
    ensures ok <==> old(a.CanSend())
    ensures ok ==> b.height == b.stores.headVersion == old(a.height) && b.stores.headCommitHash == old(a.stores.headCommitHash)
    ensures ok ==> ReadsAs(b, old(TreesSent(a)))
  {
    hide Idle, Peer.Settled, Peer.CanSend, Peer.Gathered, AreExports, MultiStore.Apart, MultiStore.Valid,
      AppHashOf, RootsOf, ReadsAs, TreesSent;
    SettledSends(a);
    var reply := a.ProcessVersionMsg(b.height);
    if reply.Panicked? {
      return false;
    }
    ghost var trees := TreesSent(a);
    SentAreExports(a, reply.states);
    ok := Receive(b, reply.states, reply.height, trees);
  }

  lemma SettledSends(a: Peer)
    requires a.Settled()
    ensures a.stores.Valid() && a.stores.stores != map[]
    ensures a.CanSend() ==> a.stores.headVersion == a.height && a.stores.headCommitHash == AppHashOf(a.stores.H, RootsOf(a.stores.H, TreesSent(a)))
  {
    hide KVStore.Valid, AppHashOf, IavlHash.RootHash;
    if a.CanSend() {
      assert RootsOf(a.stores.H, TreesSent(a)) == TreeRoots(a.stores.H, a.stores.Trees());
    }
  }

  lemma IdleUntouched(b: Peer, version: nat)
    requires Idle(b)
    ensures b.TakenOver(ValuesOf(b), map[], version) && NothingCached(ValuesOf(b))
  {
    hide KVStore.Readable;
  }

  predicate NothingCached(values: Values)
  {
    forall name :: name in values ==> values[name].block == map[] && values[name].tx == map[]
  }

  lemma TakenReads(b: Peer, before: Values, trees: map<Bytes, Avl>, version: nat)
    requires b.TakenOver(before, trees, version) && NothingCached(before) && trees.Keys == b.stores.stores.Keys
    ensures ReadsAs(b, trees)
  {
    hide KVStore.Readable, KVStore.Value;
  }

  lemma SentAreExports(a: Peer, states: States)
    requires a.Gathered(states, {}) && a.CanSend()
    ensures AreExports(a.stores.H, states, TreesSent(a)) && states.Keys == a.stores.stores.Keys
  {
    hide IsExport;
  }
}
