/** A block of cached writes flushed into the tree, as a list of insertions: what it makes of the tree, and
    when it goes through. */
module BlockWrites {
  import opened ByteStrings
  import opened IavlNode
  import opened IavlSpec
  import opened IavlBalance
  import opened IavlHash
  import opened IavlDb
  import opened IavlLoads
  import opened IavlStale
  import opened IavlRuns
  import opened IavlAsWritten
  import opened IavlFresh
  import opened IavlDisk
  import opened IavlTree
  import opened SortedKeys

  /** The entries of a cache in the order they are written into the tree. */
  function InKeyOrder(keys: seq<Bytes>, cache: Pairs): seq<(Bytes, Bytes)>
    requires forall k :: k in keys ==> k in cache
  {
    if keys == [] then [] else [(keys[0], cache[keys[0]])] + InKeyOrder(keys[1..], cache)
  }

  function Ordered(cache: Pairs): seq<(Bytes, Bytes)>
  {
    InKeyOrder(Sorted(cache.Keys), cache)
  }

  /** The tree after a list of insertions into a tree that may be empty; the outer `None` is a panic. */
  function WriteAll(c: CaseTwo, root: Option<Avl>, writes: seq<(Bytes, Bytes)>, version: nat): Option<Option<Avl>>
  {
    if writes == [] then Some(root)
    else
      var t := if root.Some? then SetAll(c, root.value, writes, version)
               else SetAll(c, Leaf(writes[0].0, writes[0].1, version), writes[1..], version);
      if t.Some? then Some(t) else None
  }

  /** The writes of a cache from the `i`th key on. */
  function Rest(c: CaseTwo, root: Option<Avl>, cache: Pairs, i: nat, version: nat): Option<Option<Avl>>
  {
    WriteAll(c, root, if i <= |Ordered(cache)| then Ordered(cache)[i..] else [], version)
  }

  /** What commit makes of a tree and the block cache: a function of the two, so of nothing else. */
  function Committed(c: CaseTwo, root: Option<Avl>, cache: Pairs, version: nat): Option<Option<Avl>>
  {
    Rest(c, root, cache, 0, version)
  }

  /** One insertion after the other moves only what is in memory when its turn comes. */
  predicate SafeAll(c: CaseTwo, root: Option<Avl>, l: Loads, writes: seq<(Bytes, Bytes)>, version: nat)
    requires l.Present?
    decreases |writes|
  {
    writes != [] ==>
      && var (key, value) := writes[0];
      && SafeOf(c, root, l, key, value, version)
      && var next := SetOf(c, root, key, value, version);
         (next.Some? ==> SafeAll(c, next, SetLoadsOf(c, root, l, key, value, version), writes[1..], version))
  }

  predicate RestSafe(c: CaseTwo, root: Option<Avl>, l: Loads, cache: Pairs, i: nat, version: nat)
    requires l.Present?
  {
    SafeAll(c, root, l, if i <= |Ordered(cache)| then Ordered(cache)[i..] else [], version)
  }

  /** Each insertion in turn, as far as they move only what is in memory, finds the database blind to the
      trees under way. */
  predicate BlindAll(H: Hasher, db: Db, c: CaseTwo, root: Option<Avl>, l: Loads, writes: seq<(Bytes, Bytes)>, version: nat)
    requires l.Present?
    decreases |writes|
  {
    writes != [] ==>
      && var (key, value) := writes[0];
      && BlindOf(H, db, c, root, key, value, version)
      && var next := SetOf(c, root, key, value, version);
         (next.Some? && SafeOf(c, root, l, key, value, version) ==>
            BlindAll(H, db, c, next, SetLoadsOf(c, root, l, key, value, version), writes[1..], version))
  }

  predicate RestBlind(H: Hasher, db: Db, c: CaseTwo, root: Option<Avl>, l: Loads, cache: Pairs, i: nat, version: nat)
    requires l.Present?
  {
    BlindAll(H, db, c, root, l, if i <= |Ordered(cache)| then Ordered(cache)[i..] else [], version)
  }

  /** The writes from the `i`th key on go through: the insertions return, and move only what is in memory. */
  predicate RestGoes(c: CaseTwo, root: Option<Avl>, l: Loads, cache: Pairs, i: nat, version: nat)
    requires l.Present?
  {
    Rest(c, root, cache, i, version).Some? && RestSafe(c, root, l, cache, i, version)
  }

  /** `root` holds what `before` held, under the first `i` keys of the cache. */
  ghost predicate Partway(cache: Pairs, i: nat, before: Option<Avl>, root: Option<Avl>)
  {
    && i <= |Sorted(cache.Keys)| == |Ordered(cache)|
    && ContentsOf(root) == ContentsOf(before) + Restricted(cache, Sorted(cache.Keys)[..i])
  }

  lemma FlushStarts(c: CaseTwo, cache: Pairs, before: Option<Avl>, version: nat)
    ensures Partway(cache, 0, before, before)
    ensures Rest(c, before, cache, 0, version) == Committed(c, before, cache, version)
  {
    InKeyOrderAt(Sorted(cache.Keys), cache, 0);
    RestrictedEnds(ContentsOf(before), cache, Sorted(cache.Keys));
  }

  lemma FlushEnds(c: CaseTwo, cache: Pairs, before: Option<Avl>, root: Option<Avl>, version: nat)
    requires Partway(cache, |Sorted(cache.Keys)|, before, root)
    ensures ContentsOf(root) == ContentsOf(before) + cache
    ensures Rest(c, root, cache, |Sorted(cache.Keys)|, version) == Some(root)
    ensures forall l: Loads :: l.Present? ==> RestGoes(c, root, l, cache, |Sorted(cache.Keys)|, version)
  {
    hide SortedKeys.Sorted, InKeyOrder, Restricted, IavlRuns.ContentsOf;
    RestrictedEnds(ContentsOf(before), cache, Sorted(cache.Keys));
    assert Ordered(cache)[|Sorted(cache.Keys)|..] == [];
  }

  lemma WriteOne(c: CaseTwo, root: Option<Avl>, next: Option<Avl>, writes: seq<(Bytes, Bytes)>, version: nat)
    requires writes != []
    requires next == SetOf(c, root, writes[0].0, writes[0].1, version)
    ensures WriteAll(c, root, writes, version) == if next.Some? then WriteAll(c, next, writes[1..], version) else None
  {
    if next.Some? && writes[1..] == [] {
      assert SetAll(c, next.value, writes[1..], version) == next;
    }
  }

  lemma {:induction false} InKeyOrderAt(keys: seq<Bytes>, cache: Pairs, i: nat)
    requires (forall k :: k in keys ==> k in cache) && i <= |keys|
    ensures |InKeyOrder(keys, cache)| == |keys|
    ensures InKeyOrder(keys, cache)[i..] == InKeyOrder(keys[i..], cache)
    ensures i < |keys| ==> InKeyOrder(keys, cache)[i] == (keys[i], cache[keys[i]])
  {
    if keys != [] {
      var all, rest := InKeyOrder(keys, cache), InKeyOrder(keys[1..], cache);
      if i == 0 {
        InKeyOrderAt(keys[1..], cache, 0);
        assert all[0..] == all && keys[0..] == keys;
      } else {
        InKeyOrderAt(keys[1..], cache, i - 1);
        assert all[i..] == rest[i - 1..] && keys[1..][i - 1..] == keys[i..];
      }
    }
  }

  lemma OrderedLength(cache: Pairs)
    ensures |Ordered(cache)| == |cache|
  {
    InKeyOrderAt(Sorted(cache.Keys), cache, 0);
    SortedLength(cache.Keys);
  }

  /** With the intended Case 2 a balanced tree always takes a block of writes, and stays balanced. */
  lemma IntendedCommits(root: Option<Avl>, cache: Pairs, version: nat)
    requires root.Some? ==> SearchTree(root.value) && Measured(root.value) && Balanced(root.value)
    requires (if root.Some? then LeafCount(root.value) else 0) + |cache| <= MAX_U32
    ensures Committed(LeftChildFirst, root, cache, version).Some?
    ensures var root' := Committed(LeftChildFirst, root, cache, version).value;
            root'.Some? ==> Balanced(root'.value) && Measured(root'.value) && SearchTree(root'.value)
  {
    var keys := Sorted(cache.Keys);
    var writes := Ordered(cache);
    InKeyOrderAt(keys, cache, 0);
    SortedLength(cache.Keys);
    assert |writes| == |cache| && writes[0..] == writes;
    if writes != [] {
      if root.Some? {
        IntendedStaysBalanced(root.value, writes, version);
      } else {
        IntendedStaysBalanced(Leaf(writes[0].0, writes[0].1, version), writes[1..], version);
      }
    }
  }

  /** No write of the list rotates anything. */
  predicate SteadyAll(c: CaseTwo, t: Avl, writes: seq<(Bytes, Bytes)>, version: nat)
    decreases |writes|
  {
    writes != [] ==>
      && var (key, value) := writes[0];
      && Steady(t, key)
      && var next := IavlSpec.Set(c, t, key, value, version);
         (next.Some? ==> SteadyAll(c, next.value, writes[1..], version))
  }

  /** Writes that rotate nothing all go through, whatever is in memory and with Case 2 either way. */
  lemma {:induction false} SteadyWrites(c: CaseTwo, t: Avl, l: Loads, writes: seq<(Bytes, Bytes)>, version: nat)
    requires SearchTree(t) && Measured(t) && Balanced(t) && LeafCount(t) + |writes| <= MAX_U32
    requires l.Present? && SteadyAll(c, t, writes, version)
    ensures SafeAll(c, Some(t), l, writes, version) && SetAll(c, t, writes, version).Some?
    ensures var t' := SetAll(c, t, writes, version).value; Balanced(t') && Measured(t') && SearchTree(t')
    decreases |writes|
  {
    hide IavlSpec.SearchTree, IavlSpec.Measured, IavlSpec.Balanced, Steady, Safe, IavlSpec.Set, SetLoads;
    if writes != [] {
      var (key, value) := writes[0];
      HeightFits(t);
      SteadyInserts(c, t, l, key, value, version);
      SetMeansUpdate(c, t, key, value, version);
      SteadyWrites(c, IavlSpec.Set(c, t, key, value, version).value, SetLoads(c, t, l, key, value, version), writes[1..], version);
    }
  }

  /** Overwriting keys that are there rotates nothing. */
  lemma {:induction false} OverwritesAreSteady(c: CaseTwo, t: Avl, writes: seq<(Bytes, Bytes)>, version: nat)
    requires SearchTree(t) && forall i :: 0 <= i < |writes| ==> writes[i].0 in Contents(t)
    ensures SteadyAll(c, t, writes, version)
    decreases |writes|
  {
    if writes != [] {
      var (key, value) := writes[0];
      OverwriteIsSteady(t, key);
      if IavlSpec.Set(c, t, key, value, version).Some? {
        SetMeansUpdate(c, t, key, value, version);
        OverwritesAreSteady(c, IavlSpec.Set(c, t, key, value, version).value, writes[1..], version);
      }
    }
  }

  /** A block that rotates nothing is taken by any balanced tree, as written too, in memory or not. */
  lemma SteadyCommits(c: CaseTwo, t: Avl, l: Loads, cache: Pairs, version: nat)
    requires SearchTree(t) && Measured(t) && Balanced(t) && LeafCount(t) + |cache| <= MAX_U32
    requires l.Present? && SteadyAll(c, t, Ordered(cache), version)
    ensures RestSafe(c, Some(t), l, cache, 0, version)
    ensures var r := Committed(c, Some(t), cache, version);
            r.Some? && r.value.Some? && Balanced(r.value.value) && Measured(r.value.value) && SearchTree(r.value.value)
  {
    InKeyOrderAt(Sorted(cache.Keys), cache, 0);
    SortedLength(cache.Keys);
    var writes := Ordered(cache);
    assert writes[0..] == writes;
    SteadyWrites(c, t, l, writes, version);
  }

  /** In particular a block that only overwrites. */
  lemma OverwritesCommit(c: CaseTwo, t: Avl, l: Loads, cache: Pairs, version: nat)
    requires SearchTree(t) && Measured(t) && Balanced(t) && LeafCount(t) + |cache| <= MAX_U32
    requires l.Present? && cache.Keys <= Contents(t).Keys
    ensures RestSafe(c, Some(t), l, cache, 0, version) && Committed(c, Some(t), cache, version).Some?
  {
    hide SafeAll, SteadyAll, RestSafe, Committed, IavlSpec.SearchTree, IavlSpec.Measured, IavlSpec.Balanced, SortedKeys.Sorted;
    var keys := Sorted(cache.Keys);
    InKeyOrderAt(keys, cache, 0);
    forall i | 0 <= i < |Ordered(cache)| ensures Ordered(cache)[i].0 in Contents(t) {
      InKeyOrderAt(keys, cache, i);
      assert keys[i] in keys;
    }
    OverwritesAreSteady(c, t, Ordered(cache), version);
    SteadyCommits(c, t, l, cache, version);
  }

  /** A wholly loaded tree takes every block safely. */
  lemma {:induction false} WholeWritesSafely(c: CaseTwo, root: Option<Avl>, l: Loads, writes: seq<(Bytes, Bytes)>, version: nat)
    requires l.Present? && (root.Some? ==> Whole(root.value, l))
    ensures SafeAll(c, root, l, writes, version)
    decreases |writes|
  {
    if writes != [] {
      var (key, value) := writes[0];
      if root.Some? { WholeIsSafe(c, root.value, l, key, value, version); }
      var next := SetOf(c, root, key, value, version);
      if next.Some? { WholeWritesSafely(c, next, SetLoadsOf(c, root, l, key, value, version), writes[1..], version); }
    }
  }

  /** The part of a cache under the keys listed. */
  function Restricted(cache: Pairs, keys: seq<Bytes>): Pairs
  {
    map k | k in cache && k in keys :: cache[k]
  }

  /** After one more key of the sorted list. */
  lemma RestrictedNext(base: Pairs, cache: Pairs, keys: seq<Bytes>, i: nat)
    requires (forall k :: k in keys ==> k in cache) && i < |keys|
    ensures keys[i] in cache
    ensures base + Restricted(cache, keys[..i + 1]) == (base + Restricted(cache, keys[..i]))[keys[i] := cache[keys[i]]]
  {
    assert keys[i] in keys;
    assert keys[..i + 1] == keys[..i] + [keys[i]];
  }

  lemma RestrictedEnds(base: Pairs, cache: Pairs, keys: seq<Bytes>)
    requires keys == Sorted(cache.Keys)
    ensures base + Restricted(cache, keys[..0]) == base
    ensures base + Restricted(cache, keys[..|keys|]) == base + cache
  {
    assert keys[..|keys|] == keys;
    assert Restricted(cache, keys) == cache;
  }

  lemma WriteNext(c: CaseTwo, root: Option<Avl>, next: Option<Avl>, cache: Pairs, i: nat, key: Bytes, version: nat)
    requires i < |Sorted(cache.Keys)| && key == Sorted(cache.Keys)[i] && key in cache
    requires next == SetOf(c, root, key, cache[key], version)
    ensures Rest(c, root, cache, i, version) == if next.Some? then Rest(c, next, cache, i + 1, version) else None
    ensures forall l: Loads :: l.Present? ==>
              (RestSafe(c, root, l, cache, i, version)
               <==> SafeOf(c, root, l, key, cache[key], version)
                    && (next.Some? ==> RestSafe(c, next, SetLoadsOf(c, root, l, key, cache[key], version), cache, i + 1, version)))
    ensures forall H: Hasher, db: Db, l: Loads :: l.Present? && RestBlind(H, db, c, root, l, cache, i, version) ==>
              && BlindOf(H, db, c, root, key, cache[key], version)
              && (next.Some? && SafeOf(c, root, l, key, cache[key], version) ==>
                    RestBlind(H, db, c, next, SetLoadsOf(c, root, l, key, cache[key], version), cache, i + 1, version))
  {
    InKeyOrderAt(Sorted(cache.Keys), cache, i);
    assert Ordered(cache)[i..][1..] == Ordered(cache)[i + 1..];
    WriteOne(c, root, next, Ordered(cache)[i..], version);
  }

  lemma PartwayNext(cache: Pairs, i: nat, before: Option<Avl>, root: Option<Avl>, root': Option<Avl>, key: Bytes)
    requires Partway(cache, i, before, root) && i < |Sorted(cache.Keys)| && key == Sorted(cache.Keys)[i] && key in cache
    requires ContentsOf(root') == ContentsOf(root)[key := cache[key]]
    ensures Partway(cache, i + 1, before, root')
  {
    RestrictedNext(ContentsOf(before), cache, Sorted(cache.Keys), i);
  }

  // ---------------------------------------------------------------- what the database can tell

  /** At every turn, as far as the writes move only what is in memory, the tree is empty or regular. */
  ghost predicate RegularAll(c: CaseTwo, root: Option<Avl>, l: Loads, writes: seq<(Bytes, Bytes)>, version: nat)
    requires l.Present?
    decreases |writes|
  {
    writes != [] ==>
      && var (key, value) := writes[0];
      && RegularOf(root)
      && var next := SetOf(c, root, key, value, version);
         (next.Some? && SafeOf(c, root, l, key, value, version) ==>
            RegularAll(c, next, SetLoadsOf(c, root, l, key, value, version), writes[1..], version))
  }

  /** All that is hashed for the lookups of the block and for its trees. */
  function HashedAll(H: Hasher, c: CaseTwo, root: Option<Avl>, writes: seq<(Bytes, Bytes)>, version: nat): set<Bytes>
    decreases |writes|
  {
    if writes == [] then {}
    else
      var (key, value) := writes[0];
      var next := SetOf(c, root, key, value, version);
      ProbedOf(H, c, root, key, value, version)
      + (if next.Some? then Preimages(H, next.value) + HashedAll(H, c, next, writes[1..], version) else {})
  }

  lemma SetOfSound(H: Hasher, c: CaseTwo, root: Option<Avl>, key: Bytes, value: Bytes, version: nat, seen: set<Bytes>)
    requires SoundRoot(H, root, seen) && version <= MAX_U32 && SetOf(c, root, key, value, version).Some?
    ensures var next := SetOf(c, root, key, value, version); SoundRoot(H, next, seen + Preimages(H, next.value))
  {
    if root.Some? {
      SetMeansUpdate(c, root.value, key, value, version);
      SetEncodable(c, root.value, key, value, version);
    }
  }

  /** Through a whole block: a database whose nodes were all made before is blind to every tree under way. */
  lemma {:induction false} BlockIsBlind(H: Hasher, db: Db, c: CaseTwo, root: Option<Avl>, l: Loads, writes: seq<(Bytes, Bytes)>,
                                        version: nat, versions: set<nat>, seen: set<Bytes>, all: set<Bytes>)
    requires l.Present? && SoundRoot(H, root, seen) && RegularAll(c, root, l, writes, version)
    requires Dated(H, db, versions, seen) && Later(version, versions) && NoCollisions(H, all)
    requires seen <= all && HashedAll(H, c, root, writes, version) <= all
    ensures BlindAll(H, db, c, root, l, writes, version)
    decreases |writes|
  {
    hide Dated, Regular, SoundRoot, Blind, Safe, Probed, IavlHash.NoCollisions, IavlHash.Preimages, IavlSpec.Set;
    if writes != [] {
      var (key, value) := writes[0];
      TurnIsBlind(H, db, c, root, key, value, version, versions, seen, all);
      var next := SetOf(c, root, key, value, version);
      if next.Some? && SafeOf(c, root, l, key, value, version) {
        SetOfSound(H, c, root, key, value, version, seen);
        var wider := seen + Preimages(H, next.value);
        DatedWider(H, db, versions, seen, wider);
        BlockIsBlind(H, db, c, next, SetLoadsOf(c, root, l, key, value, version), writes[1..], version, versions, wider, all);
      }
    }
  }

  lemma TurnIsBlind(H: Hasher, db: Db, c: CaseTwo, root: Option<Avl>, key: Bytes, value: Bytes, version: nat,
                    versions: set<nat>, seen: set<Bytes>, all: set<Bytes>)
    requires SoundRoot(H, root, seen) && RegularOf(root)
    requires Dated(H, db, versions, seen) && Later(version, versions) && NoCollisions(H, all)
    requires seen <= all && ProbedOf(H, c, root, key, value, version) <= all
    ensures BlindOf(H, db, c, root, key, value, version)
  {
    hide Dated, Regular, Blind, Probed, IavlHash.NoCollisions;
    if root.Some? { FreshIsBlind(H, db, c, root.value, key, value, version, versions, seen, all); }
  }

  // ---------------------------------------------------------------- blocks of balanced trees

  /** A balanced tree with room for so many writes. */
  ghost predicate HasRoom(root: Option<Avl>, writes: nat)
  {
    if root.Some? then SearchTree(root.value) && Measured(root.value) && Balanced(root.value) && LeafCount(root.value) + writes <= MAX_U32
    else writes <= MAX_U32
  }

  lemma RoomIsRegular(root: Option<Avl>, writes: nat)
    requires HasRoom(root, writes) && writes > 0
    ensures RegularOf(root)
  {
    if root.Some? { HeightFits(root.value); }
  }

  lemma SetOfKeepsRoom(c: CaseTwo, root: Option<Avl>, key: Bytes, value: Bytes, version: nat, writes: nat)
    requires HasRoom(root, writes) && writes > 0
    requires c.AsWritten? ==> ForecastOf(root, key) in {Same, Grew, Panics}
    ensures c.AsWritten? ==> (SetOf(c, root, key, value, version).Some? <==> !ForecastOf(root, key).Panics?)
    ensures c.LeftChildFirst? ==> SetOf(c, root, key, value, version).Some?
    ensures SetOf(c, root, key, value, version).Some? ==> HasRoom(SetOf(c, root, key, value, version), writes - 1)
  {
    if root.Some? {
      HeightFits(root.value);
      if c.AsWritten? {
        AsWrittenInduction(root.value, key, value, version);
      } else {
        IntendedInduction(root.value, key, value, version);
      }
      if SetOf(c, root, key, value, version).Some? { SetMeansUpdate(c, root.value, key, value, version); }
    }
  }

  /** No write of the block that goes through tilts the tree: each in its turn is forecast to keep balance or
      to panic, or would move what is not in memory. */
  predicate Calm(root: Option<Avl>, l: Loads, writes: seq<(Bytes, Bytes)>, version: nat)
    requires l.Present?
    decreases |writes|
  {
    writes != [] ==>
      && var (key, value) := writes[0];
      && (SafeOf(AsWritten, root, l, key, value, version) ==>
            && ForecastOf(root, key) in {Same, Grew, Panics}
            && var next := SetOf(AsWritten, root, key, value, version);
               (next.Some? ==> Calm(next, SetLoadsOf(AsWritten, root, l, key, value, version), writes[1..], version)))
  }

  /** As written: no write of the block is forecast to panic, and each moves only what is in memory when its
      turn comes. The first that does not is where it panics. */
  predicate GoesThrough(root: Option<Avl>, l: Loads, writes: seq<(Bytes, Bytes)>, version: nat)
    requires l.Present?
    decreases |writes|
  {
    writes != [] ==>
      && var (key, value) := writes[0];
      && !ForecastOf(root, key).Panics? && SafeOf(AsWritten, root, l, key, value, version)
      && var next := SetOf(AsWritten, root, key, value, version);
         (next.Some? ==> GoesThrough(next, SetLoadsOf(AsWritten, root, l, key, value, version), writes[1..], version))
  }

  /** A calm block of a balanced tree with room: regular at every turn, and its insertions all return and move
      only what is in memory exactly if it goes through by the forecasts; then the tree is balanced. */
  lemma {:induction false} CalmGoesExactly(root: Option<Avl>, l: Loads, writes: seq<(Bytes, Bytes)>, version: nat)
    requires HasRoom(root, |writes|) && l.Present? && Calm(root, l, writes, version)
    ensures RegularAll(AsWritten, root, l, writes, version)
    ensures WriteAll(AsWritten, root, writes, version).Some? && SafeAll(AsWritten, root, l, writes, version)
            <==> GoesThrough(root, l, writes, version)
    ensures GoesThrough(root, l, writes, version) ==> HasRoom(WriteAll(AsWritten, root, writes, version).value, 0)
    decreases |writes|
  {
    hide HasRoom, RegularOf, ForecastOf, SetOf, SafeOf, SetLoadsOf, WriteAll;
    if writes == [] {
      NothingWritten(AsWritten, root, version);
    } else {
      var (key, value) := writes[0];
      RoomIsRegular(root, |writes|);
      var next := SetOf(AsWritten, root, key, value, version);
      WriteOne(AsWritten, root, next, writes, version);
      if SafeOf(AsWritten, root, l, key, value, version) {
        SetOfKeepsRoom(AsWritten, root, key, value, version, |writes|);
        if next.Some? { CalmGoesExactly(next, SetLoadsOf(AsWritten, root, l, key, value, version), writes[1..], version); }
      }
    }
  }

  lemma NothingWritten(c: CaseTwo, root: Option<Avl>, version: nat)
    ensures WriteAll(c, root, [], version) == Some(root)
    ensures forall n :: HasRoom(root, n) ==> HasRoom(root, 0)
  {
  }

  /** With Case 2 as meant every block of a balanced tree with room is regular at every turn. */
  lemma {:induction false} MeantIsRegular(root: Option<Avl>, l: Loads, writes: seq<(Bytes, Bytes)>, version: nat)
    requires HasRoom(root, |writes|) && l.Present?
    ensures RegularAll(LeftChildFirst, root, l, writes, version)
    decreases |writes|
  {
    hide HasRoom, RegularOf, SetOf, SafeOf, SetLoadsOf;
    if writes != [] {
      var (key, value) := writes[0];
      RoomIsRegular(root, |writes|);
      SetOfKeepsRoom(LeftChildFirst, root, key, value, version, |writes|);
      var next := SetOf(LeftChildFirst, root, key, value, version);
      MeantIsRegular(next, SetLoadsOf(LeftChildFirst, root, l, key, value, version), writes[1..], version);
    }
  }

  /** A block that does not go through has a first write that does not. */
  lemma {:induction false} FirstBadWrite(root: Option<Avl>, l: Loads, writes: seq<(Bytes, Bytes)>, version: nat) returns (i: nat)
    requires l.Present? && !GoesThrough(root, l, writes, version)
    ensures i < |writes| && GoesThrough(root, l, writes[..i], version) && !GoesThrough(root, l, writes[..i + 1], version)
    decreases |writes|
  {
    var (key, value) := writes[0];
    i := 0;
    if !ForecastOf(root, key).Panics? && SafeOf(AsWritten, root, l, key, value, version) {
      var next := SetOf(AsWritten, root, key, value, version);
      i := FirstBadWrite(next, SetLoadsOf(AsWritten, root, l, key, value, version), writes[1..], version);
      assert writes[..i + 1][1..] == writes[1..][..i] && writes[..i + 2][1..] == writes[1..][..i + 1];
      i := i + 1;
    }
  }
}
