/** The in-memory database, and databases that share it under disjoint key prefixes. */
module Database {
  import opened ByteStrings
  import opened Varint
  import opened SortedKeys
  import opened Prefixes
  import opened IavlDb

  type Store = map<Bytes, Bytes>
  type Pair = (Bytes, Bytes)

  /** The keys within the bounds, ascending, as `BTreeMap::range` walks them. */
  function RangeKeys(store: Store, start: Bound, end: Bound): seq<Bytes>
  {
    Sorted(set k | k in store && InRange(k, start, end))
  }

  /** `pairs` are the entries of `m`, ascending. */
  ghost predicate Lists(m: Store, pairs: seq<Pair>)
  {
    && (forall i :: 0 <= i < |pairs| ==> pairs[i].0 in m && m[pairs[i].0] == pairs[i].1)
    && (forall k :: k in m ==> exists i :: 0 <= i < |pairs| && pairs[i].0 == k)
    && (forall i, j :: 0 <= i < j < |pairs| ==> Less(pairs[i].0, pairs[j].0))
  }

  /** The entries whose keys start with the prefix, keys whole. */
  function Under(prefix: Bytes, store: Store): Store
  {
    map k | k in store && prefix <= k :: store[k]
  }

  /** What a database sees through a prefix: the same entries, the prefix cut off. */
  function Through(prefix: Bytes, store: Store): (view: Store)
    ensures forall k :: k in view <==> prefix + k in store
    ensures forall k :: k in view ==> view[k] == store[prefix + k]
  {
    var keys := set full | full in store && prefix <= full :: full[|prefix|..];
    assert forall k :: k in keys <==> prefix + k in store by {
      forall k ensures k in keys <==> prefix + k in store {
        if prefix + k in store { assert prefix <= prefix + k && (prefix + k)[|prefix|..] == k; }
        if k in keys {
          var full :| full in store && prefix <= full && full[|prefix|..] == k;
          assert full == prefix + k;
        }
      }
    }
    map k | k in keys :: store[prefix + k]
  }

  class MemDB {
    var store: Store

    constructor ()
      ensures store == map[]
    {
      store := map[];
    }

    method Get(key: Bytes) returns (r: Option<Bytes>)
      ensures r == if key in store then Some(store[key]) else None
    {
      r := if key in store then Some(store[key]) else None;
    }

    method Put(key: Bytes, value: Bytes)
      modifies this
      ensures store == old(store)[key := value]
    {
      store := store[key := value];
    }

    /** Yields whole keys: nothing is stripped. */
    method PrefixIterator(prefix: Bytes) returns (pairs: seq<Pair>)
      ensures Lists(Under(prefix, store), pairs)
    {
      var end := ComputePrefixEndBound(prefix);
      var keys := RangeKeys(store, Included(prefix), end);
      PrefixKeys(store, prefix);
      assert forall j :: 0 <= j < |keys| ==> keys[j] in keys;
      pairs := [];
      var i := 0;
      while i < |keys|
        invariant 0 <= i <= |keys| && |pairs| == i
        invariant forall j :: 0 <= j < |keys| ==> keys[j] in Under(prefix, store)
        invariant forall j :: 0 <= j < i ==> pairs[j] == (keys[j], store[keys[j]])
      {
        pairs := pairs + [(keys[i], store[keys[i]])];
        i := i + 1;
      }
      forall k | k in Under(prefix, store) ensures exists i :: 0 <= i < |pairs| && pairs[i].0 == k {
        assert k in keys;
        var j :| 0 <= j < |keys| && keys[j] == k;
        assert pairs[j].0 == k;
      }
    }
  }

  /** The keys in the range of a prefix are those that start with it. */
  lemma PrefixKeys(store: Store, prefix: Bytes)
    ensures forall k :: k in RangeKeys(store, Included(prefix), PrefixEndBound(prefix)) <==> k in Under(prefix, store)
  {
    forall k ensures k in RangeKeys(store, Included(prefix), PrefixEndBound(prefix)) <==> k in Under(prefix, store) {
      PrefixRangeExact(prefix, k);
    }
  }

  class PrefixDB {
    const db: MemDB
    const prefix: Bytes

    constructor (db: MemDB, prefix: Bytes)
      ensures this.db == db && this.prefix == prefix
    {
      this.db, this.prefix := db, prefix;
    }

    function View(): Store
      reads this, db
    {
      Through(prefix, db.store)
    }

    method Get(key: Bytes) returns (r: Option<Bytes>)
      ensures r == if key in View() then Some(View()[key]) else None
    {
      r := db.Get(prefix + key);
    }

    /** Writes through to the shared database. */
    method Put(key: Bytes, value: Bytes)
      modifies db
      ensures db.store == old(db.store)[prefix + key := value]
      ensures View() == old(View())[key := value]
    {
      db.Put(prefix + key, value);
      SeenByWriter(prefix, old(db.store), key, value);
    }

    /** Yields what follows both prefixes. */
    method PrefixIterator(inner: Bytes) returns (pairs: seq<Pair>)
      ensures Lists(Through(inner, View()), pairs)
    {
      var full := prefix + inner;
      var whole := db.PrefixIterator(full);
      pairs := [];
      var i := 0;
      while i < |whole|
        invariant 0 <= i <= |whole| && |pairs| == i
        invariant forall j :: 0 <= j < i ==> pairs[j] == (whole[j].0[|full|..], whole[j].1)
      {
        pairs := pairs + [(whole[i].0[|full|..], whole[i].1)];
        i := i + 1;
      }
      StrippedLists(full, db.store, whole, pairs);
      ThroughTwice(prefix, inner, db.store);
    }
  }

  lemma SeenByWriter(prefix: Bytes, store: Store, key: Bytes, value: Bytes)
    ensures Through(prefix, store[prefix + key := value]) == Through(prefix, store)[key := value]
  {
    forall k | prefix + k == prefix + key ensures k == key {
      assert k == (prefix + k)[|prefix|..] && key == (prefix + key)[|prefix|..];
    }
  }

  /** Another database over the same store sees the write only if its prefix starts the full key. */
  lemma UnseenByOthers(prefix: Bytes, other: Bytes, store: Store, key: Bytes, value: Bytes)
    requires !(other <= prefix + key)
    ensures Through(other, store[prefix + key := value]) == Through(other, store)
  {
    forall k ensures other + k != prefix + key { assert other <= other + k; }
  }

  /** A write through either prefix is invisible through the other. */
  predicate Apart(p: Bytes, q: Bytes, store: Store, key: Bytes, value: Bytes)
  {
    && Through(q, store[p + key := value]) == Through(q, store)
    && Through(p, store[q + key := value]) == Through(p, store)
  }

  /** Two databases never see each other's writes, whatever is written, if and only if neither prefix
      starts the other. */
  lemma IsolationExactly(p: Bytes, q: Bytes)
    ensures (!(p <= q) && !(q <= p)) <==>
            forall store: Store, key: Bytes, value: Bytes :: Apart(p, q, store, key, value)
  {
    if !(p <= q) && !(q <= p) {
      forall store: Store, key: Bytes, value: Bytes ensures Apart(p, q, store, key, value) {
        UnseenByOthers(p, q, store, key, value);
        UnseenByOthers(q, p, store, key, value);
      }
    } else {
      var (short, long) := if p <= q then (p, q) else (q, p);
      var store: Store := map[];
      assert long + [] == short + long[|short|..];
      assert long[|short|..] in Through(short, store[long + [] := []]);
      assert long[|short|..] !in Through(short, store);
      assert !Apart(p, q, store, [], []);
    }
  }

  lemma ThroughTwice(prefix: Bytes, inner: Bytes, store: Store)
    ensures Through(inner, Through(prefix, store)) == Through(prefix + inner, store)
  {
    var mid := Through(prefix, store);
    var a, b := Through(inner, mid), Through(prefix + inner, store);
    forall k: Bytes
      ensures k in a <==> k in b
      ensures k in a ==> a[k] == b[k]
    {
      ThroughTwiceAt(prefix, inner, store, mid, k);
    }
  }

  lemma ThroughTwiceAt(prefix: Bytes, inner: Bytes, store: Store, mid: Store, k: Bytes)
    requires mid == Through(prefix, store)
    ensures k in Through(inner, mid) <==> k in Through(prefix + inner, store)
    ensures k in Through(inner, mid) ==> Through(inner, mid)[k] == Through(prefix + inner, store)[k]
  {
    hide Through;
    assert prefix + inner + k == prefix + (inner + k);
  }

  lemma StrippedLists(full: Bytes, store: Store, whole: seq<Pair>, pairs: seq<Pair>)
    requires Lists(Under(full, store), whole) && |pairs| == |whole|
    requires forall j :: 0 <= j < |pairs| ==> pairs[j] == (whole[j].0[|full|..], whole[j].1)
    ensures Lists(Through(full, store), pairs)
  {
    forall i | 0 <= i < |pairs|
      ensures whole[i].0 == full + pairs[i].0 && pairs[i].0 in Through(full, store)
      ensures Through(full, store)[pairs[i].0] == pairs[i].1
    {
      assert whole[i].0 in Under(full, store);
    }
    forall k | k in Through(full, store) ensures exists i :: 0 <= i < |pairs| && pairs[i].0 == k {
      assert full <= full + k && full + k in Under(full, store);
      var i :| 0 <= i < |whole| && whole[i].0 == full + k;
      assert pairs[i].0 == k;
    }
    forall i, j | 0 <= i < j < |pairs| ensures Less(pairs[i].0, pairs[j].0) {
      LessAfterPrefix(full, pairs[i].0, pairs[j].0);
    }
  }

  // ---------------------------------------------------------------- reading versions back

  /** The versions decoded from the keys an iterator yields. */
  function DecodedVersions(pairs: seq<Pair>): set<nat>
  {
    set p | p in pairs && DecodeVar(p.0).Some? :: DecodeVar(p.0).value.value
  }

  /** Over a prefixed database the roots prefix is stripped, and the versions are those stored. */
  lemma PrefixedVersions(view: Store, pairs: seq<Pair>)
    requires Lists(Through(ROOTS_PREFIX, view), pairs)
    ensures DecodedVersions(pairs) == GetVersions(view)
  {
    var roots := Through(ROOTS_PREFIX, view);
    forall v | v in DecodedVersions(pairs) ensures v in GetVersions(view) {
      var p :| p in pairs && DecodeVar(p.0).Some? && DecodeVar(p.0).value.value == v;
      var i :| 0 <= i < |pairs| && pairs[i] == p;
      assert p.0 in roots;
      assert (ROOTS_PREFIX + p.0)[1..] == p.0;
      assert VersionOf(ROOTS_PREFIX + p.0) == Some(v);
    }
    forall v | v in GetVersions(view) ensures v in DecodedVersions(pairs) {
      var k :| k in view && VersionOf(k) == Some(v);
      assert k == ROOTS_PREFIX + k[1..];
      assert k[1..] in roots;
      var i :| 0 <= i < |pairs| && pairs[i].0 == k[1..];
      assert pairs[i] in pairs;
    }
  }

  /** Over the bare in-memory database nothing is stripped, and every version reads back as 1. */
  lemma UnstrippedVersions(store: Store, pairs: seq<Pair>)
    requires Lists(Under(ROOTS_PREFIX, store), pairs)
    ensures DecodedVersions(pairs) <= {1}
    ensures (exists v: nat :: RootKey(v) in store) ==> DecodedVersions(pairs) == {1}
  {
    forall p | p in pairs ensures DecodeVar(p.0).Some? && DecodeVar(p.0).value.value == 1 {
      var i :| 0 <= i < |pairs| && pairs[i] == p;
      assert ROOTS_PREFIX <= pairs[i].0;
      assert p.0[0] == 1;
    }
    if v: nat :| RootKey(v) in store {
      assert RootKey(v) in Under(ROOTS_PREFIX, store);
      var i :| 0 <= i < |pairs| && pairs[i].0 == RootKey(v);
      assert pairs[i] in pairs;
    }
  }
}
