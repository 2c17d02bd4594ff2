/** A store seen through a key prefix. */
module PrefixStores {
  import opened ByteStrings
  import opened IavlSpec
  import opened IavlRuns
  import opened IavlRange
  import opened Prefixes
  import opened Database
  import opened CacheLayers
  import opened KvStore

  /** The entries of a map within the bounds. */
  function InBounds(m: Store, start: Bound, end: Bound): Store
  {
    map k | k in m && InRange(k, start, end) :: m[k]
  }

  class PrefixStore {
    const store: KVStore
    const prefix: Bytes

    constructor (store: KVStore, prefix: Bytes)
      ensures this.store == store && this.prefix == prefix
    {
      this.store, this.prefix := store, prefix;
    }

    method Get(key: Bytes) returns (r: Option<Bytes>)
      requires store.Readable()
      ensures var seen := Through(prefix, store.Value().View()); r == if key in seen then Some(seen[key]) else None
    {
      ReadsOneMap(store.Value(), prefix + key);
      r := store.Get(prefix + key);
    }

    /** Only the empty key under the empty prefix is refused. A write is seen under its own key here, and
        nowhere through a prefix that does not start the full key. */
    method Set(key: Bytes, value: Bytes) returns (ok: bool)
      modifies store`txCache
      ensures ok <==> prefix != [] || key != []
      ensures store.Value() == if ok then old(store.Value()).Put(prefix + key, value) else old(store.Value())
      ensures ok ==> Through(prefix, store.Value().View()) == Through(prefix, old(store.Value().View()))[key := value]
      ensures forall other: Bytes :: !(other <= prefix + key) ==>
                Through(other, store.Value().View()) == Through(other, old(store.Value().View()))
    {
      ghost var before := store.Value();
      ok := store.Set(prefix + key, value);
      if ok {
        PutInView(before, prefix + key, value);
        SeenByWriter(prefix, before.View(), key, value);
        forall other: Bytes | !(other <= prefix + key)
          ensures Through(other, store.Value().View()) == Through(other, before.View())
        {
          UnseenByOthers(prefix, other, before.View(), key, value);
        }
      }
    }

    /** Exactly the committed entries under the prefix whose remaining key is within the bounds, the prefix
        cut off, ascending. */
    method Range(start: Bound, end: Bound) returns (pairs: seq<Entry>)
      requires store.Readable()
      ensures Lists(InBounds(Through(prefix, ContentsOf(store.tree.tree)), start, end), pairs)
    {
      var whole := store.Range(InnerStart(prefix, start), InnerEnd(prefix, end));
      pairs := [];
      for i := 0 to |whole|
        invariant |pairs| == i
        invariant forall j :: 0 <= j < i ==> |prefix| <= |whole[j].0| && pairs[j] == (whole[j].0[|prefix|..], whole[j].1)
      {
        StartsWithPrefix(prefix, start, end, store.tree.tree, whole, i);
        pairs := pairs + [(whole[i].0[|prefix|..], whole[i].1)];
      }
      StrippedRange(prefix, start, end, store.tree.tree, whole, pairs);
    }
  }

  ghost predicate IsRange(root: Option<Avl>, start: Bound, end: Bound, whole: seq<Entry>)
  {
    whole == Within(if root.Some? then Entries(root.value) else [], start, end)
  }

  /** A key the inner range yields starts with the prefix, and the rest of it is within the bounds. */
  lemma StartsWithPrefix(p: Bytes, start: Bound, end: Bound, root: Option<Avl>, whole: seq<Entry>, i: nat)
    requires SearchTreeOf(root) && IsRange(root, InnerStart(p, start), InnerEnd(p, end), whole) && i < |whole|
    ensures p <= whole[i].0 && whole[i].0 in ContentsOf(root) && ContentsOf(root)[whole[i].0] == whole[i].1
    ensures InRange(whole[i].0[|p|..], start, end)
  {
    RangeYieldsExactly(root.value, InnerStart(p, start), InnerEnd(p, end));
    var (k, v) := whole[i];
    assert (k, v) in whole;
    PrefixStoreRangeExact(p, start, end, k);
  }

  lemma StrippedRange(p: Bytes, start: Bound, end: Bound, root: Option<Avl>, whole: seq<Entry>, pairs: seq<Entry>)
    requires SearchTreeOf(root) && IsRange(root, InnerStart(p, start), InnerEnd(p, end), whole)
    requires |pairs| == |whole|
    requires forall j :: 0 <= j < |pairs| ==> |p| <= |whole[j].0| && pairs[j] == (whole[j].0[|p|..], whole[j].1)
    ensures Lists(InBounds(Through(p, ContentsOf(root)), start, end), pairs)
  {
    var seen := InBounds(Through(p, ContentsOf(root)), start, end);
    forall i | 0 <= i < |pairs| ensures whole[i].0 == p + pairs[i].0 && pairs[i].0 in seen && seen[pairs[i].0] == pairs[i].1 {
      StartsWithPrefix(p, start, end, root, whole, i);
    }
    forall k | k in seen ensures exists i :: 0 <= i < |pairs| && pairs[i].0 == k {
      Yielded(p, start, end, root, whole, pairs, k);
    }
    forall i, j | 0 <= i < j < |pairs| ensures Less(pairs[i].0, pairs[j].0) {
      RangeYieldsExactly(root.value, InnerStart(p, start), InnerEnd(p, end));
      LessAfterPrefix(p, pairs[i].0, pairs[j].0);
    }
  }

  lemma Yielded(p: Bytes, start: Bound, end: Bound, root: Option<Avl>, whole: seq<Entry>, pairs: seq<Entry>, k: Bytes)
    requires SearchTreeOf(root) && IsRange(root, InnerStart(p, start), InnerEnd(p, end), whole)
    requires |pairs| == |whole|
    requires forall j :: 0 <= j < |pairs| ==> |p| <= |whole[j].0| && pairs[j] == (whole[j].0[|p|..], whole[j].1)
    requires k in Through(p, ContentsOf(root)) && InRange(k, start, end)
    ensures exists i :: 0 <= i < |pairs| && pairs[i].0 == k
  {
    var full := p + k;
    PrefixStoreRangeExact(p, start, end, full);
    assert full[|p|..] == k;
    RangeYieldsExactly(root.value, InnerStart(p, start), InnerEnd(p, end));
    assert (full, ContentsOf(root)[full]) in whole;
    var i :| 0 <= i < |whole| && whole[i] == (full, ContentsOf(root)[full]);
    assert pairs[i].0 == k;
  }
}
