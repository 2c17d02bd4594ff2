/** What a store reads as: the committed map, under a block cache, under a transaction cache. */
module CacheLayers {
  import opened ByteStrings

  datatype Layers<V> = Layers(base: map<Bytes, V>, block: map<Bytes, V>, tx: map<Bytes, V>)
  {
    /** The transaction cache first, then the block cache, then what is committed. */
    function Get(key: Bytes): Option<V>
    {
      if key in tx then Some(tx[key])
      else if key in block then Some(block[key])
      else if key in base then Some(base[key])
      else None
    }

    /** The one map the three layers stand for. */
    function View(): map<Bytes, V>
    {
      base + block + tx
    }

    function Put(key: Bytes, value: V): Layers<V>
    {
      this.(tx := tx[key := value])
    }

    /** The transaction's writes join the block's. */
    function Promote(): Layers<V>
    {
      Layers(base, block + tx, map[])
    }

    /** The transaction's writes are dropped. */
    function Discard(): Layers<V>
    {
      this.(tx := map[])
    }

    /** Everything pending is committed. */
    function Flush(): Layers<V>
    {
      Layers(base + (block + tx), map[], map[])
    }
  }

  type Writes<V> = seq<(Bytes, V)>

  function PutAll<V>(l: Layers<V>, ws: Writes<V>): Layers<V>
    decreases |ws|
  {
    if ws == [] then l else PutAll(l.Put(ws[0].0, ws[0].1), ws[1..])
  }

  /** The last write to every key. */
  function Overlay<V>(ws: Writes<V>): map<Bytes, V>
  {
    if ws == [] then map[] else map[ws[0].0 := ws[0].1] + Overlay(ws[1..])
  }

  /** A read sees exactly the one map, and neither promoting nor committing changes what is read. */
  lemma ReadsOneMap<V>(l: Layers<V>, key: Bytes)
    ensures l.Get(key) == if key in l.View() then Some(l.View()[key]) else None
    ensures l.Promote().Get(key) == l.Get(key) && l.Flush().Get(key) == l.Get(key)
    ensures l.Promote().View() == l.View() && l.Flush().View() == l.View() == l.Flush().base
  {
  }

  lemma PutInView<V>(l: Layers<V>, key: Bytes, value: V)
    ensures l.Put(key, value).View() == l.View()[key := value]
  {
  }

  /** Only the last write to a key matters, not the order of writes to different keys. */
  lemma {:induction false} LastWritesDecide<V>(l: Layers<V>, ws: Writes<V>)
    ensures PutAll(l, ws) == l.(tx := l.tx + Overlay(ws))
    decreases |ws|
  {
    if ws == [] {
      assert l.tx + Overlay(ws) == l.tx;
    } else {
      var l' := l.Put(ws[0].0, ws[0].1);
      LastWritesDecide(l', ws[1..]);
      assert l'.tx + Overlay(ws[1..]) == l.tx + Overlay(ws);
    }
  }

  /** A nested transaction: its writes are seen at once, dropping them restores what was read before,
      and promoting them keeps them through the next drop. */
  lemma NestedTransaction<V>(l: Layers<V>, ws: Writes<V>)
    requires l.tx == map[]
    ensures PutAll(l, ws).View() == l.View() + Overlay(ws)
    ensures PutAll(l, ws).Discard() == l
    ensures PutAll(l, ws).Promote().Discard().View() == l.View() + Overlay(ws)
    ensures PutAll(l, ws).Promote().base == l.base
  {
    LastWritesDecide(l, ws);
    assert l.tx + Overlay(ws) == Overlay(ws);
    assert (l.base + l.block) + Overlay(ws) == l.base + (l.block + Overlay(ws));
    assert l.View() == l.base + l.block;
  }

  /** Two blocks that write the same values last commit the same map. */
  lemma SameLastWritesSameCommit<V>(l: Layers<V>, a: Writes<V>, b: Writes<V>)
    requires Overlay(a) == Overlay(b)
    ensures PutAll(l, a).Flush() == PutAll(l, b).Flush()
  {
    LastWritesDecide(l, a);
    LastWritesDecide(l, b);
  }
}
