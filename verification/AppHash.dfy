/** The application hash: the stores' names and root hashes, sorted, under one Merkle root. */
module AppHash {
  import opened ByteStrings
  import opened Varint
  import opened IavlNode
  import opened IavlHash
  import opened Merkle

  datatype StoreInfo = StoreInfo(name: Bytes, hash: Hash)

  datatype Pair = Pair(key: Bytes, value: Bytes)

  function ToBytes(p: Pair): Bytes
  {
    EncodeVar(|p.key|) + p.key + EncodeVar(|p.value|) + p.value
  }

  function ToPair(H: Hasher, info: StoreInfo): Pair
  {
    Pair(info.name, H(info.hash))
  }

  predicate PairLess(a: Pair, b: Pair)
  {
    Less(a.key, b.key) || (a.key == b.key && Less(a.value, b.value))
  }

  lemma PairOrder()
    ensures forall a, b {:trigger PairLess(a, b)} :: PairLess(a, b) || a == b || PairLess(b, a)
    ensures forall a, b {:trigger PairLess(a, b)} :: PairLess(a, b) ==> !PairLess(b, a)
    ensures forall a, b, c {:trigger PairLess(a, b), PairLess(b, c)} :: PairLess(a, b) && PairLess(b, c) ==> PairLess(a, c)
  {
    LessIsStrictTotalOrder();
  }

  ghost predicate Ordered(ps: seq<Pair>)
  {
    forall i, j :: 0 <= i < j < |ps| ==> !PairLess(ps[j], ps[i])
  }

  function Insert(p: Pair, ps: seq<Pair>): seq<Pair>
  {
    if ps == [] then [p]
    else if PairLess(ps[0], p) then [ps[0]] + Insert(p, ps[1..])
    else [p] + ps
  }

  function SortPairs(ps: seq<Pair>): seq<Pair>
  {
    if ps == [] then [] else Insert(ps[|ps| - 1], SortPairs(ps[..|ps| - 1]))
  }

  lemma {:induction false} InsertOrders(p: Pair, ps: seq<Pair>)
    requires Ordered(ps)
    ensures Ordered(Insert(p, ps)) && multiset(Insert(p, ps)) == multiset(ps) + multiset{p}
  {
    PairOrder();
    if ps != [] {
      assert ps == [ps[0]] + ps[1..];
      if PairLess(ps[0], p) {
        InsertOrders(p, ps[1..]);
        var rest := Insert(p, ps[1..]);
        forall q | q in rest ensures !PairLess(q, ps[0]) {
          assert q in multiset(rest);
          if q != p { assert q in ps[1..]; }
        }
      }
    }
  }

  lemma {:induction false} SortPairsSorts(ps: seq<Pair>)
    ensures Ordered(SortPairs(ps)) && multiset(SortPairs(ps)) == multiset(ps)
  {
    if ps != [] {
      var n := |ps| - 1;
      SortPairsSorts(ps[..n]);
      InsertOrders(ps[n], SortPairs(ps[..n]));
      assert ps == ps[..n] + [ps[n]];
    }
  }

  /** Only one ordering of the same pairs is sorted. */
  lemma {:induction false} OrderedUnique(a: seq<Pair>, b: seq<Pair>)
    requires Ordered(a) && Ordered(b) && multiset(a) == multiset(b)
    ensures a == b
  {
    PairOrder();
    hide PairLess;
    if a == [] {
      assert |b| == |multiset(b)| == 0;
    } else {
      assert a[0] in multiset(a) && a[0] in multiset(b);
      assert |b| > 0 && b[0] in multiset(b) && b[0] in multiset(a);
      assert a[0] == b[0];
      assert a == [a[0]] + a[1..] && b == [b[0]] + b[1..];
      assert multiset(a[1..]) == multiset(a) - multiset{a[0]};
      assert multiset(b[1..]) == multiset(b) - multiset{b[0]};
      OrderedUnique(a[1..], b[1..]);
    }
  }

  function ToPairs(H: Hasher, infos: seq<StoreInfo>): seq<Pair>
  {
    if infos == [] then [] else ToPairs(H, infos[..|infos| - 1]) + [ToPair(H, infos[|infos| - 1])]
  }

  function AllBytes(ps: seq<Pair>): seq<Bytes>
  {
    if ps == [] then [] else AllBytes(ps[..|ps| - 1]) + [ToBytes(ps[|ps| - 1])]
  }

  function HashOfInfos(H: Hasher, infos: seq<StoreInfo>): Hash
  {
    MerkleRoot(H, AllBytes(SortPairs(ToPairs(H, infos))))
  }

  /** The program's three passes: convert, sort in place, serialise. An empty list panics. */
  method HashStoreInfos(H: Hasher, infos: seq<StoreInfo>) returns (r: Option<Hash>)
    ensures r == if infos == [] then None else Some(HashOfInfos(H, infos))
  {
    if |infos| == 0 {
      return None;
    }
    var pairs := [];
    for i := 0 to |infos|
      invariant pairs == ToPairs(H, infos[..i])
    {
      assert infos[..i + 1][..i] == infos[..i];
      pairs := pairs + [ToPair(H, infos[i])];
    }
    assert infos[..|infos|] == infos;
    var sorted := [];
    for i := 0 to |pairs|
      invariant sorted == SortPairs(pairs[..i])
    {
      assert pairs[..i + 1][..i] == pairs[..i];
      sorted := Insert(pairs[i], sorted);
    }
    assert pairs[..|pairs|] == pairs;
    var bytes := [];
    for i := 0 to |sorted|
      invariant bytes == AllBytes(sorted[..i])
    {
      assert sorted[..i + 1][..i] == sorted[..i];
      bytes := bytes + [ToBytes(sorted[i])];
    }
    assert sorted[..|sorted|] == sorted;
    r := Some(MerkleRoot(H, bytes));
  }

  // ---------------------------------------------------------------- order does not matter

  lemma {:induction false} ToPairsAt(H: Hasher, infos: seq<StoreInfo>)
    ensures |ToPairs(H, infos)| == |infos|
    ensures forall i :: 0 <= i < |infos| ==> ToPairs(H, infos)[i] == ToPair(H, infos[i])
  {
    if infos != [] { ToPairsAt(H, infos[..|infos| - 1]); }
  }

  lemma {:induction false} ToPairsAdds(H: Hasher, a: seq<StoreInfo>, b: seq<StoreInfo>)
    ensures ToPairs(H, a + b) == ToPairs(H, a) + ToPairs(H, b)
  {
    if b == [] {
      assert a + b == a;
    } else {
      var n := |b| - 1;
      assert (a + b)[..|a + b| - 1] == a + b[..n];
      ToPairsAdds(H, a, b[..n]);
    }
  }

  lemma MultisetWithout<T>(x: seq<T>, e: T, y: seq<T>)
    ensures multiset(x + [e] + y) == multiset(x + y) + multiset{e}
  {
  }

  /** Taking one store out takes out its pair. */
  lemma WithoutOne(H: Hasher, b: seq<StoreInfo>, j: nat)
    requires j < |b|
    ensures multiset(b) == multiset(b[..j] + b[j + 1..]) + multiset{b[j]}
    ensures multiset(ToPairs(H, b)) == multiset(ToPairs(H, b[..j] + b[j + 1..])) + multiset{ToPair(H, b[j])}
  {
    hide ToPair, ToPairs;
    var x, y := b[..j], b[j + 1..];
    assert b == x + [b[j]] + y;
    MultisetWithout(x, b[j], y);
    ToPairsSplit(H, x, b[j], y);
    MultisetWithout(ToPairs(H, x), ToPair(H, b[j]), ToPairs(H, y));
  }

  lemma ToPairsSplit(H: Hasher, x: seq<StoreInfo>, e: StoreInfo, y: seq<StoreInfo>)
    ensures ToPairs(H, x + [e] + y) == ToPairs(H, x) + [ToPair(H, e)] + ToPairs(H, y)
    ensures ToPairs(H, x + y) == ToPairs(H, x) + ToPairs(H, y)
  {
    ToPairsAdds(H, x, y);
    ToPairsAdds(H, x + [e], y);
    assert (x + [e])[..|x|] == x;
  }

  lemma Cancel<T>(x: multiset<T>, y: multiset<T>, e: T)
    requires x + multiset{e} == y + multiset{e}
    ensures x == y
  {
    assert (x + multiset{e}) - multiset{e} == x && (y + multiset{e}) - multiset{e} == y;
  }

  lemma Shared<T>(a: seq<T>, b: seq<T>, i: nat) returns (j: nat)
    requires multiset(a) == multiset(b) && i < |a|
    ensures j < |b| && b[j] == a[i]
  {
    assert a[i] in multiset(b);
    j :| 0 <= j < |b| && b[j] == a[i];
  }

  lemma {:induction false} PermutedPairs(H: Hasher, a: seq<StoreInfo>, b: seq<StoreInfo>)
    requires multiset(a) == multiset(b)
    ensures multiset(ToPairs(H, a)) == multiset(ToPairs(H, b))
    decreases |a|
  {
    if a == [] {
      assert |b| == |multiset(b)| == 0;
    } else {
      var n := |a| - 1;
      var j := Shared(a, b, n);
      var x, y := a[..n] + a[n + 1..], b[..j] + b[j + 1..];
      WithoutOne(H, a, n);
      WithoutOne(H, b, j);
      Cancel(multiset(x), multiset(y), a[n]);
      PermutedPairs(H, x, y);
    }
  }

  /** The application hash is the same for every order in which the stores are listed. */
  lemma OrderDoesNotMatter(H: Hasher, a: seq<StoreInfo>, b: seq<StoreInfo>)
    requires multiset(a) == multiset(b)
    ensures HashOfInfos(H, a) == HashOfInfos(H, b)
  {
    PermutedPairs(H, a, b);
    SortPairsSorts(ToPairs(H, a));
    SortPairsSorts(ToPairs(H, b));
    OrderedUnique(SortPairs(ToPairs(H, a)), SortPairs(ToPairs(H, b)));
  }

  // ---------------------------------------------------------------- which order it is

  function Keys(ps: seq<Pair>): (ks: seq<Bytes>)
    ensures |ks| == |ps| && forall i :: 0 <= i < |ps| ==> ks[i] == ps[i].key
  {
    seq(|ps|, i requires 0 <= i < |ps| => ps[i].key)
  }

  /** Pairs whose keys ascend are left as they are. */
  lemma {:induction false} AscendingStays(ps: seq<Pair>)
    requires StrictlyAscending(Keys(ps))
    ensures SortPairs(ps) == ps
  {
    forall i, j | 0 <= i < j < |ps| ensures !PairLess(ps[j], ps[i]) {
      assert Less(Keys(ps)[i], Keys(ps)[j]);
      LessAsymmetric(ps[i].key, ps[j].key);
      LessIrreflexive(ps[i].key);
    }
    SortPairsSorts(ps);
    OrderedUnique(SortPairs(ps), ps);
  }

  /** Stores listed by ascending names, in the byte order, are hashed in that very order. */
  lemma {:induction false} AscendingNamesInOrder(H: Hasher, infos: seq<StoreInfo>)
    requires forall i, j :: 0 <= i < j < |infos| ==> Less(infos[i].name, infos[j].name)
    ensures HashOfInfos(H, infos) == MerkleRoot(H, AllBytes(ToPairs(H, infos)))
  {
    ToPairsAt(H, infos);
    AscendingStays(ToPairs(H, infos));
  }

  /** Stores of distinct names, listed in any order, are hashed by ascending names, in the byte order. */
  lemma {:induction false} SortedByName(H: Hasher, infos: seq<StoreInfo>)
    requires forall i, j :: 0 <= i < j < |infos| ==> infos[i].name != infos[j].name
    ensures StrictlyAscending(Keys(SortPairs(ToPairs(H, infos))))
    ensures multiset(SortPairs(ToPairs(H, infos))) == multiset(ToPairs(H, infos))
  {
    var pairs := ToPairs(H, infos);
    var sorted := SortPairs(pairs);
    ToPairsAt(H, infos);
    SortPairsSorts(pairs);
    forall i, j | 0 <= i < j < |sorted| ensures Less(sorted[i].key, sorted[j].key) {
      assert !PairLess(sorted[j], sorted[i]);
      LessTotal(sorted[i].key, sorted[j].key);
      if sorted[i].key == sorted[j].key { OnePairPerKey(pairs, sorted, i, j); }
    }
  }

  lemma {:induction false} OnePairPerKey(pairs: seq<Pair>, sorted: seq<Pair>, i: nat, j: nat)
    requires forall m, n :: 0 <= m < n < |pairs| ==> pairs[m].key != pairs[n].key
    requires multiset(sorted) == multiset(pairs) && i < j < |sorted|
    ensures sorted[i].key != sorted[j].key
  {
    if sorted[i].key == sorted[j].key {
      assert sorted[i] in multiset(pairs) && sorted[j] in multiset(pairs);
      assert sorted[i] == sorted[j];
      assert sorted == sorted[..i] + [sorted[i]] + sorted[i + 1..];
      assert sorted[j] in sorted[i + 1..];
      assert multiset(sorted)[sorted[i]] >= 2;
      AtMostOnce(pairs, sorted[i]);
    }
  }

  lemma {:induction false} AtMostOnce(pairs: seq<Pair>, p: Pair)
    requires forall m, n :: 0 <= m < n < |pairs| ==> pairs[m].key != pairs[n].key
    ensures multiset(pairs)[p] <= 1
  {
    if pairs != [] {
      var n := |pairs| - 1;
      assert pairs == pairs[..n] + [pairs[n]];
      AtMostOnce(pairs[..n], p);
      if p == pairs[n] { assert p !in pairs[..n]; }
    }
  }

  // ---------------------------------------------------------------- what equal hashes tell

  lemma ToBytesInjective(a: Pair, b: Pair)
    requires ToBytes(a) == ToBytes(b)
    ensures a == b
  {
    assert ToBytes(a) == EncodeBytes(a.key) + (EncodeBytes(a.value) + []);
    assert ToBytes(b) == EncodeBytes(b.key) + (EncodeBytes(b.value) + []);
    BytesSplit(a.key, EncodeBytes(a.value) + [], b.key, EncodeBytes(b.value) + []);
    BytesSplit(a.value, [], b.value, []);
  }

  lemma {:induction false} AllBytesInjective(a: seq<Pair>, b: seq<Pair>)
    requires AllBytes(a) == AllBytes(b)
    ensures a == b
  {
    AllBytesLength(a);
    AllBytesLength(b);
    if a != [] {
      var n := |a| - 1;
      assert AllBytes(a)[..n] == AllBytes(a[..n]) && AllBytes(b)[..n] == AllBytes(b[..n]) by {
        AllBytesLength(a[..n]);
        AllBytesLength(b[..n]);
      }
      AllBytesInjective(a[..n], b[..n]);
      assert ToBytes(a[n]) == AllBytes(a)[n] == AllBytes(b)[n] == ToBytes(b[n]) by {
        AllBytesLength(a[..n]);
        AllBytesLength(b[..n]);
      }
      ToBytesInjective(a[n], b[n]);
      assert a == a[..n] + [a[n]] && b == b[..n] + [b[n]];
    }
  }

  lemma {:induction false} AllBytesLength(ps: seq<Pair>)
    ensures |AllBytes(ps)| == |ps|
  {
    if ps != [] { AllBytesLength(ps[..|ps| - 1]); }
  }

  lemma {:induction false} AllBytesAt(ps: seq<Pair>)
    ensures |AllBytes(ps)| == |ps|
    ensures forall i :: 0 <= i < |ps| ==> AllBytes(ps)[i] == ToBytes(ps[i])
  {
    if ps != [] { AllBytesAt(ps[..|ps| - 1]); }
  }

  /** Everything hashed for an application hash. */
  function AppPreimages(H: Hasher, infos: seq<StoreInfo>): set<Bytes>
  {
    MerklePreimages(H, AllBytes(SortPairs(ToPairs(H, infos)))) + set info | info in infos :: info.hash
  }

  lemma PairHasSource(H: Hasher, infos: seq<StoreInfo>, p: Pair) returns (info: StoreInfo)
    requires p in ToPairs(H, infos)
    ensures info in infos && ToPair(H, info) == p
  {
    ToPairsAt(H, infos);
    var i :| 0 <= i < |infos| && ToPairs(H, infos)[i] == p;
    info := infos[i];
  }

  /** Every store listed in `a` is listed in `b`, name and root hash alike, or there is a collision. */
  lemma SamePairsSameStores(H: Hasher, a: seq<StoreInfo>, b: seq<StoreInfo>, info: StoreInfo)
    requires multiset(ToPairs(H, a)) == multiset(ToPairs(H, b)) && info in a
    ensures info in b || Collide(H, AppPreimages(H, a), AppPreimages(H, b))
  {
    ToPairsAt(H, a);
    var i :| 0 <= i < |a| && a[i] == info;
    assert ToPairs(H, a)[i] in multiset(ToPairs(H, a));
    assert ToPair(H, info) in ToPairs(H, b);
    var other := PairHasSource(H, b, ToPair(H, info));
    if other != info {
      assert info.hash in AppPreimages(H, a) && other.hash in AppPreimages(H, b);
      assert Collision(H, info.hash, other.hash);
    }
  }

  /** Equal application hashes mean the same stores with the same root hashes, or a collision. */
  lemma AppHashBinding(H: Hasher, a: seq<StoreInfo>, b: seq<StoreInfo>)
    requires HashOfInfos(H, a) == HashOfInfos(H, b)
    ensures (forall info :: info in a <==> info in b)
            || Collide(H, AppPreimages(H, a), AppPreimages(H, b)) || Collide(H, AppPreimages(H, b), AppPreimages(H, a))
  {
    var x, y := SortPairs(ToPairs(H, a)), SortPairs(ToPairs(H, b));
    MerkleBinding(H, AllBytes(x), AllBytes(y));
    if AllBytes(x) == AllBytes(y) {
      AllBytesInjective(x, y);
      SortPairsSorts(ToPairs(H, a));
      SortPairsSorts(ToPairs(H, b));
      forall info ensures (info in a ==> info in b || Collide(H, AppPreimages(H, a), AppPreimages(H, b)))
                          && (info in b ==> info in a || Collide(H, AppPreimages(H, b), AppPreimages(H, a)))
      {
        if info in a { SamePairsSameStores(H, a, b, info); }
        if info in b { SamePairsSameStores(H, b, a, info); }
      }
    } else {
      CollideWider(H, MerklePreimages(H, AllBytes(x)), MerklePreimages(H, AllBytes(y)), AppPreimages(H, a), AppPreimages(H, b));
    }
  }
}
