/** Keys of a map in the order a `BTreeMap` iterates them. */
module SortedKeys {
  import opened ByteStrings

  predicate IsLeast(m: Bytes, s: set<Bytes>)
  {
    m in s && forall x :: x in s ==> AtMost(m, x)
  }

  lemma LeastExists(s: set<Bytes>)
    requires s != {}
    ensures exists m :: IsLeast(m, s)
  {
    var m :| m in s;
    LessIrreflexive(m);
    if s == {m} {
      assert IsLeast(m, s);
    } else {
      LeastExists(s - {m});
      var n :| IsLeast(n, s - {m});
      LessIsStrictTotalOrder();
      var least := if Less(n, m) then n else m;
      forall x | x in s ensures AtMost(least, x) {
        if x != m { assert x in s - {m} && AtMost(n, x); }
      }
      assert IsLeast(least, s);
    }
  }

  lemma LeastUnique(a: Bytes, b: Bytes, s: set<Bytes>)
    requires IsLeast(a, s) && IsLeast(b, s)
    ensures a == b
  {
    LessTotal(a, b);
  }

  function Least(s: set<Bytes>): (m: Bytes)
    requires s != {}
    ensures IsLeast(m, s)
  {
    LeastExists(s);
    assert forall a, b :: IsLeast(a, s) && IsLeast(b, s) ==> a == b by {
      forall a, b | IsLeast(a, s) && IsLeast(b, s) ensures a == b { LeastUnique(a, b, s); }
    }
    var m :| IsLeast(m, s);
    m
  }

  /** The elements of a set, ascending. */
  function Sorted(s: set<Bytes>): (ks: seq<Bytes>)
    ensures forall k :: k in ks <==> k in s
    ensures StrictlyAscending(ks)
  {
    if s == {} then []
    else
      var m := Least(s);
      var rest := Sorted(s - {m});
      assert forall k :: k in rest ==> Less(m, k) by { LessIsStrictTotalOrder(); }
      [m] + rest
  }

  lemma {:induction false} SortedLength(s: set<Bytes>)
    ensures |Sorted(s)| == |s|
  {
    if s != {} { SortedLength(s - {Least(s)}); }
  }

  /** There is only one ascending sequence of the same keys. */
  lemma {:induction false} AscendingUnique(a: seq<Bytes>, b: seq<Bytes>)
    requires StrictlyAscending(a) && StrictlyAscending(b)
    requires forall k :: k in a <==> k in b
    ensures a == b
  {
    LessIsStrictTotalOrder();
    assert a != [] ==> a[0] in a;
    assert b != [] ==> b[0] in b;
    if a != [] && b != [] {
      assert a[0] == b[0];
      forall k ensures k in a[1..] <==> k in b[1..] {
        assert k in a <==> k == a[0] || k in a[1..];
        assert k in b <==> k == b[0] || k in b[1..];
      }
      AscendingUnique(a[1..], b[1..]);
    }
  }
}
