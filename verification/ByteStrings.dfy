/** Byte strings, their lexicographic order (the order of `Vec<u8>` and of `BTreeMap` keys),
    and the bounds of a range query. */
module ByteStrings {

  type Byte = b: int | 0 <= b < 256
  type Bytes = seq<Byte>

  datatype Option<+T> = None | Some(value: T)

  datatype Bound = Included(at: Bytes) | Excluded(at: Bytes) | Unbounded

  predicate Less(a: Bytes, b: Bytes)
  {
    if b == [] then false
    else if a == [] then true
    else a[0] < b[0] || (a[0] == b[0] && Less(a[1..], b[1..]))
  }

  lemma {:induction false} LessIrreflexive(a: Bytes)
    ensures !Less(a, a)
  {
    if a != [] {
      LessIrreflexive(a[1..]);
    }
  }

  lemma {:induction false} LessTransitive(a: Bytes, b: Bytes, c: Bytes)
    requires Less(a, b) && Less(b, c)
    ensures Less(a, c)
  {
    if a != [] && a[0] == b[0] == c[0] {
      LessTransitive(a[1..], b[1..], c[1..]);
    }
  }

  lemma {:induction false} LessAsymmetric(a: Bytes, b: Bytes)
    requires Less(a, b)
    ensures !Less(b, a)
  {
    if a != [] && a[0] == b[0] {
      LessAsymmetric(a[1..], b[1..]);
    }
  }

  lemma {:induction false} LessTotal(a: Bytes, b: Bytes)
    ensures Less(a, b) || a == b || Less(b, a)
  {
    if a != [] && b != [] && a[0] == b[0] {
      LessTotal(a[1..], b[1..]);
      assert a == [a[0]] + a[1..] && b == [b[0]] + b[1..];
    }
  }

  /** The order laws as one fact, for proofs that use many instances. */
  lemma LessIsStrictTotalOrder()
    ensures forall a: Bytes {:trigger Less(a, a)} :: !Less(a, a)
    ensures forall a: Bytes, b: Bytes {:trigger Less(a, b)} :: Less(a, b) ==> !Less(b, a)
    ensures forall a: Bytes, b: Bytes {:trigger Less(a, b)} :: Less(a, b) || a == b || Less(b, a)
    ensures forall a: Bytes, b: Bytes, c: Bytes {:trigger Less(a, b), Less(b, c)} ::
              Less(a, b) && Less(b, c) ==> Less(a, c)
  {
    forall a: Bytes ensures !Less(a, a) { LessIrreflexive(a); }
    forall a: Bytes, b: Bytes | Less(a, b) ensures !Less(b, a) { LessAsymmetric(a, b); }
    forall a: Bytes, b: Bytes ensures Less(a, b) || a == b || Less(b, a) { LessTotal(a, b); }
    forall a: Bytes, b: Bytes, c: Bytes | Less(a, b) && Less(b, c) ensures Less(a, c) {
      LessTransitive(a, b, c);
    }
  }

  /** Alike up to `n`, where the first ends, or both go on and its byte is the smaller. */
  predicate SmallerAt(a: Bytes, b: Bytes, n: nat)
  {
    n <= |a| && n < |b| && a[..n] == b[..n] && (n == |a| || a[n] < b[n])
  }

  lemma SameHead(a: Bytes, b: Bytes, n: nat)
    requires n <= |a| && n <= |b| && a[..n] == b[..n]
    ensures n > 0 ==> a[0] == b[0]
  {
    if n > 0 { assert a[..n][0] == b[..n][0]; }
  }

  /** The first place where two byte strings differ orders them, and a proper prefix comes first. */
  lemma {:induction false} LessIsLexicographic(a: Bytes, b: Bytes)
    ensures Less(a, b) <==> exists n: nat :: SmallerAt(a, b, n)
  {
    if b == [] {
    } else if a == [] {
      assert SmallerAt(a, b, 0);
    } else if a[0] != b[0] {
      forall n: nat | SmallerAt(a, b, n) ensures n == 0 { SameHead(a, b, n); }
      if a[0] < b[0] { assert SmallerAt(a, b, 0); }
    } else {
      LessIsLexicographic(a[1..], b[1..]);
      if n: nat :| SmallerAt(a[1..], b[1..], n) {
        assert a[..n + 1] == [a[0]] + a[1..][..n] && b[..n + 1] == [b[0]] + b[1..][..n];
        assert SmallerAt(a, b, n + 1);
      }
      if n: nat :| SmallerAt(a, b, n) {
        assert n > 0;
        assert a[1..][..n - 1] == a[..n][1..] && b[1..][..n - 1] == b[..n][1..];
        assert SmallerAt(a[1..], b[1..], n - 1);
      }
    }
  }

  predicate AtMost(a: Bytes, b: Bytes)
  {
    !Less(b, a)
  }

  predicate AfterStart(k: Bytes, start: Bound)
  {
    match start
    case Included(l) => AtMost(l, k)
    case Excluded(l) => Less(l, k)
    case Unbounded => true
  }

  predicate BeforeEnd(k: Bytes, end: Bound)
  {
    match end
    case Included(u) => AtMost(k, u)
    case Excluded(u) => Less(k, u)
    case Unbounded => true
  }

  /** `RangeBounds::contains`. */
  predicate InRange(k: Bytes, start: Bound, end: Bound)
  {
    AfterStart(k, start) && BeforeEnd(k, end)
  }

  /** An included bound itself is in range, an excluded one is not, and an open end takes all. */
  lemma BoundsMean(k: Bytes, at: Bytes)
    ensures AfterStart(k, Included(at)) <==> k == at || Less(at, k)
    ensures BeforeEnd(k, Included(at)) <==> k == at || Less(k, at)
    ensures !AfterStart(at, Excluded(at)) && !BeforeEnd(at, Excluded(at))
    ensures k != at ==> (AfterStart(k, Excluded(at)) <==> Less(at, k)) && (BeforeEnd(k, Excluded(at)) <==> Less(k, at))
    ensures InRange(k, Unbounded, Unbounded)
  {
    LessTotal(k, at);
    LessIrreflexive(at);
    LessIsStrictTotalOrder();
  }

  predicate StrictlyAscending(keys: seq<Bytes>)
  {
    forall i, j :: 0 <= i < j < |keys| ==> Less(keys[i], keys[j])
  }
}
