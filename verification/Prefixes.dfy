/** Prefix queries as ranges of keys, and the prefixed databases and stores built on them. */
module Prefixes {
  import opened ByteStrings

  function DropLast(p: Bytes): Bytes
    requires p != []
  {
    p[..|p| - 1]
  }

  /** The least bound above every key that starts with `p`: the last byte below 255 raised by one and
      what follows dropped; none if every byte is 255. */
  function PrefixEndBound(p: Bytes): Bound
  {
    if p == [] then Unbounded
    else if p[|p| - 1] != 255 then Excluded(DropLast(p) + [p[|p| - 1] + 1])
    else PrefixEndBound(DropLast(p))
  }

  /** The loop both copies of the function run. */
  method ComputePrefixEndBound(p: Bytes) returns (bound: Bound)
    ensures bound == PrefixEndBound(p)
  {
    var prefix := p;
    while prefix != []
      invariant PrefixEndBound(prefix) == PrefixEndBound(p)
      decreases |prefix|
    {
      var last := prefix[|prefix| - 1];
      if last != 255 {
        return Excluded(prefix[|prefix| - 1 := last + 1]);
      }
      prefix := DropLast(prefix);
    }
    bound := Unbounded;
  }

  lemma {:induction false} LessAfterPrefix(p: Bytes, a: Bytes, b: Bytes)
    ensures Less(p + a, p + b) <==> Less(a, b)
  {
    if p == [] {
      assert p + a == a && p + b == b;
    } else {
      assert (p + a)[1..] == p[1..] + a && (p + b)[1..] == p[1..] + b;
      LessAfterPrefix(p[1..], a, b);
    }
  }

  /** A key that is neither below `p` nor above some extension of it starts with `p`. */
  lemma {:induction false} BetweenStartsWith(p: Bytes, b: Bytes, k: Bytes)
    requires AtMost(p, k) && AtMost(k, p + b)
    ensures p <= k
  {
    if p != [] {
      assert (p + b)[0] == p[0] && (p + b)[1..] == p[1..] + b;
      BetweenStartsWith(p[1..], b, k[1..]);
      assert p == [p[0]] + p[1..] && k == [k[0]] + k[1..];
    }
  }

  lemma PrefixAtMost(p: Bytes, r: Bytes)
    ensures AtMost(p, p + r)
  {
    LessAfterPrefix(p, r, []);
    assert p + [] == p;
  }

  lemma AtMostTransitive(a: Bytes, b: Bytes, c: Bytes)
    requires AtMost(a, b) && AtMost(b, c)
    ensures AtMost(a, c)
  {
    LessIsStrictTotalOrder();
  }

  /** The last byte raised: exactly the keys that start with `q + [c]` lie from it to `q + [c + 1]`. */
  lemma RaisedByte(q: Bytes, c: Byte, k: Bytes)
    requires c < 255
    ensures AtMost(q + [c], k) && Less(k, q + [c + 1]) <==> q + [c] <= k
  {
    PrefixAtMost(q, [c]);
    if AtMost(q + [c], k) && Less(k, q + [c + 1]) {
      LessAsymmetric(k, q + [c + 1]);
      AtMostTransitive(q, q + [c], k);
      BetweenStartsWith(q, [c + 1], k);
    }
    if q <= k {
      var r := k[|q|..];
      assert k == q + r;
      LessAfterPrefix(q, r, [c]);
      LessAfterPrefix(q, r, [c + 1]);
      assert q + [c] <= k <==> r != [] && r[0] == c;
    }
  }

  /** A key lies from `p` to the end bound of `p` exactly when it starts with `p`. */
  lemma {:induction false} PrefixRangeExact(p: Bytes, k: Bytes)
    ensures InRange(k, Included(p), PrefixEndBound(p)) <==> p <= k
  {
    if p == [] {
    } else {
      var q, c := DropLast(p), p[|p| - 1];
      assert p == q + [c];
      if c != 255 {
        RaisedByte(q, c, k);
      } else {
        PrefixRangeExact(q, k);
        PrefixAtMost(q, [c]);
        if AtMost(p, k) { AtMostTransitive(q, p, k); }
        if q <= k {
          var r := k[|q|..];
          assert k == q + r;
          LessAfterPrefix(q, r, [c]);
          assert p <= k <==> r != [] && r[0] == c;
        }
      }
    }
  }

  // ---------------------------------------------------------------- bounds of a prefix store

  function InnerStart(p: Bytes, start: Bound): Bound
  {
    match start
    case Included(b) => Included(p + b)
    case Excluded(b) => Excluded(p + b)
    case Unbounded => Included(p)
  }

  function InnerEnd(p: Bytes, end: Bound): Bound
  {
    match end
    case Included(b) => Included(p + b)
    case Excluded(b) => Excluded(p + b)
    case Unbounded => PrefixEndBound(p)
  }

  lemma AfterInnerStart(p: Bytes, start: Bound, r: Bytes)
    ensures AfterStart(p + r, InnerStart(p, start)) <==> AfterStart(r, start)
  {
    match start
    case Included(b) => LessAfterPrefix(p, r, b);
    case Excluded(b) => LessAfterPrefix(p, b, r);
    case Unbounded => PrefixAtMost(p, r);
  }

  lemma BeforeInnerEnd(p: Bytes, end: Bound, r: Bytes)
    ensures BeforeEnd(p + r, InnerEnd(p, end)) <==> BeforeEnd(r, end)
  {
    match end
    case Included(b) => LessAfterPrefix(p, b, r);
    case Excluded(b) => LessAfterPrefix(p, r, b);
    case Unbounded => PrefixRangeExact(p, p + r);
  }

  /** A full key is in the store's range exactly when it starts with the prefix and the rest of it is
      in the range asked for, whatever the bounds. */
  lemma PrefixStoreRangeExact(p: Bytes, start: Bound, end: Bound, k: Bytes)
    ensures InRange(k, InnerStart(p, start), InnerEnd(p, end)) <==> p <= k && InRange(k[|p|..], start, end)
  {
    if p <= k {
      var r := k[|p|..];
      assert k == p + r;
      AfterInnerStart(p, start, r);
      BeforeInnerEnd(p, end, r);
    } else if InRange(k, InnerStart(p, start), InnerEnd(p, end)) {
      NotBelowStart(p, start, k);
      match end {
        case Included(b) => BetweenStartsWith(p, b, k);
        case Excluded(b) => LessAsymmetric(k, p + b); BetweenStartsWith(p, b, k);
        case Unbounded => PrefixRangeExact(p, k);
      }
    }
  }

  lemma NotBelowStart(p: Bytes, start: Bound, k: Bytes)
    requires AfterStart(k, InnerStart(p, start))
    ensures AtMost(p, k)
  {
    match start
    case Included(b) => PrefixAtMost(p, b); AtMostTransitive(p, p + b, k);
    case Excluded(b) => PrefixAtMost(p, b); LessAsymmetric(p + b, k); AtMostTransitive(p, p + b, k);
    case Unbounded =>
  }
}
