/** The range iterator: a stack of delayed nodes, popped and pushed until a leaf in range turns up. */
module IavlRange {
  import opened ByteStrings
  import opened IavlNode
  import opened IavlSpec
  import opened IavlDb
  import opened IavlRotate

  type Entry = (Bytes, Bytes)

  /** The entries a test keeps, in the given order. */
  function Filter(es: seq<Entry>, keep: Entry -> bool): seq<Entry>
  {
    if es == [] then []
    else (if keep(es[0]) then [es[0]] else []) + Filter(es[1..], keep)
  }

  function Keeps(start: Bound, end: Bound): Entry -> bool
  {
    (e: Entry) => InRange(e.0, start, end)
  }

  /** The entries whose keys lie within the bounds. */
  function Within(es: seq<Entry>, start: Bound, end: Bound): seq<Entry>
  {
    Filter(es, Keeps(start, end))
  }

  /** All entries below the stacked trees, topmost first; the top is the last of the sequence. */
  function Pending(trees: seq<Avl>): seq<Entry>
  {
    if trees == [] then [] else Entries(trees[|trees| - 1]) + Pending(trees[..|trees| - 1])
  }

  function NodeCount(t: Avl): nat
  {
    1 + if t.Leaf? then 0 else NodeCount(t.left) + NodeCount(t.right)
  }

  function StackCount(trees: seq<Avl>): nat
  {
    if trees == [] then 0 else NodeCount(trees[|trees| - 1]) + StackCount(trees[..|trees| - 1])
  }

  lemma Prepend(x: seq<Entry>, y: seq<Entry>, z: seq<Entry>)
    ensures x + (y + z) == (x + y) + z
  {
  }

  lemma {:induction false} FilterConcat(a: seq<Entry>, b: seq<Entry>, keep: Entry -> bool)
    ensures Filter(a + b, keep) == Filter(a, keep) + Filter(b, keep)
  {
    if a == [] {
      assert a + b == b;
    } else {
      assert (a + b)[0] == a[0] && (a + b)[1..] == a[1..] + b;
      FilterConcat(a[1..], b, keep);
      Prepend(if keep(a[0]) then [a[0]] else [], Filter(a[1..], keep), Filter(b, keep));
    }
  }

  lemma {:induction false} FilterNone(es: seq<Entry>, keep: Entry -> bool)
    requires forall e :: e in es ==> !keep(e)
    ensures Filter(es, keep) == []
  {
    if es != [] {
      assert es[0] in es;
      FilterNone(es[1..], keep);
    }
  }

  /** Exactly the entries that pass the test are kept. */
  lemma {:induction false} FilterKeepsExactly(es: seq<Entry>, keep: Entry -> bool, e: Entry)
    ensures e in Filter(es, keep) <==> e in es && keep(e)
  {
    if es != [] {
      FilterKeepsExactly(es[1..], keep, e);
      assert e in es <==> e == es[0] || e in es[1..];
    }
  }

  ghost predicate Ascending(es: seq<Entry>)
  {
    forall i, j :: 0 <= i < j < |es| ==> Less(es[i].0, es[j].0)
  }

  lemma {:induction false} FilterAscends(es: seq<Entry>, keep: Entry -> bool)
    requires Ascending(es)
    ensures Ascending(Filter(es, keep))
  {
    if es != [] {
      FilterAscends(es[1..], keep);
      forall e | e in Filter(es[1..], keep) ensures Less(es[0].0, e.0) {
        FilterKeepsExactly(es[1..], keep, e);
        var j :| 0 <= j < |es[1..]| && es[1..][j] == e;
        assert es[j + 1] == e;
      }
    }
  }

  // ---------------------------------------------------------------- the pruning tests

  predicate AfterStartTest(key: Bytes, start: Bound)
  {
    match start
    case Included(l) => Less(l, key)
    case Excluded(l) => Less(l, key)
    case Unbounded => true
  }

  predicate BeforeEndTest(key: Bytes, end: Bound)
  {
    match end
    case Included(u) => AtMost(key, u)
    case Excluded(u) => Less(key, u)
    case Unbounded => true
  }

  /** A left subtree that is skipped has no entry in range. */
  lemma SkippedLeft(t: Avl, start: Bound, end: Bound)
    requires SearchTree(t) && t.Inner? && !AfterStartTest(t.key, start)
    ensures Within(Entries(t.left), start, end) == []
  {
    EntriesAreContents(t.left);
    forall e | e in Entries(t.left) ensures !InRange(e.0, start, end) {
      assert (e.0, e.1) in Entries(t.left);
      assert Less(e.0, t.key);
      LessTotal(start.at, t.key);
      if start.at != t.key { LessTransitive(e.0, t.key, start.at); }
      LessAsymmetric(e.0, start.at);
    }
    FilterNone(Entries(t.left), Keeps(start, end));
  }

  /** A right subtree that is skipped has no entry in range. */
  lemma SkippedRight(t: Avl, start: Bound, end: Bound)
    requires SearchTree(t) && t.Inner? && !BeforeEndTest(t.key, end)
    ensures Within(Entries(t.right), start, end) == []
  {
    EntriesAreContents(t.right);
    forall e | e in Entries(t.right) ensures !InRange(e.0, start, end) {
      assert (e.0, e.1) in Entries(t.right);
      assert AtMost(t.key, e.0);
      if end.Included? && AtMost(e.0, end.at) {
        // end < t.key <= e <= end
        LessTotal(t.key, e.0);
        LessTotal(e.0, end.at);
        if e.0 != t.key { LessTransitive(end.at, t.key, e.0); }
      }
      if end.Excluded? && Less(e.0, end.at) {
        // end <= t.key <= e < end
        LessTotal(t.key, end.at);
        if t.key != end.at { LessTransitive(e.0, end.at, t.key); }
      }
    }
    FilterNone(Entries(t.right), Keeps(start, end));
  }

  // ---------------------------------------------------------------- the iterator

  /** The stacked nodes stand for the trees. */
  ghost predicate StackRep(H: Hasher, db: Db, nodes: seq<Node>, trees: seq<Avl>)
  {
    && |nodes| == |trees|
    && forall i :: 0 <= i < |trees| ==> Rep(H, db, nodes[i], trees[i]) && SearchTree(trees[i]) && Encodable(trees[i])
  }

  /** What visiting `t` pushes. */
  function Pushed(t: Avl, start: Bound, end: Bound): seq<Avl>
  {
    if t.Leaf? then []
    else (if BeforeEndTest(t.key, end) then [t.right] else []) + (if AfterStartTest(t.key, start) then [t.left] else [])
  }

  lemma PendingPush(trees: seq<Avl>, t: Avl)
    ensures Pending(trees + [t]) == Entries(t) + Pending(trees)
    ensures StackCount(trees + [t]) == NodeCount(t) + StackCount(trees)
  {
    assert (trees + [t])[..|trees|] == trees;
  }

  function If(c: bool, es: seq<Entry>): seq<Entry>
  {
    if c then es else []
  }

  lemma FilterSkips(l: seq<Entry>, r: seq<Entry>, p: seq<Entry>, keep: Entry -> bool, after: bool, before: bool)
    requires after || Filter(l, keep) == []
    requires before || Filter(r, keep) == []
    ensures Filter(If(after, l) + (If(before, r) + p), keep) == Filter(l + r + p, keep)
  {
    FilterNone([], keep);
    hide Filter;
    FilterConcat(If(after, l), If(before, r) + p, keep);
    FilterConcat(If(before, r), p, keep);
    FilterConcat(l + r, p, keep);
    FilterConcat(l, r, keep);
  }

  lemma PendingPushed(rest: seq<Avl>, t: Avl, start: Bound, end: Bound)
    requires t.Inner?
    ensures Pending(rest + Pushed(t, start, end)) ==
            If(AfterStartTest(t.key, start), Entries(t.left)) + (If(BeforeEndTest(t.key, end), Entries(t.right)) + Pending(rest))
    ensures StackCount(rest + Pushed(t, start, end)) <= NodeCount(t.left) + NodeCount(t.right) + StackCount(rest)
  {
    var mid := if BeforeEndTest(t.key, end) then rest + [t.right] else rest;
    PendingPush(rest, t.right);
    PendingPush(mid, t.left);
    assert rest + Pushed(t, start, end) == if AfterStartTest(t.key, start) then mid + [t.left] else mid;
  }

  /** The entries of what a visit pushes, once in range, are those of the node visited. */
  lemma VisitKeepsPending(rest: seq<Avl>, t: Avl, start: Bound, end: Bound)
    requires SearchTree(t) && t.Inner?
    ensures Within(Pending(rest + Pushed(t, start, end)), start, end) == Within(Entries(t) + Pending(rest), start, end)
    ensures StackCount(rest + Pushed(t, start, end)) < NodeCount(t) + StackCount(rest)
  {
    var after, before := AfterStartTest(t.key, start), BeforeEndTest(t.key, end);
    if !after { SkippedLeft(t, start, end); }
    if !before { SkippedRight(t, start, end); }
    PendingPushed(rest, t, start, end);
    FilterSkips(Entries(t.left), Entries(t.right), Pending(rest), Keeps(start, end), after, before);
  }

  /** A drained range holds exactly the entries of the map within the bounds, once each, in order. */
  lemma RangeYieldsExactly(t: Avl, start: Bound, end: Bound)
    requires SearchTree(t)
    ensures Ascending(Within(Entries(t), start, end))
    ensures forall k, v :: (k, v) in Within(Entries(t), start, end) <==>
                           k in Contents(t) && Contents(t)[k] == v && InRange(k, start, end)
  {
    EntriesAscend(t);
    EntriesAreContents(t);
    FilterAscends(Entries(t), Keeps(start, end));
    forall k, v
      ensures (k, v) in Within(Entries(t), start, end) <==>
              k in Contents(t) && Contents(t)[k] == v && InRange(k, start, end)
    {
      FilterKeepsExactly(Entries(t), Keeps(start, end), (k, v));
    }
  }

  function PushedNodes(key: Bytes, left: Node, right: Node, start: Bound, end: Bound): seq<Node>
  {
    (if BeforeEndTest(key, end) then [right] else []) + (if AfterStartTest(key, start) then [left] else [])
  }

  lemma ReadChildren(H: Hasher, db: Db, node: Node, t: Avl)
    requires Rep(H, db, node, t) && Encodable(t) && t.Inner?
    ensures LeftOf(db, node).Some? && Rep(H, db, LeftOf(db, node).value, t.left)
    ensures RightOf(db, node).Some? && Rep(H, db, RightOf(db, node).value, t.right)
  {
    SlotReads(H, db, node.left, node.leftHash, t.left);
    SlotReads(H, db, node.right, node.rightHash, t.right);
  }

  lemma PushedStand(H: Hasher, db: Db, nodes: seq<Node>, trees: seq<Avl>, key: Bytes, left: Node, right: Node,
                    t: Avl, start: Bound, end: Bound)
    requires StackRep(H, db, nodes, trees) && t.Inner? && key == t.key && SearchTree(t) && Encodable(t)
    requires Rep(H, db, left, t.left) && Rep(H, db, right, t.right)
    ensures StackRep(H, db, nodes + PushedNodes(key, left, right, start, end), trees + Pushed(t, start, end))
  {
    var before, after := BeforeEndTest(key, end), AfterStartTest(key, start);
    var nodes1, trees1 := if before then nodes + [right] else nodes, if before then trees + [t.right] else trees;
    hide IavlDb.Rep, AfterStartTest, BeforeEndTest, StackRep, IavlSpec.Encodable;
    SidesOf(t);
    if before { StackPush(H, db, nodes, trees, right, t.right); }
    if after { StackPush(H, db, nodes1, trees1, left, t.left); }
    InTurn(nodes, if before then [right] else [], if after then [left] else []);
    InTurn(trees, if before then [t.right] else [], if after then [t.left] else []);
  }

  lemma InTurn<T>(a: seq<T>, b: seq<T>, c: seq<T>)
    ensures a + (b + c) == (a + b) + c
    ensures a + [] == a && (a + b) + [] == a + b
  {
  }

  lemma SidesOf(t: Avl)
    requires t.Inner? && SearchTree(t) && Encodable(t)
    ensures SearchTree(t.left) && Encodable(t.left) && SearchTree(t.right) && Encodable(t.right)
  {
  }

  lemma StackPush(H: Hasher, db: Db, nodes: seq<Node>, trees: seq<Avl>, node: Node, t: Avl)
    requires StackRep(H, db, nodes, trees) && Rep(H, db, node, t) && SearchTree(t) && Encodable(t)
    ensures StackRep(H, db, nodes + [node], trees + [t])
  {
  }

  lemma TopPending(trees: seq<Avl>)
    requires trees != []
    ensures var n := |trees| - 1; Pending(trees) == Entries(trees[n]) + Pending(trees[..n])
    ensures var n := |trees| - 1; StackCount(trees) == NodeCount(trees[n]) + StackCount(trees[..n]) > StackCount(trees[..n])
  {
  }

  lemma OnePending(t: Avl)
    ensures Pending([t]) == Entries(t)
  {
    PendingPush([], t);
    assert [] + [t] == [t];
  }

  lemma NonePending()
    ensures Pending([]) == []
  {
  }

  lemma SameKind(H: Hasher, db: Db, node: Node, t: Avl)
    requires Rep(H, db, node, t)
    ensures node.InnerNode? <==> t.Inner?
    ensures node.key == t.key && (t.Leaf? ==> node.value == t.value)
  {
  }

  /** A leaf yields its entry, if it is within the bounds. */
  lemma LeafYields(t: Avl, rest: seq<Avl>, start: Bound, end: Bound)
    requires t.Leaf?
    ensures Within(Entries(t) + Pending(rest), start, end) ==
            (if InRange(t.key, start, end) then [(t.key, t.value)] else []) + Within(Pending(rest), start, end)
  {
    FilterConcat([(t.key, t.value)], Pending(rest), Keeps(start, end));
  }

  class Range {
    const H: Hasher
    const db: Db
    const start: Bound
    const end: Bound
    var delayed: seq<Node>
    ghost var trees: seq<Avl>

    ghost predicate Valid()
      reads this
    {
      StackRep(H, db, delayed, trees)
    }

    /** What the iterator has still to yield. */
    ghost function Rest(): seq<Entry>
      reads this
    {
      Within(Pending(trees), start, end)
    }

    constructor (H: Hasher, db: Db, root: Option<Node>, start: Bound, end: Bound, ghost tree: Option<Avl>)
      requires root.Some? <==> tree.Some?
      requires root.Some? ==> Rep(H, db, root.value, tree.value) && SearchTree(tree.value) && Encodable(tree.value)
      ensures Valid()
      ensures Rest() == Within(if tree.Some? then Entries(tree.value) else [], start, end)
    {
      hide IavlDb.Rep, IavlSpec.SearchTree, IavlSpec.Encodable, Within, Pending, StackCount, IavlSpec.Entries;
      this.H, this.db, this.start, this.end := H, db, start, end;
      delayed := if root.Some? then [root.value] else [];
      trees := if tree.Some? then [tree.value] else [];
      new;
      if tree.Some? {
        OnePending(tree.value);
      } else {
        NonePending();
      }
    }

    /** The next entry in range, if any. */
    method Traverse() returns (r: Option<Entry>)
      requires Valid()
      modifies this
      ensures Valid()
      ensures r.None? <==> old(Rest()) == []
      ensures r.Some? ==> old(Rest()) == [r.value] + Rest()
      decreases StackCount(trees)
    {
      if |delayed| == 0 {
        return None;
      }
      r := Visit();
      if r.None? {
        r := Traverse();
      }
    }

    /** Pops one node, and either yields its entry or pushes its children. */
    method Visit() returns (r: Option<Entry>)
      requires Valid() && |delayed| > 0
      modifies this
      ensures Valid() && StackCount(trees) < old(StackCount(trees))
      ensures old(Rest()) == (if r.Some? then [r.value] else []) + Rest()
    {
      hide IavlDb.Rep, IavlDb.GetNode, IavlSpec.SearchTree, IavlSpec.Encodable, Within, Pending, NodeCount, StackCount, IavlSpec.Entries, Pushed, PushedNodes;
      var n := |delayed| - 1;
      var node := delayed[n];
      ghost var t, rest := trees[n], trees[..n];
      ghost var nodes := delayed[..n];
      assert StackRep(H, db, nodes, rest) && Rep(H, db, node, t) && SearchTree(t) && Encodable(t);
      TopPending(trees);
      SameKind(H, db, node, t);
      delayed := delayed[..n];
      trees := rest;
      r := None;
      if node.InnerNode? {
        ReadChildren(H, db, node, t);
        var left, right := LeftOf(db, node).value, RightOf(db, node).value;
        Push(node, left, right);
        trees := rest + Pushed(t, start, end);
        PushedStand(H, db, nodes, rest, node.key, left, right, t, start, end);
        VisitKeepsPending(rest, t, start, end);
      } else {
        LeafYields(t, rest, start, end);
        if InRange(node.key, start, end) {
          r := Some((node.key, node.value));
        }
      }
    }

    /** The children that may hold entries in range, the left one on top. */
    method Push(node: Node, left: Node, right: Node)
      modifies this`delayed
      ensures delayed == old(delayed) + PushedNodes(node.key, left, right, start, end)
    {
      if BeforeEndTest(node.key, end) {
        delayed := delayed + [right];
      }
      if AfterStartTest(node.key, start) {
        delayed := delayed + [left];
      }
    }

    /** Draining the iterator yields all of it. */
    method Collect() returns (all: seq<Entry>)
      requires Valid()
      modifies this
      ensures all == old(Rest())
    {
      all := [];
      var next := Traverse();
      while next.Some?
        invariant Valid()
        invariant old(Rest()) == all + (if next.Some? then [next.value] + Rest() else [])
        decreases next.Some?, |Rest()|
      {
        all := all + [next.value];
        next := Traverse();
      }
    }
  }
}
