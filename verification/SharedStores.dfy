/** Several stores over one database, each behind its own prefix. As long as no name starts another, what
    one store does leaves every other where it was, so all keep their own versions in any run of them all. */
module SharedStores {
  import opened ByteStrings
  import opened IavlNode
  import opened IavlSpec
  import opened IavlDb
  import opened IavlRuns
  import opened Database

  /** What a store has besides the database. */
  datatype Part = Part(root: Option<Avl>, loaded: nat, versions: set<nat>)

  datatype Shared = Shared(store: Store, parts: map<Bytes, Part>)

  /** One store as it sees itself: its part, over the database behind its name. */
  function Local(s: Shared, name: Bytes): State
    requires name in s.parts
  {
    State(Through(name, s.store), s.parts[name].root, s.parts[name].loaded, s.parts[name].versions)
  }

  predicate PrefixFree(names: set<Bytes>)
  {
    forall a, b :: a in names && b in names && a != b ==> !(a <= b)
  }

  // ---------------------------------------------------------------- writes behind a prefix

  /** What a batch of writes through a prefix is to the whole database. */
  function Prefixed(prefix: Bytes, w: Store): (m: Store)
    ensures forall k :: k in w ==> prefix + k in m && m[prefix + k] == w[k]
    ensures forall full :: full in m ==> prefix <= full && full[|prefix|..] in w
  {
    var keys := set k | k in w :: prefix + k;
    assert forall k :: k in w ==> (prefix + k)[|prefix|..] == k;
    map full | full in keys :: w[full[|prefix|..]]
  }

  lemma WriterSees(prefix: Bytes, store: Store, w: Store)
    ensures Through(prefix, store + Prefixed(prefix, w)) == Through(prefix, store) + w
  {
    hide Prefixed, Through;
    forall k: Bytes { SeenThrough(prefix, store, w, k); }
  }

  lemma SeenThrough(prefix: Bytes, store: Store, w: Store, k: Bytes)
    ensures var after, view := Through(prefix, store + Prefixed(prefix, w)), Through(prefix, store) + w;
            (k in after <==> k in view) && (k in after ==> after[k] == view[k])
  {
    assert (prefix + k)[|prefix|..] == k;
  }

  lemma OthersDoNot(prefix: Bytes, other: Bytes, store: Store, w: Store)
    requires !(prefix <= other) && !(other <= prefix)
    ensures Through(other, store + Prefixed(prefix, w)) == Through(other, store)
  {
    forall k: Bytes ensures other + k !in Prefixed(prefix, w) {
    }
  }

  // ---------------------------------------------------------------- one step of one store

  datatype SharedOp = SharedOp(name: Bytes, op: Op)

  /** Only the part of this store has changed, and the database only behind its name. */
  ghost predicate Touches(s: Shared, name: Bytes, s': Shared)
  {
    && name in s.parts && s'.parts.Keys == s.parts.Keys
    && (forall other :: other in s.parts && other != name ==> s'.parts[other] == s.parts[other])
    && exists w :: s'.store == s.store + Prefixed(name, w)
  }

  /** One store takes a step, writing through its own prefix only. */
  ghost predicate SharedStep(H: Hasher, s: Shared, op: SharedOp, s': Shared)
  {
    Touches(s, op.name, s') && Next(H, Local(s, op.name), op.op, Local(s', op.name))
  }

  /** What any step of a store on its own does to its database is to write some batch over it. */
  lemma StepWrites(H: Hasher, l: State, op: Op, l': State) returns (w: Store)
    requires Next(H, l, op, l')
    ensures l'.db == l.db + w
  {
    hide SaveWrites, Holds, Put', GetRootHash, GetVersions, RootHashOf, RootKey, Latest;
    w := map[];
    assert l.db + map[] == l.db;
    if op.Put? { PutWritesNothing(l, op, l'); }
    if op.Save? && l.loaded + 1 !in l.versions {
      var nodes :| SaveWrites(H, l.db, l.root, nodes) && l'.db == (l.db + nodes)[RootKey(l.loaded + 1) := RootHashOf(H, l.root)];
      w := nodes[RootKey(l.loaded + 1) := RootHashOf(H, l.root)];
    }
  }

  lemma PutWritesNothing(l: State, op: Op, l': State)
    requires op.Put? && Put'(l, op.key, op.value, l')
    ensures l'.db == l.db
  {
  }

  /** The step a store takes on its own, taken over the shared database. */
  function Taken(s: Shared, name: Bytes, l: State, w: Store): Shared
  {
    Shared(s.store + Prefixed(name, w), s.parts[name := Part(l.root, l.loaded, l.versions)])
  }

  /** Written through its prefix it is a step of them all, after which the store sees what it would have alone. */
  lemma LocalStepIsShared(H: Hasher, s: Shared, op: SharedOp, l: State, w: Store)
    requires op.name in s.parts && Next(H, Local(s, op.name), op.op, l) && l.db == Through(op.name, s.store) + w
    ensures SharedStep(H, s, op, Taken(s, op.name, l, w))
    ensures Local(Taken(s, op.name, l, w), op.name) == l
  {
    hide Next, Through, Prefixed;
    WriterSees(op.name, s.store, w);
  }

  /** So whatever a store can do alone it can do behind its prefix, to the same effect. */
  lemma AnyStepIsShared(H: Hasher, s: Shared, op: SharedOp, l: State) returns (s': Shared)
    requires op.name in s.parts && Next(H, Local(s, op.name), op.op, l)
    ensures SharedStep(H, s, op, s') && Local(s', op.name) == l
  {
    hide Next, SharedStep, Through;
    var w := StepWrites(H, Local(s, op.name), op.op, l);
    LocalStepIsShared(H, s, op, l, w);
    s' := Taken(s, op.name, l, w);
  }

  /** Nobody else notices. */
  lemma OthersUnmoved(s: Shared, name: Bytes, s': Shared, other: Bytes)
    requires Touches(s, name, s') && PrefixFree(s.parts.Keys) && other in s.parts && other != name
    ensures other in s'.parts && Local(s', other) == Local(s, other)
  {
    hide Through, Prefixed;
    var w :| s'.store == s.store + Prefixed(name, w);
    OthersDoNot(name, other, s.store, w);
  }

  // ---------------------------------------------------------------- runs of them all

  ghost predicate SharedStepAt(H: Hasher, run: seq<Shared>, ops: seq<SharedOp>, i: nat)
  {
    i < |ops| && i + 1 < |run| && SharedStep(H, run[i], ops[i], run[i + 1])
  }

  /** From an empty database, under names none of which starts another. */
  ghost predicate IsSharedRun(H: Hasher, run: seq<Shared>, ops: seq<SharedOp>)
  {
    && |run| == |ops| + 1 && PrefixFree(run[0].parts.Keys)
    && run[0].store == map[] && (forall name :: name in run[0].parts ==> run[0].parts[name] == Part(None, 0, {}))
    && forall i :: 0 <= i < |ops| ==> SharedStepAt(H, run, ops, i)
  }

  /** The steps of one store among the first `n`. */
  function LocalOps(ops: seq<SharedOp>, n: nat, name: Bytes): seq<Op>
    requires n <= |ops|
  {
    if n == 0 then []
    else if ops[n - 1].name == name then LocalOps(ops, n - 1, name) + [ops[n - 1].op]
    else LocalOps(ops, n - 1, name)
  }

  predicate Named(run: seq<Shared>, name: Bytes)
  {
    forall i :: 0 <= i < |run| ==> name in run[i].parts
  }

  /** And the states it goes through. */
  function LocalRun(run: seq<Shared>, ops: seq<SharedOp>, n: nat, name: Bytes): (r: seq<State>)
    requires n <= |ops| < |run| && Named(run, name)
    ensures |r| == |LocalOps(ops, n, name)| + 1
  {
    if n == 0 then [Local(run[0], name)]
    else if ops[n - 1].name == name then LocalRun(run, ops, n - 1, name) + [Local(run[n], name)]
    else LocalRun(run, ops, n - 1, name)
  }

  lemma {:induction false} NamesStay(H: Hasher, run: seq<Shared>, ops: seq<SharedOp>, n: nat)
    requires IsSharedRun(H, run, ops) && n <= |ops|
    ensures run[n].parts.Keys == run[0].parts.Keys
  {
    hide Next, Local, Prefixed, PrefixFree;
    if n > 0 {
      NamesStay(H, run, ops, n - 1);
      assert SharedStepAt(H, run, ops, n - 1);
    }
  }

  lemma NamedThroughout(H: Hasher, run: seq<Shared>, ops: seq<SharedOp>, name: Bytes)
    requires IsSharedRun(H, run, ops) && name in run[0].parts
    ensures Named(run, name)
  {
    forall i | 0 <= i < |run| ensures name in run[i].parts { NamesStay(H, run, ops, i); }
  }

  /** Whatever the others do in between, what one store sees of a run of them all is a run of its own. */
  lemma {:induction false} LocalIsRun(H: Hasher, run: seq<Shared>, ops: seq<SharedOp>, n: nat, name: Bytes)
    requires IsSharedRun(H, run, ops) && n <= |ops| && Named(run, name)
    ensures IsRun(H, LocalRun(run, ops, n, name), LocalOps(ops, n, name))
    ensures LocalRun(run, ops, n, name)[|LocalOps(ops, n, name)|] == Local(run[n], name)
  {
    hide Next, Touches, Local, PrefixFree;
    if n == 0 {
      LocalStarts(H, run, ops, name);
    } else {
      LocalIsRun(H, run, ops, n - 1, name);
      assert SharedStepAt(H, run, ops, n - 1);
      if ops[n - 1].name == name {
        RunExtended(H, LocalRun(run, ops, n - 1, name), LocalOps(ops, n - 1, name), ops[n - 1].op, Local(run[n], name));
      } else {
        NamesStay(H, run, ops, n - 1);
        OthersUnmoved(run[n - 1], ops[n - 1].name, run[n], name);
      }
    }
  }

  lemma LocalStarts(H: Hasher, run: seq<Shared>, ops: seq<SharedOp>, name: Bytes)
    requires IsSharedRun(H, run, ops) && name in run[0].parts
    ensures Init(Local(run[0], name))
  {
    assert Through(name, map[]) == map[];
  }

  lemma RunExtended(H: Hasher, run: seq<State>, ops: seq<Op>, op: Op, s: State)
    requires IsRun(H, run, ops) && Next(H, run[|ops|], op, s)
    ensures IsRun(H, run + [s], ops + [op])
  {
    hide Next;
    var run', ops' := run + [s], ops + [op];
    forall i | 0 <= i < |ops'| ensures StepAt(H, run', ops', i) {
      if i < |ops| { assert StepAt(H, run, ops, i); }
    }
  }

  /** Where a store is after `j` steps of all. */
  lemma {:induction false} LocalAt(H: Hasher, run: seq<Shared>, ops: seq<SharedOp>, j: nat, n: nat, name: Bytes)
    requires IsSharedRun(H, run, ops) && j <= n <= |ops| && Named(run, name)
    ensures |LocalOps(ops, j, name)| <= |LocalOps(ops, n, name)|
    ensures LocalRun(run, ops, n, name)[|LocalOps(ops, j, name)|] == Local(run[j], name)
    ensures j < n && ops[j].name == name ==>
              && |LocalOps(ops, j, name)| < |LocalOps(ops, n, name)| && |LocalOps(ops, j + 1, name)| == |LocalOps(ops, j, name)| + 1
              && LocalOps(ops, n, name)[|LocalOps(ops, j, name)|] == ops[j].op
    decreases n
  {
    hide SharedStep, Local, PrefixFree, Named;
    if j == n { LocalIsRun(H, run, ops, n, name); } else { LocalAt(H, run, ops, j, n - 1, name); }
  }

  /** A step of a store, and a later state, found in its own run. */
  lemma FoundLocally(H: Hasher, run: seq<Shared>, ops: seq<SharedOp>, i: nat, j: nat, name: Bytes)
    requires IsSharedRun(H, run, ops) && i < j <= |ops| && Named(run, name) && ops[i].name == name
    ensures var local, steps, a, b := LocalRun(run, ops, |ops|, name), LocalOps(ops, |ops|, name), |LocalOps(ops, i, name)|, |LocalOps(ops, j, name)|;
            && IsRun(H, local, steps) && a < b <= |steps| && steps[a] == ops[i].op
            && local[a] == Local(run[i], name) && local[a + 1] == Local(run[i + 1], name) && local[b] == Local(run[j], name)
  {
    hide SharedStepAt, PrefixFree, Named, IsRun, Through, LocalOps, LocalRun, Local;
    LocalIsRun(H, run, ops, |ops|, name);
    LocalAt(H, run, ops, i, |ops|, name);
    LocalAt(H, run, ops, i + 1, |ops|, name);
    LocalAt(H, run, ops, j, |ops|, name);
    LocalAt(H, run, ops, i + 1, j, name);
  }

  /** A version a store has saved stays in the shared database, as the very tree it was, through any
      steps of this store and of all the others. */
  lemma SharedSnapshotPersists(H: Hasher, run: seq<Shared>, ops: seq<SharedOp>, seen: set<Bytes>, i: nat, j: nat, name: Bytes)
    requires IsSharedRun(H, run, ops) && i < j <= |ops| && Named(run, name)
    requires Accounted(H, LocalRun(run, ops, |ops|, name), seen)
    requires ops[i] == SharedOp(name, Save) && run[i + 1].parts[name].loaded == run[i].parts[name].loaded + 1
    ensures Holds(H, Through(name, run[j].store), run[i + 1].parts[name].loaded, run[i].parts[name].root)
  {
    hide SharedStepAt, PrefixFree, IsRun, Accounted, Through, Holds, LocalOps, LocalRun, Open';
    FoundLocally(H, run, ops, i, j, name);
    var local, steps := LocalRun(run, ops, |ops|, name), LocalOps(ops, |ops|, name);
    var a := |LocalOps(ops, i, name)|;
    assert Saved(local, steps, a);
    SnapshotPersists(H, local, steps, seen, a, |LocalOps(ops, j, name)|, local[0]);
  }
}
