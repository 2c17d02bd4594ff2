/** Handing a saved version to another node: every node reachable from its root, named by the hex of
    its own hash, and taken over in whatever order the names come. */
module IavlTransfer {
  import opened ByteStrings
  import opened IavlNode
  import opened IavlSpec
  import opened IavlHash
  import opened IavlDb
  import opened IavlRuns
  import opened IavlTree
  import opened Hex

  type Named = map<Bytes, Bytes>

  datatype ModuleState = ModuleState(root: Bytes, nodes: Named)

  /** `Node::default()`. */
  const DEFAULT_NODE: Node := LeafNode([], [], 0)

  // ---------------------------------------------------------------- export

  function NameOf(H: Hasher, t: Avl): Bytes
  {
    ToHex(RootHash(H, t))
  }

  function BytesOf(H: Hasher, t: Avl): Bytes
  {
    Serialize(Collapse(H, t))
  }

  function Itself(H: Hasher, t: Avl): Named
  {
    map[NameOf(H, t) := BytesOf(H, t)]
  }

  /** What the walk gathers, a node before its children. */
  function Gathered(H: Hasher, t: Avl): Named
  {
    if t.Leaf? then Itself(H, t) else Itself(H, t) + (Gathered(H, t.left) + Gathered(H, t.right))
  }

  /** A walk over whatever the database has: it goes no further where a node is missing, or cannot be read. */
  datatype Walk = Missing | Unreadable | Visit(node: Node, left: Walk, right: Walk)

  /** What is met from a node on. */
  predicate WalkFrom(db: Db, node: Node, w: Walk)
    decreases w, 0
  {
    && w.Visit? && w.node == node
    && (node.InnerNode? ==> WalkUnder(db, node.leftHash, w.left) && WalkUnder(db, node.rightHash, w.right))
    && (node.LeafNode? ==> w.left.Missing? && w.right.Missing?)
  }

  predicate WalkUnder(db: Db, hash: Hash, w: Walk)
    decreases w, 1
  {
    var found := GetNode(db, hash);
    if found.Some? then WalkFrom(db, found.value, w) else if NodeKey(hash) in db then w.Unreadable? else w.Missing?
  }

  /** Whatever is there can be read. */
  predicate IsReadable(w: Walk)
  {
    match w
    case Missing => true
    case Unreadable => false
    case Visit(_, left, right) => IsReadable(left) && IsReadable(right)
  }

  /** Every node met, under its own hash. */
  function Met(H: Hasher, w: Walk): Named
  {
    if !w.Visit? then map[]
    else map[ToHex(NodeHash(H, w.node)) := Serialize(w.node)] + (Met(H, w.left) + Met(H, w.right))
  }

  lemma StoredAt(H: Hasher, db: Db, t: Avl)
    requires InDb(H, db, t) && Encodable(t)
    ensures GetNode(db, RootHash(H, t)) == Some(Collapse(H, t))
    ensures t.Inner? ==> InDb(H, db, t.left) && InDb(H, db, t.right)
  {
    assert t in Subtrees(t);
    StoredReadsBack(H, db, t);
  }

  /** From the root of a stored tree every node of the tree is met. */
  lemma {:induction false} StoredWalk(H: Hasher, db: Db, t: Avl) returns (w: Walk)
    requires InDb(H, db, t) && Encodable(t)
    ensures WalkFrom(db, Collapse(H, t), w) && WalkUnder(db, RootHash(H, t), w)
    ensures IsReadable(w) && Met(H, w) == Gathered(H, t)
  {
    hide IavlDb.InDb, IavlDb.GetNode, IavlNode.Serialize, Hex.ToHex;
    StoredAt(H, db, t);
    var l, r := Missing, Missing;
    if t.Inner? {
      l := StoredWalk(H, db, t.left);
      r := StoredWalk(H, db, t.right);
    }
    w := Visit(Collapse(H, t), l, r);
    MetAt(H, t, w);
  }

  lemma MetAt(H: Hasher, t: Avl, w: Walk)
    requires w.Visit? && w.node == Collapse(H, t)
    requires if t.Leaf? then w.left.Missing? && w.right.Missing? else Met(H, w.left) == Gathered(H, t.left) && Met(H, w.right) == Gathered(H, t.right)
    ensures Met(H, w) == Gathered(H, t)
  {
    hide IavlNode.Serialize, Hex.ToHex;
  }

  /** There is no other walk. */
  lemma {:induction false} OneWalk(db: Db, hash: Hash, w: Walk, w': Walk)
    requires WalkUnder(db, hash, w) && WalkUnder(db, hash, w')
    ensures w == w'
    decreases w
  {
    hide IavlDb.GetNode;
    if w.Visit? && w.node.InnerNode? {
      OneWalk(db, w.node.leftHash, w.left, w'.left);
      OneWalk(db, w.node.rightHash, w.right, w'.right);
    }
  }

  lemma MetInOrder(H: Hasher, nodes: Named, w: Walk)
    requires w.Visit?
    ensures nodes[ToHex(NodeHash(H, w.node)) := Serialize(w.node)] + Met(H, w.left) + Met(H, w.right) == nodes + Met(H, w)
  {
    hide IavlNode.Serialize, IavlNode.NodeHash, Hex.ToHex;
    PutInOrder(nodes, ToHex(NodeHash(H, w.node)), Serialize(w.node), Met(H, w.left), Met(H, w.right));
  }

  lemma PutInOrder(nodes: Named, name: Bytes, bytes: Bytes, l: Named, r: Named)
    ensures nodes[name := bytes] + l + r == nodes + (map[name := bytes] + (l + r))
  {
  }

  /** The walk from a node, over whatever the database has, as long as it comes to an end; what it meets is
      added to `nodes`. `None` is a panic: a node that cannot be read. */
  method RecursiveGetAllNodes(H: Hasher, db: Db, node: Node, nodes: Named, ghost w: Walk) returns (r: Option<Named>)
    requires WalkFrom(db, node, w)
    ensures r == if IsReadable(w) then Some(nodes + Met(H, w)) else None
    decreases w
  {
    hide IavlNode.Deserialize, IavlNode.Serialize, IavlNode.NodeHash, Met;
    MetInOrder(H, nodes, w);
    NothingMet(H);
    r := Some(nodes[ToHex(NodeHash(H, node)) := Serialize(node)]);
    if node.InnerNode? {
      if NodeKey(node.leftHash) in db {
        var left := GetNode(db, node.leftHash);
        if left.None? {
          return None;
        }
        r := RecursiveGetAllNodes(H, db, left.value, r.value, w.left);
      }
      if r.Some? && NodeKey(node.rightHash) in db {
        var right := GetNode(db, node.rightHash);
        if right.None? {
          return None;
        }
        r := RecursiveGetAllNodes(H, db, right.value, r.value, w.right);
      }
    }
  }

  lemma NothingMet(H: Hasher)
    ensures forall nodes: Named :: nodes + Met(H, Missing) == nodes
  {
  }

  ghost predicate Exported(H: Hasher, nodes: Named, s: Avl)
  {
    NameOf(H, s) in nodes && nodes[NameOf(H, s)] == BytesOf(H, s)
  }

  ghost predicate NamesNodeOf(H: Hasher, t: Avl, name: Bytes)
  {
    exists s :: s in Subtrees(t) && name == NameOf(H, s)
  }

  /** `nodes` are the nodes reachable from the root of `t`, each under its own hash, and nothing else. */
  ghost predicate Exports(H: Hasher, t: Avl, nodes: Named)
  {
    && (forall s :: s in Subtrees(t) ==> Exported(H, nodes, s))
    && (forall name :: name in nodes ==> NamesNodeOf(H, t, name))
  }

  lemma HexApart(a: Hash, b: Hash)
    requires ToHex(a) == ToHex(b)
    ensures a == b
  {
    PrintedReadsBack(a);
    PrintedReadsBack(b);
  }

  ghost predicate GatheredFrom(H: Hasher, t: Avl, name: Bytes, bytes: Bytes)
  {
    exists s :: s in Subtrees(t) && name == NameOf(H, s) && bytes == BytesOf(H, s)
  }

  lemma {:induction false} GatheredAt(H: Hasher, t: Avl, name: Bytes)
    requires name in Gathered(H, t)
    ensures GatheredFrom(H, t, name, Gathered(H, t)[name])
  {
    if t.Inner? && name in Gathered(H, t.right) {
      GatheredAt(H, t.right, name);
    } else if t.Inner? && name in Gathered(H, t.left) {
      GatheredAt(H, t.left, name);
    } else {
      assert t in Subtrees(t);
    }
  }

  lemma {:induction false} AllGathered(H: Hasher, t: Avl, s: Avl)
    requires s in Subtrees(t)
    ensures NameOf(H, s) in Gathered(H, t)
  {
    if s != t {
      if s in Subtrees(t.left) { AllGathered(H, t.left, s); } else { AllGathered(H, t.right, s); }
    }
  }

  /** Two nodes of a stored tree under one hash are the same bytes, so the order of the walk is immaterial. */
  lemma OneNodePerName(H: Hasher, db: Db, t: Avl, s: Avl)
    requires InDb(H, db, t) && s in Subtrees(t)
    ensures Exported(H, Gathered(H, t), s)
  {
    AllGathered(H, t, s);
    GatheredAt(H, t, NameOf(H, s));
    var u :| u in Subtrees(t) && NameOf(H, s) == NameOf(H, u) && Gathered(H, t)[NameOf(H, s)] == BytesOf(H, u);
    HexApart(RootHash(H, s), RootHash(H, u));
    assert Stored(H, db, s) && Stored(H, db, u);
  }

  lemma GatheredExports(H: Hasher, db: Db, t: Avl)
    requires InDb(H, db, t)
    ensures Exports(H, t, Gathered(H, t))
  {
    forall s | s in Subtrees(t) ensures Exported(H, Gathered(H, t), s) {
      OneNodePerName(H, db, t, s);
    }
    forall name | name in Gathered(H, t) ensures NamesNodeOf(H, t, name) {
      GatheredAt(H, t, name);
    }
  }

  lemma HeldIsStored(H: Hasher, db: Db, root: Option<Node>, v: nat, saved: Option<Avl>)
    requires Holds(H, db, v, saved) && RootLoaded(H, root, saved) && root.Some?
    ensures InDb(H, db, saved.value) && Encodable(saved.value) && root.value == Collapse(H, saved.value)
  {
  }

  /** `None` is a panic: a version that is not there, or one saved empty. */
  method GetAllNodes(H: Hasher, nodeDb: NodeDB, version: nat, ghost history: map<nat, Option<Avl>>, ghost seen: set<Bytes>)
    returns (r: Option<ModuleState>)
    requires Kept(H, nodeDb.db, history, seen)
    ensures r.Some? <==> version in history && history[version].Some?
    ensures r.Some? ==> r.value.root == NameOf(H, history[version].value)
    ensures r.Some? ==> Exports(H, history[version].value, r.value.nodes)
  {
    hide Exports, Gathered, Met, WalkFrom, SoundRoot, Kept, IavlHash.RootHash, IavlDb.InDb, IavlDb.GetNode;
    RecordsAreHistory(H, nodeDb.db, history, seen);
    var hash := GetRootHash(nodeDb.db, version);
    if hash.None? {
      return None;
    }
    var root := LoadRoot(H, nodeDb, version, history[version]);
    if root.None? {
      return None;
    }
    ghost var t := history[version].value;
    HeldIsStored(H, nodeDb.db, root, version, history[version]);
    ghost var w := StoredWalk(H, nodeDb.db, t);
    var nodes := RecursiveGetAllNodes(H, nodeDb.db, root.value, map[], w);
    assert map[] + Gathered(H, t) == Gathered(H, t) == nodes.value;
    GatheredExports(H, nodeDb.db, t);
    r := Some(ModuleState(ToHex(hash.value), nodes.value));
  }

  // ---------------------------------------------------------------- import

  /** What one named node puts into the database, if name and node can be read. */
  function Entry(name: Bytes, bytes: Bytes): Option<(Bytes, Bytes)>
  {
    if ReadHex(name).Some? && Deserialize(bytes).Some?
    then Some((NodeKey(ReadHex(name).value), Serialize(Deserialize(bytes).value)))
    else None
  }

  ghost predicate Parses(nodes: Named, names: set<Bytes>)
    requires names <= nodes.Keys
  {
    forall name :: name in names ==> Entry(name, nodes[name]).Some?
  }

  ghost predicate PutBy(nodes: Named, names: set<Bytes>, key: Bytes, bytes: Bytes)
    requires names <= nodes.Keys
  {
    exists name :: name in names && Entry(name, nodes[name]) == Some((key, bytes))
  }

  /** `db'` is `db` with the nodes of those names written over it, in some order. */
  ghost predicate Imported(db: Db, nodes: Named, names: set<Bytes>, db': Db)
    requires names <= nodes.Keys
  {
    && (forall name :: name in names ==> Entry(name, nodes[name]).Some? && var key := Entry(name, nodes[name]).value.0;
          key in db' && PutBy(nodes, names, key, db'[key]))
    && (forall key :: key in db' ==> PutBy(nodes, names, key, db'[key]) || (key in db && db'[key] == db[key]))
    && db.Keys <= db'.Keys
  }

  lemma PutByMore(nodes: Named, names: set<Bytes>, more: set<Bytes>, key: Bytes, bytes: Bytes)
    requires names <= more <= nodes.Keys && PutBy(nodes, names, key, bytes)
    ensures PutBy(nodes, more, key, bytes)
  {
  }

  lemma ImportOne(db: Db, nodes: Named, names: set<Bytes>, db': Db, name: Bytes, key: Bytes, bytes: Bytes)
    requires names <= nodes.Keys && Imported(db, nodes, names, db')
    requires name in nodes && Entry(name, nodes[name]) == Some((key, bytes))
    ensures Imported(db, nodes, names + {name}, db'[key := bytes])
  {
    hide Entry;
    var after, all := db'[key := bytes], names + {name};
    assert PutBy(nodes, all, key, bytes);
    forall n | n in all
      ensures Entry(n, nodes[n]).Some? && var k := Entry(n, nodes[n]).value.0; k in after && PutBy(nodes, all, k, after[k])
    {
      var k := Entry(n, nodes[n]).value.0;
      if k != key { PutByMore(nodes, names, all, k, db'[k]); }
    }
    forall k | k in after ensures PutBy(nodes, all, k, after[k]) || (k in db && after[k] == db[k]) {
      if k != key && PutBy(nodes, names, k, db'[k]) { PutByMore(nodes, names, all, k, db'[k]); }
    }
  }

  function RootAmong(state: ModuleState, names: set<Bytes>): Option<Node>
    requires names <= state.nodes.Keys
  {
    if state.root in names then Deserialize(state.nodes[state.root]) else Some(DEFAULT_NODE)
  }

  /** Part-way through a message: the nodes of these names are written, and the root is theirs if it is
      among them. */
  ghost predicate Importing(before: Db, state: ModuleState, names: set<Bytes>, db: Db, root: Node)
  {
    && names <= state.nodes.Keys && Parses(state.nodes, names)
    && Imported(before, state.nodes, names, db) && RootAmong(state, names) == Some(root)
  }

  /** One turn of the import loop; `false` is a failed `unwrap`. */
  method ImportNext(nodeDb: NodeDB, state: ModuleState, name: Bytes, root: Node, ghost before: Db, ghost names: set<Bytes>)
    returns (ok: bool, root': Node)
    requires Importing(before, state, names, nodeDb.db, root) && name in state.nodes
    modifies nodeDb
    ensures ok <==> Entry(name, state.nodes[name]).Some?
    ensures ok ==> Importing(before, state, names + {name}, nodeDb.db, root')
  {
    hide Imported;
    root' := root;
    var node := Deserialize(state.nodes[name]);
    var hash := FromHex(name);
    if node.None? || hash.None? {
      return false, root;
    }
    if name == state.root {
      root' := node.value;
    }
    ImportOne(before, state.nodes, names, nodeDb.db, name, NodeKey(hash.value), Serialize(node.value));
    nodeDb.SaveNode(node.value, hash.value);
    ok := true;
  }

  lemma NothingImported(db: Db, state: ModuleState)
    ensures Importing(db, state, {}, db, DEFAULT_NODE)
  {
  }

  /** The import loop: any order of the names. A name or node that cannot be read is a panic (`false`)
      half-way; a root that is not among the names is the default node. */
  method ImportNodes(nodeDb: NodeDB, state: ModuleState) returns (ok: bool, root: Node)
    modifies nodeDb
    ensures ok <==> Parses(state.nodes, state.nodes.Keys)
    ensures ok ==> Imported(old(nodeDb.db), state.nodes, state.nodes.Keys, nodeDb.db)
    ensures ok ==> RootAmong(state, state.nodes.Keys) == Some(root)
  {
    hide Imported, RootAmong, Entry;
    root := DEFAULT_NODE;
    var rest := state.nodes.Keys;
    ghost var done: set<Bytes> := {};
    NothingImported(nodeDb.db, state);
    while rest != {}
      invariant rest <= state.nodes.Keys && done == state.nodes.Keys - rest
      invariant Importing(old(nodeDb.db), state, done, nodeDb.db, root)
      decreases |rest|
    {
      var name :| name in rest;
      ok, root := ImportNext(nodeDb, state, name, root, old(nodeDb.db), done);
      if !ok {
        return;
      }
      rest := rest - {name};
      done := done + {name};
    }
    assert done == state.nodes.Keys;
    ok := true;
  }

  // ---------------------------------------------------------------- importing what was exported

  lemma NodeReadsBack(H: Hasher, s: Avl)
    requires Encodable(s)
    ensures Deserialize(BytesOf(H, s)) == Some(Collapse(H, s))
    ensures Entry(NameOf(H, s), BytesOf(H, s)) == Some((NodeKey(RootHash(H, s)), BytesOf(H, s)))
  {
    SerializeRoundTrip(Collapse(H, s));
    PrintedReadsBack(RootHash(H, s));
  }

  lemma NamedNode(H: Hasher, t: Avl, nodes: Named, name: Bytes) returns (s: Avl)
    requires Exports(H, t, nodes) && Encodable(t) && name in nodes
    ensures s in Subtrees(t) && Entry(name, nodes[name]) == Some((NodeKey(RootHash(H, s)), BytesOf(H, s)))
  {
    assert NamesNodeOf(H, t, name);
    s :| s in Subtrees(t) && name == NameOf(H, s);
    assert Exported(H, nodes, s);
    SubtreeIsSound(H, t, s);
    NodeReadsBack(H, s);
  }

  /** `state` is the export of `t`. */
  ghost predicate IsExport(H: Hasher, state: ModuleState, t: Avl)
  {
    state.root == NameOf(H, t) && Exports(H, t, state.nodes) && SearchTree(t) && Encodable(t)
  }

  /** Every name and node of the message can be read, and so can the name of its root. */
  ghost predicate Takeable(state: ModuleState)
  {
    Parses(state.nodes, state.nodes.Keys) && ReadHex(state.root).Some?
  }

  /** An export can be imported without a panic, and its root is found. */
  lemma ExportParses(H: Hasher, t: Avl, state: ModuleState)
    requires Exports(H, t, state.nodes) && Encodable(t) && state.root == NameOf(H, t)
    ensures Parses(state.nodes, state.nodes.Keys)
    ensures RootAmong(state, state.nodes.Keys) == Some(Collapse(H, t))
  {
    forall name | name in state.nodes ensures Entry(name, state.nodes[name]).Some? {
      var s := NamedNode(H, t, state.nodes, name);
    }
    assert t in Subtrees(t);
    assert Exported(H, state.nodes, t);
    NodeReadsBack(H, t);
  }

  lemma PutIsNode(H: Hasher, t: Avl, nodes: Named, key: Bytes, bytes: Bytes) returns (s: Avl)
    requires Exports(H, t, nodes) && Encodable(t) && PutBy(nodes, nodes.Keys, key, bytes)
    ensures s in Subtrees(t) && key == NodeKey(RootHash(H, s)) && bytes == BytesOf(H, s)
  {
    var name :| name in nodes.Keys && Entry(name, nodes[name]) == Some((key, bytes));
    s := NamedNode(H, t, nodes, name);
  }

  lemma SameName(H: Hasher, nodes: Named, s: Avl, u: Avl)
    requires Exported(H, nodes, s) && Exported(H, nodes, u) && NodeKey(RootHash(H, s)) == NodeKey(RootHash(H, u))
    ensures BytesOf(H, s) == BytesOf(H, u)
  {
    NodeKeysApart(RootHash(H, s), RootHash(H, u));
  }

  lemma ImportStoresNode(H: Hasher, t: Avl, nodes: Named, db: Db, db': Db, s: Avl)
    requires Exports(H, t, nodes) && Encodable(t) && Imported(db, nodes, nodes.Keys, db') && s in Subtrees(t)
    ensures Stored(H, db', s)
  {
    assert Exported(H, nodes, s);
    SubtreeIsSound(H, t, s);
    NodeReadsBack(H, s);
    var key := NodeKey(RootHash(H, s));
    assert NameOf(H, s) in nodes.Keys && key in db' && PutBy(nodes, nodes.Keys, key, db'[key]);
    var u := PutIsNode(H, t, nodes, key, db'[key]);
    assert Exported(H, nodes, u);
    SameName(H, nodes, s, u);
  }

  /** After the import every node of the exported tree is in the database, whatever was there before,
      whatever the order, collisions or not. */
  lemma ImportStores(H: Hasher, t: Avl, nodes: Named, db: Db, db': Db)
    requires Exports(H, t, nodes) && Encodable(t) && Imported(db, nodes, nodes.Keys, db')
    ensures InDb(H, db', t)
  {
    forall s | s in Subtrees(t) ensures Stored(H, db', s) {
      ImportStoresNode(H, t, nodes, db, db', s);
    }
  }

  // ---------------------------------------------------------------- what the receiver had before

  lemma RootKeyIsNoNodeKey(k: Bytes, hash: Hash)
    ensures !(ROOTS_PREFIX <= k && k == NodeKey(hash))
  {
    assert k == NodeKey(hash) ==> k[0] == 2;
  }

  lemma RootRecordsUntouched(H: Hasher, t: Avl, nodes: Named, db: Db, db': Db, k: Bytes)
    requires Exports(H, t, nodes) && Encodable(t) && Imported(db, nodes, nodes.Keys, db')
    requires ROOTS_PREFIX <= k
    ensures k in db' <==> k in db
    ensures k in db ==> db'[k] == db[k]
  {
    if k in db' && PutBy(nodes, nodes.Keys, k, db'[k]) {
      var s := PutIsNode(H, t, nodes, k, db'[k]);
      RootKeyIsNoNodeKey(k, RootHash(H, s));
    }
  }

  lemma ImportKeepsStored(H: Hasher, t: Avl, nodes: Named, db: Db, db': Db, s: Avl, seen: set<Bytes>)
    requires Exports(H, t, nodes) && Sound(H, t, seen) && NoCollisions(H, seen)
    requires Imported(db, nodes, nodes.Keys, db') && Stored(H, db, s) && Sound(H, s, seen)
    ensures Stored(H, db', s)
  {
    var key := NodeKey(RootHash(H, s));
    assert key in db';
    if PutBy(nodes, nodes.Keys, key, db'[key]) {
      var n := PutIsNode(H, t, nodes, key, db'[key]);
      NodeKeysApart(RootHash(H, s), RootHash(H, n));
      SoundSubtree(H, t, n, seen);
      HashDetermines(H, s, n, seen);
    }
  }

  lemma ImportKeepsHeld(H: Hasher, t: Avl, nodes: Named, db: Db, db': Db, v: nat, saved: Option<Avl>, seen: set<Bytes>)
    requires Exports(H, t, nodes) && Sound(H, t, seen) && NoCollisions(H, seen)
    requires Imported(db, nodes, nodes.Keys, db') && Holds(H, db, v, saved) && SoundRoot(H, saved, seen)
    ensures Holds(H, db', v, saved)
  {
    RootRecordsUntouched(H, t, nodes, db, db', RootKey(v));
    if saved.Some? {
      forall s | s in Subtrees(saved.value) ensures Stored(H, db', s) {
        assert Stored(H, db, s);
        SoundSubtree(H, saved.value, s, seen);
        ImportKeepsStored(H, t, nodes, db, db', s, seen);
      }
    }
  }

  /** The versions the receiver had saved stay as they were. The one taken over has no root record: it
      can be read, but not reopened. */
  lemma ImportKeepsVersions(H: Hasher, t: Avl, nodes: Named, db: Db, db': Db, h: map<nat, Option<Avl>>, seen: set<Bytes>)
    requires Exports(H, t, nodes) && Sound(H, t, seen) && NoCollisions(H, seen)
    requires Imported(db, nodes, nodes.Keys, db') && Kept(H, db, h, seen)
    ensures Kept(H, db', h, seen)
    ensures forall v :: GetRootHash(db', v).Some? <==> v in h
  {
    forall v | v in h ensures Holds(H, db', v, h[v]) && SoundRoot(H, h[v], seen) {
      ImportKeepsHeld(H, t, nodes, db, db', v, h[v], seen);
    }
    forall k | k in db' && ROOTS_PREFIX <= k ensures exists v :: v in h && k == RootKey(v) {
      RootRecordsUntouched(H, t, nodes, db, db', k);
    }
    RecordsAreHistory(H, db', h, seen);
  }
}
