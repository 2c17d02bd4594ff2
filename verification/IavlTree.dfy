/** The tree object over its node database, method by method, each a step of `IavlRuns`. */
module IavlTree {
  import opened ByteStrings
  import opened IavlNode
  import opened IavlSpec
  import opened IavlHash
  import opened IavlDb
  import opened IavlRotate
  import opened IavlLoads
  import opened IavlInsert
  import opened IavlStale
  import opened IavlRuns
  import opened IavlAsWritten
  import opened IavlFresh
  import opened IavlDisk

  lemma WritesInOrder(db: Db, a: Db, b: Db, key: Bytes, value: Bytes)
    ensures (db + a + b)[key := value] == db + (a + b)[key := value]
  {
  }

  class NodeDB {
    var db: Db

    constructor (db: Db)
      ensures this.db == db
    {
      this.db := db;
    }

    method SaveNode(node: Node, hash: Hash)
      modifies this
      ensures db == old(db)[NodeKey(hash) := Serialize(node)]
    {
      db := db[NodeKey(hash) := Serialize(node)];
    }

    method RecursiveTreeSave(node: Node, hash: Hash)
      modifies this
      ensures db == old(db) + Written(node, hash)
      decreases node
    {
      if node.InnerNode? {
        SaveChild(node.left, node.leftHash);
        SaveChild(node.right, node.rightHash);
        WritesInOrder(old(db), WrittenChild(node.left, node.leftHash), WrittenChild(node.right, node.rightHash),
                      NodeKey(hash), Serialize(node));
      }
      SaveNode(node, hash);
    }

    method SaveChild(child: Option<Node>, hash: Hash)
      modifies this
      ensures db == old(db) + WrittenChild(child, hash)
      decreases child
    {
      if child.Some? {
        RecursiveTreeSave(child.value, hash);
      }
    }

    /** Saves the loaded part of the tree, and gives back the root with its children cleared. */
    method SaveTree(H: Hasher, root: Node) returns (hash: Hash, cleared: Node)
      modifies this
      ensures hash == NodeHash(H, root) && cleared == Unlinked(root)
      ensures db == old(db) + Written(root, hash)
    {
      hash := NodeHash(H, root);
      RecursiveTreeSave(root, hash);
      cleared := root;
      if cleared.InnerNode? {
        cleared := cleared.(left := None, right := None);
      }
    }

    method SaveVersion(version: nat, hash: Hash)
      modifies this
      ensures db == old(db)[RootKey(version) := hash]
    {
      db := db[RootKey(version) := hash];
    }
  }

  /** A lookup on nodes, loading what is absent. */
  function RecursiveGet(ghost H: Hasher, db: Db, node: Node, key: Bytes, ghost t: Avl): (r: Option<Bytes>)
    requires Rep(H, db, node, t) && Encodable(t)
    ensures r == Get(t, key)
    decreases t
  {
    match node
    case LeafNode(k, v, _) => if k == key then Some(v) else None
    case InnerNode(_, _, k, _, _, _, _, _) =>
      SlotReads(H, db, node.left, node.leftHash, t.left);
      SlotReads(H, db, node.right, node.rightHash, t.right);
      if Less(key, k) then RecursiveGet(H, db, LeftOf(db, node).value, key, t.left)
      else RecursiveGet(H, db, RightOf(db, node).value, key, t.right)
  }

  datatype SaveResult = SavedAs(hash: Hash, version: nat) | Overwrite

  lemma SoundRootWider(H: Hasher, root: Option<Avl>, seen: set<Bytes>, wider: set<Bytes>)
    requires SoundRoot(H, root, seen) && seen <= wider
    ensures SoundRoot(H, root, wider)
  {
  }

  lemma KeptWider(H: Hasher, db: Db, h: map<nat, Option<Avl>>, seen: set<Bytes>, wider: set<Bytes>)
    requires Kept(H, db, h, seen) && seen <= wider
    ensures Kept(H, db, h, wider)
  {
    forall v | v in h ensures Holds(H, db, v, h[v]) && SoundRoot(H, h[v], wider) {
      SoundRootWider(H, h[v], seen, wider);
    }
  }

  /** One insertion into a tree that may be empty; `None` is a panic. */
  function SetOf(c: CaseTwo, root: Option<Avl>, key: Bytes, value: Bytes, version: nat): Option<Avl>
  {
    if root.Some? then IavlSpec.Set(c, root.value, key, value, version) else Some(Leaf(key, value, version))
  }

  /** What is in memory of a root, and what that means for an insertion into it. */
  function RootLoads(root: Option<Node>): (l: Loads)
    ensures l.Present?
  {
    if root.Some? then LoadsOf(root.value) else Present(Absent, Absent)
  }

  function SetLoadsOf(c: CaseTwo, root: Option<Avl>, l: Loads, key: Bytes, value: Bytes, version: nat): (r: Loads)
    requires l.Present?
    ensures r.Present?
  {
    if root.Some? then SetLoads(c, root.value, l, key, value, version) else Present(Absent, Absent)
  }

  predicate SafeOf(c: CaseTwo, root: Option<Avl>, l: Loads, key: Bytes, value: Bytes, version: nat)
    requires l.Present?
  {
    root.Some? ==> Safe(c, root.value, l, key, value, version)
  }

  predicate BlindOf(H: Hasher, db: Db, c: CaseTwo, root: Option<Avl>, key: Bytes, value: Bytes, version: nat)
  {
    root.Some? ==> Blind(H, db, c, root.value, key, value, version)
  }

  function ProbedOf(H: Hasher, c: CaseTwo, root: Option<Avl>, key: Bytes, value: Bytes, version: nat): set<Bytes>
  {
    if root.Some? then Probed(H, c, root.value, key, value, version) else {}
  }

  /** A first insertion grows the empty tree. */
  function ForecastOf(root: Option<Avl>, key: Bytes): Outcome
  {
    if root.Some? then Forecast(root.value, key) else Grew
  }

  ghost predicate RegularOf(root: Option<Avl>)
  {
    root.Some? ==> Regular(root.value)
  }

  lemma FirstLeaf(H: Hasher, db: Db, key: Bytes, value: Bytes, version: nat)
    requires version <= MAX_U32
    ensures var t := Leaf(key, value, version);
            && Rep(H, db, LeafNode(key, value, version), t) && SearchTree(t) && Encodable(t)
            && Contents(t) == map[][key := value] && Stamps(t) == map[][key := version] && LoadsOf(LeafNode(key, value, version)) == Present(Absent, Absent)
  {
  }

  class Tree {
    const H: Hasher
    const code: Code
    const nodeDb: NodeDB
    var root: Option<Node>
    var loadedVersion: nat
    var versions: set<nat>
    /** What `root` stands for, what has been saved, and every byte string hashed so far. */
    ghost var tree: Option<Avl>
    ghost var history: map<nat, Option<Avl>>
    ghost var seen: set<Bytes>

    ghost function View(): State
      reads this, nodeDb
    {
      State(nodeDb.db, tree, loadedVersion, versions)
    }

    ghost predicate Stands()
      reads this, nodeDb
    {
      RootRep(H, nodeDb.db, root, tree)
    }

    /** Enough to read by: true of a tree taken over from another node too. */
    ghost predicate Readable()
      reads this, nodeDb
    {
      Stands() && SearchTreeOf(tree)
    }

    ghost predicate Valid()
      reads this, nodeDb
      ensures Valid() ==> Readable()
    {
      Stands() && Inv(H, View(), history, seen) && [] in seen
    }

    /** What holds in every run: nothing in the database or the tree is younger than its version. */
    ghost predicate IsAged()
      reads this, nodeDb
    {
      Aged(H, View(), history, seen)
    }

    /** Nothing has been recorded past the version that is loaded. */
    ghost predicate IsLatest()
      reads this
    {
      forall v :: v in history ==> v <= loadedVersion
    }

    /** The same, with room for one version more. */
    ghost predicate AtHead()
      reads this
    {
      loadedVersion < MAX_U32 && IsLatest()
    }

    constructor Of(H: Hasher, code: Code, nodeDb: NodeDB, root: Option<Node>, loaded: nat, versions: set<nat>,
                   ghost tree: Option<Avl>, ghost history: map<nat, Option<Avl>>, ghost seen: set<Bytes>)
      ensures this.H == H && this.code == code && this.nodeDb == nodeDb && this.root == root
      ensures loadedVersion == loaded && this.versions == versions
      ensures this.tree == tree && this.history == history && this.seen == seen
    {
      this.H, this.code, this.nodeDb, this.root := H, code, nodeDb, root;
      loadedVersion, this.versions := loaded, versions;
      this.tree, this.history, this.seen := tree, history, seen;
    }

    /** Opening a database that holds the recorded versions: `None` if the target is not one of them,
        otherwise the tree that was saved as the target, or as the latest version. */
    static method Open(H: Hasher, code: Code, nodeDb: NodeDB, target: Option<nat>,
                       ghost history: map<nat, Option<Avl>>, ghost seen: set<Bytes>)
      returns (r: Option<Tree>)
      requires Kept(H, nodeDb.db, history, seen) && [] in seen
      ensures r.None? <==> target.Some? && target.value !in history
      ensures r.Some? ==> fresh(r.value) && r.value.Valid()
      ensures r.Some? ==> r.value.H == H && r.value.code == code && r.value.nodeDb == nodeDb
      ensures r.Some? ==> r.value.history == history && r.value.seen == seen && r.value.versions == history.Keys
      ensures r.Some? ==> if history == map[] then r.value.loadedVersion == 0 && r.value.tree == None
                          else r.value.loadedVersion in history && r.value.tree == history[r.value.loadedVersion]
      ensures r.Some? && target.Some? ==> r.value.loadedVersion == target.value
      ensures r.Some? && target.None? && history != map[] ==> Latest(history.Keys, r.value.loadedVersion)
      ensures r.Some? && AgedHistory(H, nodeDb.db, history, seen) ==> r.value.IsAged()
    {
      hide IavlDb.Rep, IavlDb.GetVersions, Aged, AgedHistory;
      RecordsAreHistory(H, nodeDb.db, history, seen);
      var versions := GetVersions(nodeDb.db);
      ghost var aged := AgedHistory(H, nodeDb.db, history, seen);
      if target.Some? && GetRootHash(nodeDb.db, target.value).None? {
        return None;
      }
      if target.None? && versions == {} {
        if aged { LoadedIsAged(H, nodeDb.db, history, seen, 0, versions); }
        var empty := new Tree.Of(H, code, nodeDb, None, 0, versions, None, history, seen);
        return Some(empty);
      }
      var version: nat;
      if target.Some? {
        version := target.value;
      } else {
        version := Last(versions);
      }
      if aged { LoadedIsAged(H, nodeDb.db, history, seen, version, versions); }
      var root := LoadRoot(H, nodeDb, version, history[version]);
      var tree := new Tree.Of(H, code, nodeDb, root, version, versions, history[version], history, seen);
      r := Some(tree);
    }

    method RootHash() returns (hash: Hash)
      requires Stands()
      ensures hash == RootHashOf(H, tree)
    {
      if root.Some? {
        RepHash(H, nodeDb.db, root.value, tree.value);
        hash := NodeHash(H, root.value);
      } else {
        hash := EmptyHash(H);
      }
    }

    method Get(key: Bytes) returns (r: Option<Bytes>)
      requires Readable()
      ensures r == Lookup(ContentsOf(tree), key)
    {
      if root.None? {
        return None;
      }
      GetReadsContents(tree.value, key);
      r := RecursiveGet(H, nodeDb.db, root.value, key, tree.value);
    }

    /** Nothing that an insertion of `key` would move is out of memory. */
    ghost predicate IsSafe(key: Bytes, value: Bytes)
      reads this
    {
      SafeOf(code.caseTwo, tree, RootLoads(root), key, value, loadedVersion + 1)
    }

    /** The next insertion is the first under its version, into an empty or regular tree, and nothing that
        is hashed for its lookups collides with what has been hashed. */
    ghost predicate IsFresh(key: Bytes, value: Bytes)
      reads this, nodeDb
    {
      && IsAged() && AtHead() && RegularOf(tree)
      && NoCollisions(H, seen + ProbedOf(H, code.caseTwo, tree, key, value, loadedVersion + 1))
    }

    /** Then the database is blind to the trees under way. */
    lemma FreshBlind(key: Bytes, value: Bytes)
      requires Valid() && IsFresh(key, value)
      ensures BlindOf(H, nodeDb.db, code.caseTwo, tree, key, value, loadedVersion + 1)
    {
      hide Dated, Regular, Probed, Blind, IavlHash.NoCollisions;
      if tree.Some? {
        var all := seen + Probed(H, code.caseTwo, tree.value, key, value, loadedVersion + 1);
        FreshIsBlind(H, nodeDb.db, code.caseTwo, tree.value, key, value, loadedVersion + 1, history.Keys, seen, all);
      }
    }

    /** The root replaced by the outcome of an insertion. */
    method Install(node: Node, ghost t: Avl, ghost key: Bytes, ghost value: Bytes)
      requires Valid() && Rep(H, nodeDb.db, node, t) && Sound(H, t, Preimages(H, t))
      requires Put'(View(), key, value, View().(root := Some(t)))
      modifies this`root, this`tree, this`seen
      ensures Valid() && root == Some(node) && tree == Some(t) && seen == old(seen) + Preimages(H, t)
      ensures old(IsAged()) ==> IsAged()
    {
      hide Put', Aged, IavlHash.Preimages;
      ghost var before := View();
      root, tree := Some(node), Some(t);
      seen := seen + Preimages(H, t);
      KeptWider(H, nodeDb.db, history, old(seen), seen);
      if old(IsAged()) { PutKeepsAged(H, before, key, value, View(), history, old(seen), seen); }
    }

    /** The root after an insertion, not installed yet. */
    method Insert(key: Bytes, value: Bytes) returns (node: Option<Node>, ghost t: Avl)
      requires Valid() && loadedVersion < MAX_U32
      ensures node.Some? ==> Rep(H, nodeDb.db, node.value, t) && SearchTree(t) && Encodable(t)
      ensures node.Some? ==> Contents(t) == ContentsOf(tree)[key := value] && Stamps(t) == StampsOf(tree)[key := loadedVersion + 1]
      ensures node.Some? ==> Put'(View(), key, value, View().(root := Some(t)))
      ensures Exact(code, IsSafe(key, value)) ==>
                && (if node.Some? then Some(t) else None) == SetOf(code.caseTwo, tree, key, value, loadedVersion + 1)
                && (node.Some? ==> LoadsOf(node.value) == SetLoadsOf(code.caseTwo, tree, RootLoads(root), key, value, loadedVersion + 1))
      ensures code.order.SlotHash? && BlindOf(H, nodeDb.db, code.caseTwo, tree, key, value, loadedVersion + 1) ==>
                (node.Some? <==> SetOf(code.caseTwo, tree, key, value, loadedVersion + 1).Some? && IsSafe(key, value))
    {
      hide IavlRuns.Kept, IavlDb.Rep, IavlSpec.Set, IavlSpec.Contents, IavlSpec.Stamps, IavlSpec.SearchTree, LoadsOf, Safe, Blind, SetLoads, SetNode;
      if root.None? {
        FirstLeaf(H, nodeDb.db, key, value, loadedVersion + 1);
        node, t := Some(LeafNode(key, value, loadedVersion + 1)), Leaf(key, value, loadedVersion + 1);
      } else {
        node, t := RecursiveSet(H, code, nodeDb.db, root.value, key, value, loadedVersion + 1, tree.value);
        if code.order.SlotHash? && Blind(H, nodeDb.db, code.caseTwo, tree.value, key, value, loadedVersion + 1) {
          StaleInsertExactly(H, code.caseTwo, nodeDb.db, root.value, tree.value, key, value, loadedVersion + 1);
        }
      }
    }

    /** `false` is a panic, after which nothing is promised and nothing has been stored. If the code
        reads straight, or moves only what is in memory, this is the insertion into the tree; and if the
        database has none of the trees under way, as where `IsFresh`, it panics when it would move anything
        else. The program as written then returns exactly as forecast from the tree and what is in memory. */
    method Set(key: Bytes, value: Bytes) returns (ok: bool)
      requires Valid() && loadedVersion < MAX_U32
      modifies this`root, this`tree, this`seen
      ensures Valid() && (old(IsAged()) ==> IsAged())
      ensures !ok ==> View() == old(View()) && root == old(root)
      ensures ok ==> Put'(old(View()), key, value, View())
      ensures ok ==> ContentsOf(tree) == old(ContentsOf(tree))[key := value]
      ensures ok ==> StampsOf(tree) == old(StampsOf(tree))[key := loadedVersion + 1]
      ensures ok ==> seen == old(seen) + Preimages(H, tree.value)
      ensures Exact(code, old(IsSafe(key, value))) ==>
                && (if ok then tree else None) == SetOf(code.caseTwo, old(tree), key, value, loadedVersion + 1)
                && (ok ==> RootLoads(root) == SetLoadsOf(code.caseTwo, old(tree), RootLoads(old(root)), key, value, loadedVersion + 1))
      ensures code.order.SlotHash? && BlindOf(H, nodeDb.db, code.caseTwo, old(tree), key, value, loadedVersion + 1) ==>
                (ok <==> SetOf(code.caseTwo, old(tree), key, value, loadedVersion + 1).Some? && old(IsSafe(key, value)))
      ensures code.order.SlotHash? && old(IsFresh(key, value)) ==>
                (ok <==> SetOf(code.caseTwo, old(tree), key, value, loadedVersion + 1).Some? && old(IsSafe(key, value)))
      ensures code == AS_WRITTEN && old(IsFresh(key, value)) ==>
                (ok <==> !ForecastOf(old(tree), key).Panics? && old(IsSafe(key, value)))
    {
      hide IavlDb.Rep, IavlRuns.Kept, IavlRuns.Inv, IavlSpec.Stamps, IavlSpec.Contents, Put', SetOf, SafeOf, BlindOf, SetLoadsOf, LoadsOf, ForecastOf, IsAged, IsFresh;
      if IsFresh(key, value) {
        FreshBlind(key, value);
        FreshReturns(key, value);
      }
      var node, t := Insert(key, value);
      if node.None? {
        return false;
      }
      Install(node.value, t, key, value);
      ok := true;
    }

    lemma FreshReturns(key: Bytes, value: Bytes)
      requires IsFresh(key, value)
      ensures SetOf(AsWritten, tree, key, value, loadedVersion + 1).Some? <==> !ForecastOf(tree, key).Panics?
    {
      hide Aged, Regular;
      if tree.Some? { RegularReturns(tree.value, key, value, loadedVersion + 1); }
    }

    /** Takes over a root, and counts its version among the known ones; no root record is written. */
    method Update(root: Option<Node>, version: nat, ghost tree: Option<Avl>)
      modifies this
      ensures this.root == root && this.tree == tree && loadedVersion == version
      ensures versions == old(versions) + {version} && history == old(history) && seen == old(seen)
    {
      this.root, this.tree := root, tree;
      loadedVersion := version;
      versions := versions + {version};
    }

    /** The next version exists already: accepted, writing nothing, if it is this very tree. */
    method Resave(version: nat) returns (r: SaveResult)
      requires Valid() && version == loadedVersion + 1 && version in history
      modifies this
      ensures tree == old(tree) && seen == old(seen) && history == old(history) && versions == old(versions)
      ensures Save'(H, old(View()), View()) && history == Recorded(old(history), old(View()), Save)
      ensures NoCollisions(H, seen) ==> Valid() && (r.SavedAs? <==> history[version] == tree)
      ensures r.SavedAs? <==> GetRootHash(nodeDb.db, version) == Some(RootHashOf(H, tree))
      ensures r.SavedAs? ==> r == SavedAs(RootHashOf(H, tree), version) && loadedVersion == version
      ensures r.Overwrite? ==> loadedVersion == old(loadedVersion)
    {
      hide IavlHash.RootHash, IavlDb.InDb, IavlRuns.Kept;
      var working := RootHash();
      if NoCollisions(H, seen) { RecordedHashTells(H, nodeDb.db, history, version, tree, seen); }
      if GetRootHash(nodeDb.db, version) != Some(working) {
        return Overwrite;
      }
      loadedVersion := version;
      if root.Some? {
        if NoCollisions(H, seen) { ClearedStands(H, nodeDb.db, root.value, history, version, seen); }
        root := Some(Unlinked(root.value));
      }
      r := SavedAs(working, version);
    }

    /** The next version is new: its nodes, then its root record. */
    method Record(version: nat) returns (hash: Hash)
      requires Valid() && version == loadedVersion + 1 && version !in history
      modifies this, nodeDb
      ensures tree == old(tree) && seen == old(seen) && hash == RootHashOf(H, tree)
      ensures loadedVersion == version && history == old(history)[version := tree]
      ensures Save'(H, old(View()), View()) && history == Recorded(old(history), old(View()), Save)
      ensures NoCollisions(H, seen) ==> Valid()
    {
      hide IavlHash.RootHash, IavlDb.Rep, IavlDb.InDb, IavlRuns.SaveWrites, IavlRuns.Kept, SoundRoot;
      hash := WriteVersion(version);
      history := history[version := tree];
      versions := versions + {version};
      loadedVersion := version;
    }

    method WriteVersion(version: nat) returns (hash: Hash)
      requires Valid() && version !in history
      modifies this`root, nodeDb
      ensures hash == RootHashOf(H, tree)
      ensures NoCollisions(H, seen) ==>
                RootRep(H, nodeDb.db, root, tree) && Kept(H, nodeDb.db, history[version := tree], seen)
      ensures Wrote(H, old(nodeDb.db), tree, version, nodeDb.db)
    {
      hide IavlHash.RootHash, IavlDb.InDb, IavlDb.HoldsNodesOf, IavlDb.Covers, IavlRuns.Kept;
      hash := RootHash();
      if root.Some? {
        hash := RecordNodes();
      }
      ghost var db := nodeDb.db;
      nodeDb.SaveVersion(version, hash);
      RecordedStands(H, old(nodeDb.db), db, tree, root, version, history, seen);
    }

    /** `save_tree` of the root: its missing nodes written, its children let go. */
    method RecordNodes() returns (hash: Hash)
      requires Valid() && root.Some?
      modifies this`root, nodeDb
      ensures hash == RootHashOf(H, tree) && root == Some(Collapse(H, tree.value))
      ensures WroteNodes(H, old(nodeDb.db), tree, nodeDb.db)
    {
      ghost var w := Written(root.value, RootHashOf(H, tree));
      WrittenCovers(H, nodeDb.db, root.value, tree.value);
      RepHash(H, nodeDb.db, root.value, tree.value);
      var cleared;
      hash, cleared := nodeDb.SaveTree(H, root.value);
      root := Some(cleared);
      assert SaveWrites(H, old(nodeDb.db), tree, w) && nodeDb.db == old(nodeDb.db) + w;
    }

    twostate lemma SavedStaysAged()
      requires old(Valid() && IsAged()) && Save'(H, old(View()), View()) && seen == old(seen)
      requires history == Recorded(old(history), old(View()), Save)
      ensures IsAged()
    {
      hide Aged, IavlRuns.Inv, Save', Recorded;
      SaveKeepsAged(H, old(View()), View(), old(history), seen);
    }

    /** Records the tree as the next version, or finds that very tree there already; otherwise refuses. */
    method SaveVersion() returns (r: SaveResult)
      requires Valid()
      modifies this, nodeDb
      ensures tree == old(tree) && seen == old(seen)
      ensures history == Recorded(old(history), old(View()), Save)
      ensures r.SavedAs? ==> r == SavedAs(RootHashOf(H, tree), loadedVersion) && loadedVersion == old(loadedVersion) + 1
      ensures r.Overwrite? ==> View() == old(View()) && loadedVersion + 1 in old(history)
      ensures Save'(H, old(View()), View())
      ensures NoCollisions(H, seen) ==> Valid()
      ensures NoCollisions(H, seen) ==>
                (r.SavedAs? <==> old(loadedVersion) + 1 !in old(history) || old(history)[old(loadedVersion) + 1] == old(tree))
      ensures NoCollisions(H, seen) && r.SavedAs? ==> loadedVersion in history && history[loadedVersion] == tree
      ensures (old(IsAged()) ==> IsAged()) && (old(IsLatest()) && r.SavedAs? ==> IsLatest())
    {
      hide RootRep, IavlHash.RootHash, IavlRuns.Kept, SoundRoot, Save', IsAged, GetRootHash;
      var version := loadedVersion + 1;
      if version in versions {
        r := Resave(version);
      } else {
        var hash := Record(version);
        r := SavedAs(hash, version);
      }
      if old(IsAged()) { SavedStaysAged(); }
    }
  }

  ghost predicate WroteNodes(H: Hasher, db: Db, tree: Option<Avl>, db': Db)
  {
    exists w :: SaveWrites(H, db, tree, w) && db' == db + w
  }

  /** `db'` is `db` with the tree's missing nodes and its root record added. */
  ghost predicate Wrote(H: Hasher, db: Db, tree: Option<Avl>, version: nat, db': Db)
  {
    exists w :: SaveWrites(H, db, tree, w) && db' == (db + w)[RootKey(version) := RootHashOf(H, tree)]
  }

  lemma RecordedStands(H: Hasher, db: Db, mid: Db, tree: Option<Avl>, root: Option<Node>, version: nat,
                       h: map<nat, Option<Avl>>, seen: set<Bytes>)
    requires Kept(H, db, h, seen) && SoundRoot(H, tree, seen) && [] in seen && version !in h
    requires if tree.Some? then root == Some(Collapse(H, tree.value)) && WroteNodes(H, db, tree, mid)
             else root == None && mid == db
    ensures Wrote(H, db, tree, version, mid[RootKey(version) := RootHashOf(H, tree)])
    ensures NoCollisions(H, seen) ==>
              var db' := mid[RootKey(version) := RootHashOf(H, tree)];
              RootRep(H, db', root, tree) && Kept(H, db', h[version := tree], seen)
  {
    assert tree.None? ==> SaveWrites(H, db, tree, map[]) && mid == db + map[];
    var w :| SaveWrites(H, db, tree, w) && mid == db + w;
    if NoCollisions(H, seen) {
      SaveKeepsVersions(H, db, tree, version, w, h, seen);
      HeldStands(H, mid[RootKey(version) := RootHashOf(H, tree)], h[version := tree], version, seen);
    }
  }

  /** What `root` stands for with this database behind it. */
  ghost predicate RootRep(H: Hasher, db: Db, root: Option<Node>, tree: Option<Avl>)
  {
    (root.Some? <==> tree.Some?) && (root.Some? ==> Rep(H, db, root.value, tree.value))
  }

  /** `root` is what comes out of the database for a saved tree: its root node, no child loaded. */
  ghost predicate RootLoaded(H: Hasher, root: Option<Node>, saved: Option<Avl>)
  {
    root == if saved.Some? then Some(Collapse(H, saved.value)) else None
  }

  /** `get_root_node` of a version that is held. */
  method LoadRoot(H: Hasher, nodeDb: NodeDB, version: nat, ghost saved: Option<Avl>) returns (root: Option<Node>)
    requires Holds(H, nodeDb.db, version, saved)
    ensures RootRep(H, nodeDb.db, root, saved) && RootLoaded(H, root, saved)
  {
    var hash := GetRootHash(nodeDb.db, version).value;
    root := None;
    if hash != EmptyHash(H) {
      LoadedStandsFor(H, nodeDb.db, saved.value);
      root := GetNode(nodeDb.db, hash);
    }
  }

  /** The last of a sorted set. */
  method Last(versions: set<nat>) returns (v: nat)
    requires versions != {}
    ensures Latest(versions, v)
  {
    v :| v in versions;
    var rest := versions - {v};
    while rest != {}
      invariant v in versions && rest <= versions && v !in rest
      invariant forall w :: w in versions && w !in rest ==> w <= v
      decreases |rest|
    {
      var w :| w in rest;
      rest := rest - {w};
      if v < w { v := w; }
    }
  }

  /** The recorded hash of a version is that of `root` exactly when the version is `root`. */
  lemma RecordedHashTells(H: Hasher, db: Db, h: map<nat, Option<Avl>>, v: nat, root: Option<Avl>, seen: set<Bytes>)
    requires NoCollisions(H, seen) && [] in seen && Kept(H, db, h, seen) && v in h && SoundRoot(H, root, seen)
    ensures GetRootHash(db, v) == Some(RootHashOf(H, root)) <==> h[v] == root
  {
    assert Holds(H, db, v, h[v]) && SoundRoot(H, h[v], seen);
    if RootHashOf(H, h[v]) == RootHashOf(H, root) { RootHashOfDetermines(H, h[v], root, seen); }
  }

  lemma ClearedStands(H: Hasher, db: Db, root: Node, h: map<nat, Option<Avl>>, v: nat, seen: set<Bytes>)
    requires Kept(H, db, h, seen) && v in h && h[v].Some? && Rep(H, db, root, h[v].value)
    ensures Rep(H, db, Unlinked(root), h[v].value)
  {
    HeldStands(H, db, h, v, seen);
    RepHash(H, db, root, h[v].value);
  }

  /** A held version, read back, stands for its tree. */
  lemma HeldStands(H: Hasher, db: Db, h: map<nat, Option<Avl>>, v: nat, seen: set<Bytes>)
    requires Kept(H, db, h, seen) && v in h
    ensures h[v].Some? ==> Rep(H, db, Collapse(H, h[v].value), h[v].value)
  {
    assert Holds(H, db, v, h[v]);
    if h[v].Some? { LoadedStandsFor(H, db, h[v].value); }
  }
}
