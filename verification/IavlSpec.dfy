/** The tree as a value: every subtree present, no cached hash. This is what a node together with
    its database stands for, and where order, contents and balance are stated. */
module IavlSpec {
  import opened ByteStrings
  import opened IavlNode

  datatype Avl =
    | Leaf(key: Bytes, value: Bytes, version: nat)
    | Inner(key: Bytes, height: nat, size: nat, version: nat, left: Avl, right: Avl)
  {
    function GetHeight(): nat
    {
      if Leaf? then 0 else height
    }

    function GetSize(): nat
    {
      if Leaf? then 1 else size
    }
  }

  type Pairs = map<Bytes, Bytes>

  function Max(a: nat, b: nat): nat
  {
    if a < b then b else a
  }

  // ---------------------------------------------------------------- what a tree means

  function Contents(t: Avl): Pairs
  {
    match t
    case Leaf(k, v, _) => map[k := v]
    case Inner(_, _, _, _, l, r) => Contents(l) + Contents(r)
  }

  /** The version each key's leaf was written under. */
  function Stamps(t: Avl): (m: map<Bytes, nat>)
    ensures m.Keys == Contents(t).Keys
  {
    match t
    case Leaf(k, _, version) => map[k := version]
    case Inner(_, _, _, _, l, r) => Stamps(l) + Stamps(r)
  }

  function Entries(t: Avl): seq<(Bytes, Bytes)>
  {
    match t
    case Leaf(k, v, _) => [(k, v)]
    case Inner(_, _, _, _, l, r) => Entries(l) + Entries(r)
  }

  /** A separator is above every key on its left, and is the least key on its right. */
  ghost predicate Splits(left: Pairs, key: Bytes, right: Pairs)
  {
    && (forall k :: k in left ==> Less(k, key))
    && (forall k :: k in right ==> AtMost(key, k))
    && key in right
  }

  ghost predicate SearchTree(t: Avl)
  {
    t.Inner? ==>
      && SearchTree(t.left) && SearchTree(t.right)
      && Splits(Contents(t.left), t.key, Contents(t.right))
  }

  function RealHeight(t: Avl): nat
  {
    if t.Leaf? then 0 else 1 + Max(RealHeight(t.left), RealHeight(t.right))
  }

  function LeafCount(t: Avl): nat
  {
    if t.Leaf? then 1 else LeafCount(t.left) + LeafCount(t.right)
  }

  /** The stored height and size are the real ones, all the way down. */
  predicate Measured(t: Avl)
  {
    t.GetHeight() == RealHeight(t) && t.GetSize() == LeafCount(t) &&
    (t.Inner? ==> Measured(t.left) && Measured(t.right))
  }

  predicate Balanced(t: Avl)
  {
    t.Inner? ==>
      && Balanced(t.left) && Balanced(t.right)
      && -1 <= RealHeight(t.left) - RealHeight(t.right) <= 1
  }

  /** The stored fields fit the widths the node encoding gives them. */
  predicate Encodable(t: Avl)
  {
    t.version <= MAX_U32 &&
    (t.Inner? ==> 1 <= t.height <= MAX_U8 && t.size <= MAX_U32 && Encodable(t.left) && Encodable(t.right))
  }

  // ---------------------------------------------------------------- one insertion

  /** Case 2 of the rebalancing as the program has it, or as its comment says. */
  datatype CaseTwo = AsWritten | LeftChildFirst

  /** `None` is a panic: a failed rotation, or a `u8` height or `u32` size that overflows. */
  function Join(key: Bytes, version: nat, left: Avl, right: Avl): Option<Avl>
  {
    var height := 1 + Max(left.GetHeight(), right.GetHeight());
    var size := left.GetSize() + right.GetSize();
    if height <= MAX_U8 && size <= MAX_U32
    then Some(Inner(key, height, size, version, left, right))
    else None
  }

  function TurnRight(t: Avl, version: nat): Option<Avl>
  {
    if t.Inner? && t.left.Inner? then
      match Join(t.key, version, t.left.right, t.right)
      case None => None
      case Some(z) => Join(t.left.key, version, t.left.left, z)
    else None
  }

  function TurnLeft(t: Avl, version: nat): Option<Avl>
  {
    if t.Inner? && t.right.Inner? then
      match Join(t.key, version, t.left, t.right.left)
      case None => None
      case Some(z) => Join(t.right.key, version, z, t.right.right)
    else None
  }

  /** Case 2, "Left Right": the program rotates the node itself left where its comment (and the
      mirror image, Case 4) rotates the left child. */
  function CaseTwoRotate(c: CaseTwo, t: Avl, version: nat): Option<Avl>
    requires t.Inner?
  {
    if c.AsWritten? then
      match TurnLeft(t, version)
      case None => None
      case Some(t') => TurnRight(t', version)
    else
      match TurnLeft(t.left, version)
      case None => None
      case Some(left') => TurnRight(t.(left := left'), version)
  }

  /** Case 4, "Right Left". */
  function CaseFourRotate(t: Avl, version: nat): Option<Avl>
    requires t.Inner?
  {
    match TurnRight(t.right, version)
    case None => None
    case Some(right') => TurnLeft(t.(right := right'), version)
  }

  function Rebalance(c: CaseTwo, t: Avl, k: Bytes, version: nat): Option<Avl>
    requires t.Inner?
  {
    var balance := t.left.GetHeight() - t.right.GetHeight();
    if balance > 1 then
      if Less(k, t.left.key) then TurnRight(t, version) else CaseTwoRotate(c, t, version)
    else if balance < -1 then
      if Less(t.right.key, k) then TurnLeft(t, version) else CaseFourRotate(t, version)
    else Some(t)
  }

  function SetLeaf(t: Avl, k: Bytes, v: Bytes, version: nat): Avl
    requires t.Leaf?
  {
    if Less(k, t.key) then Inner(t.key, 1, 2, version, Leaf(k, v, version), t)
    else if k == t.key then Leaf(k, v, version)
    else Inner(k, 1, 2, version, t, Leaf(k, v, version))
  }

  function Set(c: CaseTwo, t: Avl, k: Bytes, v: Bytes, version: nat): Option<Avl>
    decreases t, 1
  {
    if t.Leaf? then Some(SetLeaf(t, k, v, version))
    else
      match Grown(c, t, k, v, version)
      case None => None
      case Some(t') => Rebalance(c, t', k, version)
  }

  /** The tree after the recursive insertion and the new measures, before any rotation. */
  function Grown(c: CaseTwo, t: Avl, k: Bytes, v: Bytes, version: nat): (r: Option<Avl>)
    requires t.Inner?
    decreases t, 0
    ensures r.Some? ==> r.value.Inner?
  {
    if Less(k, t.key) then
      match Set(c, t.left, k, v, version)
      case None => None
      case Some(left') => Join(t.key, version, left', t.right)
    else
      match Set(c, t.right, k, v, version)
      case None => None
      case Some(right') => Join(t.key, version, t.left, right')
  }

  function Get(t: Avl, k: Bytes): Option<Bytes>
  {
    match t
    case Leaf(key, value, _) => if key == k then Some(value) else None
    case Inner(key, _, _, _, l, r) => if Less(k, key) then Get(l, k) else Get(r, k)
  }

  function Lookup(m: Pairs, k: Bytes): Option<Bytes>
  {
    if k in m then Some(m[k]) else None
  }

  // ---------------------------------------------------------------- reading

  lemma {:induction false} GetReadsContents(t: Avl, k: Bytes)
    requires SearchTree(t)
    ensures Get(t, k) == Lookup(Contents(t), k)
  {
    if t.Inner? {
      GetReadsContents(t.left, k);
      GetReadsContents(t.right, k);
    }
  }

  lemma {:induction false} EntriesAreContents(t: Avl)
    requires SearchTree(t)
    ensures forall k, v :: (k, v) in Entries(t) <==> k in Contents(t) && Contents(t)[k] == v
  {
    if t.Inner? {
      EntriesAreContents(t.left);
      EntriesAreContents(t.right);
    }
  }

  /** In-order leaf keys are strictly sorted. */
  lemma {:induction false} EntriesAscend(t: Avl)
    requires SearchTree(t)
    ensures forall i, j :: 0 <= i < j < |Entries(t)| ==> Less(Entries(t)[i].0, Entries(t)[j].0)
  {
    if t.Inner? {
      EntriesAscend(t.left);
      EntriesAscend(t.right);
      EntriesAreContents(t.left);
      EntriesAreContents(t.right);
      var n := |Entries(t.left)|;
      forall i, j | 0 <= i < j < |Entries(t)|
        ensures Less(Entries(t)[i].0, Entries(t)[j].0)
      {
        if i < n <= j {
          var (a, x) := Entries(t.left)[i];
          var (b, y) := Entries(t.right)[j - n];
          assert (a, x) in Entries(t.left) && (b, y) in Entries(t.right);
          assert Less(a, t.key) && AtMost(t.key, b);
          LessTotal(a, b);
          if Less(b, a) { LessTransitive(b, a, t.key); }
        }
      }
    }
  }

  // ---------------------------------------------------------------- what rotations keep

  /** The least key, that of the leftmost leaf. */
  function FirstKey(t: Avl): (k: Bytes)
    ensures k in Contents(t)
  {
    if t.Leaf? then t.key else FirstKey(t.left)
  }

  /** `t'` is `t` rotated right, whatever measures were stored on the way. */
  predicate RightRotated(t: Avl, t': Avl)
  {
    && t.Inner? && t.left.Inner? && t'.Inner? && t'.right.Inner?
    && t'.key == t.left.key && t'.left == t.left.left
    && t'.right.key == t.key && t'.right.left == t.left.right && t'.right.right == t.right
  }

  predicate LeftRotated(t: Avl, t': Avl)
  {
    && t.Inner? && t.right.Inner? && t'.Inner? && t'.left.Inner?
    && t'.key == t.right.key && t'.right == t.right.right
    && t'.left.key == t.key && t'.left.left == t.left && t'.left.right == t.right.left
  }

  /** The same search order, contents, and leaves' versions. */
  ghost predicate SameMeaning(t: Avl, t': Avl)
  {
    SearchTree(t') && Contents(t') == Contents(t) && Stamps(t') == Stamps(t)
  }

  lemma RotatedStamps(t: Avl, t': Avl)
    requires RightRotated(t, t') || LeftRotated(t, t')
    ensures Stamps(t') == Stamps(t)
  {
    hide Contents;
    if RightRotated(t, t') {
      MergeAssociates(Stamps(t.left.left), Stamps(t.left.right), Stamps(t.right));
    } else {
      MergeAssociates(Stamps(t.left), Stamps(t.right.left), Stamps(t.right.right));
    }
  }

  lemma MergeAssociates<V>(a: map<Bytes, V>, b: map<Bytes, V>, c: map<Bytes, V>)
    ensures (a + b) + c == a + (b + c)
  {
  }

  lemma MergeUpdated<V>(a: map<Bytes, V>, b: map<Bytes, V>, k: Bytes, v: V)
    ensures k !in b ==> a[k := v] + b == (a + b)[k := v]
    ensures a + b[k := v] == (a + b)[k := v]
  {
  }

  lemma RightRotatedMeansSame(t: Avl, t': Avl)
    requires RightRotated(t, t') && SearchTree(t)
    ensures SameMeaning(t, t')
  {
    RotatedStamps(t, t');
    forall k | k in Contents(t'.right) ensures AtMost(t'.key, k) {
      if k in Contents(t.right) && Less(k, t'.key) {
        LessTransitive(k, t'.key, t.key);
      }
    }
  }

  lemma LeftRotatedMeansSame(t: Avl, t': Avl)
    requires LeftRotated(t, t') && SearchTree(t)
    ensures SameMeaning(t, t')
  {
    RotatedStamps(t, t');
    var r := t.right;
    var below := FirstKey(r.left);
    assert below in Contents(r) && Less(below, r.key) && AtMost(t.key, below);
    if t.key != below { LessTotal(t.key, below); LessTransitive(t.key, below, r.key); }
    forall k | k in Contents(t'.left) ensures Less(k, t'.key) {
      if k in Contents(t.left) {
        LessTotal(t.key, t'.key);
        if t.key != t'.key { LessTransitive(k, t.key, t'.key); }
      }
    }
  }

  // ---------------------------------------------------------------- what an insertion does

  /** `t'` holds what `t` held, updated at `k`, whose leaf alone has the new version. */
  ghost predicate UpdatedAt(t: Avl, k: Bytes, v: Bytes, version: nat, t': Avl)
  {
    SearchTree(t') && Contents(t') == Contents(t)[k := v] && Stamps(t') == Stamps(t)[k := version]
  }

  lemma LeafSetMeans(t: Avl, k: Bytes, v: Bytes, version: nat)
    requires t.Leaf?
    ensures UpdatedAt(t, k, v, version, SetLeaf(t, k, v, version))
  {
    LessTotal(k, t.key);
    LessIrreflexive(k);
    LessIrreflexive(t.key);
  }

  predicate SameButLeft(t: Avl, t': Avl)
  {
    t.Inner? && t'.Inner? && t'.key == t.key && t'.right == t.right
  }

  predicate SameButRight(t: Avl, t': Avl)
  {
    t.Inner? && t'.Inner? && t'.key == t.key && t'.left == t.left
  }

  lemma SplitsAfterUpdate(left: Pairs, key: Bytes, right: Pairs, k: Bytes, v: Bytes)
    requires Splits(left, key, right)
    ensures Less(k, key) ==> Splits(left[k := v], key, right) && left[k := v] + right == (left + right)[k := v]
    ensures AtMost(key, k) ==> Splits(left, key, right[k := v]) && left + right[k := v] == (left + right)[k := v]
  {
  }

  lemma UpdatedStamps(t: Avl, t': Avl, k: Bytes, version: nat)
    requires SearchTree(t)
    requires (SameButLeft(t, t') && Less(k, t.key) && Stamps(t'.left) == Stamps(t.left)[k := version])
             || (SameButRight(t, t') && Stamps(t'.right) == Stamps(t.right)[k := version])
    ensures Stamps(t') == Stamps(t)[k := version]
  {
    MergeUpdated(Stamps(t.left), Stamps(t.right), k, version);
  }

  lemma LeftSetMeans(t: Avl, t': Avl, k: Bytes, v: Bytes, version: nat)
    requires SearchTree(t) && SameButLeft(t, t') && Less(k, t.key)
    requires UpdatedAt(t.left, k, v, version, t'.left)
    ensures UpdatedAt(t, k, v, version, t')
  {
    hide Stamps;
    SplitsAfterUpdate(Contents(t.left), t.key, Contents(t.right), k, v);
    UpdatedStamps(t, t', k, version);
  }

  lemma RightSetMeans(t: Avl, t': Avl, k: Bytes, v: Bytes, version: nat)
    requires SearchTree(t) && SameButRight(t, t') && AtMost(t.key, k)
    requires UpdatedAt(t.right, k, v, version, t'.right)
    ensures UpdatedAt(t, k, v, version, t')
  {
    hide Stamps;
    SplitsAfterUpdate(Contents(t.left), t.key, Contents(t.right), k, v);
    UpdatedStamps(t, t', k, version);
  }

  /** A subtree may be replaced by any other search tree with the same contents. */
  lemma SameContentsBelow(t: Avl, t': Avl)
    requires SearchTree(t) && t.Inner? && t'.Inner? && t'.key == t.key
    requires SameMeaning(t.left, t'.left) && SameMeaning(t.right, t'.right)
    ensures SameMeaning(t, t')
  {
  }

  lemma RotateMeansSame(t: Avl, version: nat)
    requires SearchTree(t)
    ensures TurnRight(t, version).Some? ==> SameMeaning(t, TurnRight(t, version).value)
    ensures TurnLeft(t, version).Some? ==> SameMeaning(t, TurnLeft(t, version).value)
  {
    if TurnRight(t, version).Some? { RightRotatedMeansSame(t, TurnRight(t, version).value); }
    if TurnLeft(t, version).Some? { LeftRotatedMeansSame(t, TurnLeft(t, version).value); }
  }

  lemma CaseTwoMeansSame(c: CaseTwo, t: Avl, version: nat)
    requires t.Inner? && SearchTree(t) && CaseTwoRotate(c, t, version).Some?
    ensures SameMeaning(t, CaseTwoRotate(c, t, version).value)
  {
    if c.AsWritten? {
      RotateMeansSame(t, version);
      RotateMeansSame(TurnLeft(t, version).value, version);
    } else {
      var left' := TurnLeft(t.left, version).value;
      RotateMeansSame(t.left, version);
      SameContentsBelow(t, t.(left := left'));
      RotateMeansSame(t.(left := left'), version);
    }
  }

  lemma CaseFourMeansSame(t: Avl, version: nat)
    requires t.Inner? && SearchTree(t) && CaseFourRotate(t, version).Some?
    ensures SameMeaning(t, CaseFourRotate(t, version).value)
  {
    var right' := TurnRight(t.right, version).value;
    RotateMeansSame(t.right, version);
    SameContentsBelow(t, t.(right := right'));
    RotateMeansSame(t.(right := right'), version);
  }

  lemma RebalanceMeansSame(c: CaseTwo, t: Avl, k: Bytes, version: nat)
    requires t.Inner? && SearchTree(t)
    requires Rebalance(c, t, k, version).Some?
    ensures SameMeaning(t, Rebalance(c, t, k, version).value)
  {
    var t' := Rebalance(c, t, k, version).value;
    var balance := t.left.GetHeight() - t.right.GetHeight();
    if balance > 1 && !Less(k, t.left.key) {
      CaseTwoMeansSame(c, t, version);
    } else if balance < -1 && !Less(t.right.key, k) {
      CaseFourMeansSame(t, version);
    } else if balance > 1 || balance < -1 {
      RotateMeansSame(t, version);
    }
  }

  /** Whenever an insertion returns, with Case 2 either way, the tree holds the old map updated
      at the key, and is still a search tree; every other leaf keeps its version. */
  lemma {:induction false} SetMeansUpdate(c: CaseTwo, t: Avl, k: Bytes, v: Bytes, version: nat)
    requires SearchTree(t) && Set(c, t, k, v, version).Some?
    ensures UpdatedAt(t, k, v, version, Set(c, t, k, v, version).value)
  {
    if t.Leaf? {
      LeafSetMeans(t, k, v, version);
    } else {
      var t' := Grown(c, t, k, v, version).value;
      if Less(k, t.key) {
        SetMeansUpdate(c, t.left, k, v, version);
        LeftSetMeans(t, t', k, v, version);
      } else {
        SetMeansUpdate(c, t.right, k, v, version);
        RightSetMeans(t, t', k, v, version);
      }
      RebalanceMeansSame(c, t', k, version);
    }
  }

  // ---------------------------------------------------------------- stored measures

  lemma RotateMeasured(t: Avl, version: nat)
    requires t.Inner? && Measured(t.left) && Measured(t.right)
    ensures TurnRight(t, version).Some? ==> Measured(TurnRight(t, version).value)
    ensures TurnLeft(t, version).Some? ==> Measured(TurnLeft(t, version).value)
  {
  }

  lemma {:induction false} SetMeasured(c: CaseTwo, t: Avl, k: Bytes, v: Bytes, version: nat)
    requires Measured(t) && Set(c, t, k, v, version).Some?
    ensures Measured(Set(c, t, k, v, version).value)
  {
    if t.Inner? {
      var t' := Grown(c, t, k, v, version).value;
      if Less(k, t.key) {
        SetMeasured(c, t.left, k, v, version);
      } else {
        SetMeasured(c, t.right, k, v, version);
      }
      RebalanceMeasured(c, t', k, version);
    }
  }

  lemma RebalanceMeasured(c: CaseTwo, t: Avl, k: Bytes, version: nat)
    requires t.Inner? && Measured(t) && Rebalance(c, t, k, version).Some?
    ensures Measured(Rebalance(c, t, k, version).value)
  {
    var balance := t.left.GetHeight() - t.right.GetHeight();
    if balance > 1 {
      if Less(k, t.left.key) {
        RotateMeasured(t, version);
      } else if c.AsWritten? {
        RotateMeasured(t, version);
        RotateMeasured(TurnLeft(t, version).value, version);
      } else {
        RotateMeasured(t.left, version);
        RotateMeasured(t.(left := TurnLeft(t.left, version).value), version);
      }
    } else if balance < -1 {
      if Less(t.right.key, k) {
        RotateMeasured(t, version);
      } else {
        RotateMeasured(t.right, version);
        RotateMeasured(t.(right := TurnRight(t.right, version).value), version);
      }
    }
  }

  // ---------------------------------------------------------------- stored versions

  /** No node of `t` was made later than `version`. */
  predicate MadeBy(t: Avl, version: nat)
  {
    t.version <= version && (t.Inner? ==> MadeBy(t.left, version) && MadeBy(t.right, version))
  }

  lemma {:induction false} MadeByLater(t: Avl, version: nat, later: nat)
    requires MadeBy(t, version) && version <= later
    ensures MadeBy(t, later)
  {
    if t.Inner? {
      MadeByLater(t.left, version, later);
      MadeByLater(t.right, version, later);
    }
  }
}
