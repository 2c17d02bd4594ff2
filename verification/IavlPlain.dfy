/** The store as its callers see it: a map under versions, and under which version each key was last written.
    Every run of the tree over its database is a run of that. */
module IavlPlain {
  import opened ByteStrings
  import opened IavlNode
  import opened IavlSpec
  import opened IavlHash
  import opened IavlDb
  import opened IavlRuns

  /** What each key holds, and the version it was last written under. */
  datatype Book = Book(values: Pairs, written: map<Bytes, nat>)

  /** What is at work, the version it follows, and what was saved under each version. */
  datatype Plain = Plain(now: Book, loaded: nat, saved: map<nat, Book>)

  const EMPTY_BOOK := Book(map[], map[])

  /** A write is made under the next version. A save takes it; if it is taken, it is refused, or accepted as the
      very same. A version opened is at work as it was saved; the latest if none is named. */
  ghost predicate PlainNext(p: Plain, op: Op, p': Plain)
  {
    match op
    case Put(key, value) =>
      p' == p.(now := Book(p.now.values[key := value], p.now.written[key := p.loaded + 1]))
    case Save =>
      var version := p.loaded + 1;
      if version !in p.saved then p' == Plain(p.now, version, p.saved[version := p.now])
      else p' == p || (p' == p.(loaded := version) && p.saved[version] == p.now)
    case Open(Some(v)) =>
      p' == if v in p.saved then Plain(p.saved[v], v, p.saved) else p
    case Open(None) =>
      if p.saved == map[] then p' == Plain(EMPTY_BOOK, 0, map[])
      else Latest(p.saved.Keys, p'.loaded) && p' == Plain(p.saved[p'.loaded], p'.loaded, p.saved)
  }

  function BookOf(root: Option<Avl>): Book
  {
    Book(ContentsOf(root), StampsOf(root))
  }

  function BooksOf(h: map<nat, Option<Avl>>): map<nat, Book>
  {
    map v | v in h :: BookOf(h[v])
  }

  function PlainOf(s: State, h: map<nat, Option<Avl>>): Plain
  {
    Plain(BookOf(s.root), s.loaded, BooksOf(h))
  }

  lemma PutIsPlain(s: State, key: Bytes, value: Bytes, s': State, h: map<nat, Option<Avl>>)
    requires Put'(s, key, value, s')
    ensures PlainNext(PlainOf(s, h), Put(key, value), PlainOf(s', h))
  {
    hide SearchTree, Encodable, BooksOf;
  }

  lemma SaveIsPlain(H: Hasher, s: State, s': State, h: map<nat, Option<Avl>>, seen: set<Bytes>)
    requires Inv(H, s, h, seen) && Save'(H, s, s') && NoCollisions(H, seen) && [] in seen
    ensures PlainNext(PlainOf(s, h), Save, PlainOf(s', Recorded(h, s, Save)))
  {
    hide IavlDb.InDb, SoundRoot, NoCollisions, BookOf, SaveWrites;
    var version := s.loaded + 1;
    if version in h {
      assert Holds(H, s.db, version, h[version]);
      if GetRootHash(s.db, version) == Some(RootHashOf(H, s.root)) { RootHashOfDetermines(H, h[version], s.root, seen); }
    } else {
      assert BooksOf(h[version := s.root]) == BooksOf(h)[version := BookOf(s.root)];
    }
  }

  lemma OpenIsPlain(H: Hasher, s: State, target: Option<nat>, s': State, h: map<nat, Option<Avl>>, seen: set<Bytes>)
    requires Inv(H, s, h, seen) && Open'(H, s, target, s')
    ensures PlainNext(PlainOf(s, h), Open(target), PlainOf(s', h))
  {
    hide IavlDb.InDb, SoundRoot, Holds, Kept, BookOf;
    RecordsAreHistory(H, s.db, h, seen);
    assert BooksOf(h).Keys == h.Keys;
    NoBooks();
    if target.Some? {
      if target.value in h { OpenedIsRecorded(H, s.db, target.value, s'.root, h, seen); }
    } else if h != map[] {
      OpenedIsRecorded(H, s.db, s'.loaded, s'.root, h, seen);
    }
  }

  lemma NoBooks()
    ensures BookOf(None) == EMPTY_BOOK && BooksOf(map[]) == map[]
  {
  }

  /** Every step of every run is a step of the plain store, from an empty one. */
  lemma RunIsPlain(H: Hasher, run: seq<State>, ops: seq<Op>, seen: set<Bytes>, n: nat)
    requires IsRun(H, run, ops) && Accounted(H, run, seen) && n <= |ops|
    ensures PlainOf(run[0], History(run, ops, 0)) == Plain(EMPTY_BOOK, 0, map[])
    ensures n < |ops| ==> PlainNext(PlainOf(run[n], History(run, ops, n)), ops[n], PlainOf(run[n + 1], History(run, ops, n + 1)))
  {
    hide PlainNext, PlainOf, Inv, Put', Save', Open', NoCollisions;
    FirstIsPlain(run[0]);
    if n < |ops| {
      RunKeepsInv(H, run, ops, seen, n);
      assert StepAt(H, run, ops, n);
      match ops[n]
      case Put(key, value) => PutIsPlain(run[n], key, value, run[n + 1], History(run, ops, n));
      case Save => SaveIsPlain(H, run[n], run[n + 1], History(run, ops, n), seen);
      case Open(target) => OpenIsPlain(H, run[n], target, run[n + 1], History(run, ops, n), seen);
    }
  }

  lemma FirstIsPlain(s: State)
    requires Init(s)
    ensures PlainOf(s, map[]) == Plain(EMPTY_BOOK, 0, map[])
  {
  }
}
