/** Row identifiers of the record tables, their tuple orders, and the bounds that the
    store scans them with. */
module Tables {
  import opened Bytes
  import opened Bounds

  type Id32 = b: Bytes | |b| == 32 witness Repeat(0, 32)

  const ZEROS: Id32 := Repeat(0, 32)
  const ONES: Id32 := Repeat(255, 32)

  /** Key of the records table; compared element by element. */
  datatype RecordsId = RecordsId(ns: Id32, author: Id32, key: Bytes)

  /** Key of the by-key index; compared element by element. */
  datatype ByKeyId = ByKeyId(ns: Id32, key: Bytes, author: Id32)

  predicate IdLess(a: RecordsId, b: RecordsId) {
    Less(a.ns, b.ns) || (a.ns == b.ns && (Less(a.author, b.author) || (a.author == b.author && Less(a.key, b.key))))
  }

  predicate ByKeyLess(a: ByKeyId, b: ByKeyId) {
    Less(a.ns, b.ns) || (a.ns == b.ns && (Less(a.key, b.key) || (a.key == b.key && Less(a.author, b.author))))
  }

  datatype Bound<T> = Included(at: T) | Excluded(at: T) | Unbounded

  predicate InRecords(start: Bound<RecordsId>, end: Bound<RecordsId>, id: RecordsId) {
    && (match start
        case Included(s) => !IdLess(id, s)
        case Excluded(s) => IdLess(s, id)
        case Unbounded => true)
    && (match end
        case Included(e) => !IdLess(e, id)
        case Excluded(e) => IdLess(id, e)
        case Unbounded => true)
  }

  predicate InByKey(start: Bound<ByKeyId>, end: Bound<ByKeyId>, id: ByKeyId) {
    && (match start
        case Included(s) => !ByKeyLess(id, s)
        case Excluded(s) => ByKeyLess(s, id)
        case Unbounded => true)
    && (match end
        case Included(e) => !ByKeyLess(e, id)
        case Excluded(e) => ByKeyLess(id, e)
        case Unbounded => true)
  }

  datatype KeyFilter = AnyKey | ExactKey(key: Bytes) | KeyPrefix(prefix: Bytes)

  predicate KeyMatches(f: KeyFilter, key: Bytes) {
    match f
    case AnyKey => true
    case ExactKey(k) => k == key
    case KeyPrefix(p) => p <= key
  }

  /** The keys the bounds built from a filter admit: the matching ones, and the strays
      of a prefix that ends in 255 bytes after a smaller byte. */
  predicate KeyReached(f: KeyFilter, key: Bytes) {
    KeyMatches(f, key) || (f.KeyPrefix? && Stray(f.prefix, key))
  }

  /** Bounds are exact for every filter but a prefix ending in, but not made of, 255 bytes. */
  predicate ExactBounds(f: KeyFilter) {
    f.KeyPrefix? ==> f.prefix == [] || f.prefix[|f.prefix| - 1] != 255 || AllMax(f.prefix)
  }

  function NamespaceStart(ns: Id32): Bound<RecordsId> {
    Included(RecordsId(ns, ZEROS, []))
  }

  function NamespaceEnd(ns: Id32): Bound<RecordsId> {
    var (ok, next) := Increment(ns);
    if ok then Excluded(RecordsId(next, ZEROS, [])) else Unbounded
  }

  function AuthorKeyStart(ns: Id32, author: Id32, f: KeyFilter): Bound<RecordsId> {
    match f
    case AnyKey => Included(RecordsId(ns, author, []))
    case ExactKey(k) => Included(RecordsId(ns, author, k))
    case KeyPrefix(p) => Included(RecordsId(ns, author, p))
  }

  function AuthorKeyEnd(ns: Id32, author: Id32, f: KeyFilter): Bound<RecordsId> {
    if f.ExactKey? then AuthorKeyStart(ns, author, f)
    else
      var (keyOk, keyEnd) := Increment(AuthorKeyStart(ns, author, f).at.key);
      var (authorOk, authorEnd) := Increment(author);
      if keyOk then Excluded(RecordsId(ns, author, keyEnd))
      else if authorOk then Excluded(RecordsId(ns, authorEnd, []))
      else NamespaceEnd(ns)
  }

  function ByKeyStart(ns: Id32, f: KeyFilter): Bound<ByKeyId> {
    match f
    case AnyKey => Included(ByKeyId(ns, [], ZEROS))
    case ExactKey(k) => Included(ByKeyId(ns, k, ZEROS))
    case KeyPrefix(p) => Included(ByKeyId(ns, p, ZEROS))
  }

  function ByKeyNamespaceEnd(ns: Id32): Bound<ByKeyId> {
    var (ok, next) := Increment(ns);
    if ok then Excluded(ByKeyId(next, [], ZEROS)) else Unbounded
  }

  function ByKeyEnd(ns: Id32, f: KeyFilter): Bound<ByKeyId> {
    match f
    case AnyKey => ByKeyNamespaceEnd(ns)
    case ExactKey(k) => Included(ByKeyId(ns, k, ONES))
    case KeyPrefix(p) =>
      var (ok, next) := Increment(p);
      if ok then Excluded(ByKeyId(ns, next, ZEROS)) else ByKeyNamespaceEnd(ns)
  }

  // ---- orders ----

  lemma {:induction false} LessConcat(x: Bytes, y: Bytes, u: Bytes, v: Bytes)
    requires |x| == |y|
    ensures Less(x + u, y + v) <==> Less(x, y) || (x == y && Less(u, v))
  {
    if x == [] {
      assert x + u == u && y + v == v;
    } else {
      LessConcat(x[1..], y[1..], u, v);
      assert (x + u)[1..] == x[1..] + u && (y + v)[1..] == y[1..] + v;
      assert x == [x[0]] + x[1..] && y == [y[0]] + y[1..];
    }
  }

  /** The identifier as the peers see it: namespace, author and key in one string. */
  function Flat(id: RecordsId): Bytes {
    id.ns + id.author + id.key
  }

  /** The byte order of flat identifiers is the tuple order of the table. */
  lemma FlatOrder(a: RecordsId, b: RecordsId)
    ensures Less(Flat(a), Flat(b)) <==> IdLess(a, b)
    ensures Flat(a) == Flat(b) ==> a == b
  {
    hide Less;
    assert Flat(a) == a.ns + (a.author + a.key) && Flat(b) == b.ns + (b.author + b.key);
    LessConcat(a.ns, b.ns, a.author + a.key, b.author + b.key);
    LessConcat(a.author, b.author, a.key, b.key);
    if Flat(a) == Flat(b) {
      assert a.ns == Flat(a)[..32] && b.ns == Flat(b)[..32];
      assert a.author == Flat(a)[32..64] && b.author == Flat(b)[32..64];
      assert a.key == Flat(a)[64..] && b.key == Flat(b)[64..];
    }
  }

  // ---- what the bounds reach ----

  /** At equal length the increment is the successor. */
  lemma IncrementIsSuccessor(b: Bytes, x: Bytes)
    requires |x| == |b|
    ensures Increment(b).0 ==> (Less(x, Increment(b).1) <==> !Less(b, x))
    ensures !Increment(b).0 ==> !Less(b, x)
  {
    IncrementMax(b);
    if AllMax(b) {
      MaxIsTop(b, x);
      LessIsTotalOrder(b, b, b);
    } else {
      PrefixReach(b, x);
      PrefixReach(b, b);
      LessIsTotalOrder(x, b, Increment(b).1);
      LessIsTotalOrder(b, x, x);
    }
  }

  lemma ZerosLeast(x: Bytes)
    ensures !Less(x, []) && (|x| == 32 ==> !Less(x, ZEROS) && !Less(ONES, x))
  {
    BelowZeros(x, 32);
    if |x| == 32 {
      IncrementMax(ONES);
      IncrementIsSuccessor(ONES, x);
    }
  }

  /** The namespace bounds hold exactly the namespace's records. */
  lemma NamespaceReach(ns: Id32, id: RecordsId)
    ensures InRecords(NamespaceStart(ns), NamespaceEnd(ns), id) <==> id.ns == ns
  {
    hide Less, Increment, Rank;
    OrderFacts();
    IncrementIsSuccessor(ns, id.ns);
    ZerosLeast(id.author);
    ZerosLeast(id.key);
  }

  /** Author and key bounds hold exactly the author's records with a reached key. */
  lemma AuthorKeyReach(ns: Id32, author: Id32, f: KeyFilter, id: RecordsId)
    ensures InRecords(AuthorKeyStart(ns, author, f), AuthorKeyEnd(ns, author, f), id)
      <==> id.ns == ns && id.author == author && KeyReached(f, id.key)
  {
    hide Less, Increment, Rank, Stray;
    OrderFacts();
    IncrementIsSuccessor(ns, id.ns);
    IncrementIsSuccessor(author, id.author);
    ZerosLeast(id.author);
    ZerosLeast(id.key);
    if !f.ExactKey? {
      FilterReach(f, id.key);
    }
  }

  /** The key range of a filter, for the cases with and without an upper key bound. */
  lemma FilterReach(f: KeyFilter, key: Bytes)
    requires !f.ExactKey?
    ensures var p := if f.AnyKey? then [] else f.prefix;
      && (Increment(p).0 ==> (Leq(p, key) && Less(key, Increment(p).1) <==> KeyReached(f, key)))
      && (!Increment(p).0 ==> (Leq(p, key) <==> KeyReached(f, key)))
  {
    var p := if f.AnyKey? then [] else f.prefix;
    IncrementMax(p);
    if AllMax(p) {
      MaxIsTop(p, key);
      NoStray(f);
    } else {
      PrefixReach(p, key);
    }
  }

  /** With exact bounds nothing but the matching keys is reached. */
  lemma NoStray(f: KeyFilter)
    requires ExactBounds(f)
    ensures forall key :: KeyReached(f, key) <==> KeyMatches(f, key)
  {
    if f.KeyPrefix? && f.prefix != [] {
      var p := f.prefix;
      assert p == [p[0]] + p[1..];
      TrailingMaxCons(p[0], p[1..]);
      assert AllMax(p) <==> p[0] == 255 && AllMax(p[1..]);
    }
  }

  /** By-key bounds hold exactly the namespace's index rows with a reached key. */
  lemma ByKeyReach(ns: Id32, f: KeyFilter, id: ByKeyId)
    ensures InByKey(ByKeyStart(ns, f), ByKeyEnd(ns, f), id) <==> id.ns == ns && KeyReached(f, id.key)
  {
    hide Less, Increment, Rank, Stray;
    OrderFacts();
    IncrementIsSuccessor(ns, id.ns);
    ZerosLeast(id.author);
    ZerosLeast(id.key);
    if !f.ExactKey? {
      FilterReach(f, id.key);
    }
  }

  /** A prefix whose bounds are not exact: its own strays are reached but do not match. */
  lemma StrayExample()
    ensures KeyReached(KeyPrefix([1, 255]), [2]) && !KeyMatches(KeyPrefix([1, 255]), [2])
    ensures !ExactBounds(KeyPrefix([1, 255]))
  {
    var p: Bytes := [1, 255];
    assert p[..1] == [1];
    assert TrailingMax([1]) == 0;
    assert TrailingMax(p) == 1;
    assert p[..0] + [p[0] + 1] + Repeat(0, 0) == [2];
  }

  /** Bounds are exact if and only if the prefix does not end in 255 bytes after a
      smaller byte. */
  lemma ExactBoundsExactly(f: KeyFilter)
    ensures ExactBounds(f) <==> forall key :: KeyReached(f, key) ==> KeyMatches(f, key)
  {
    if ExactBounds(f) {
      NoStray(f);
    } else {
      var p := f.prefix;
      var m := TrailingMax(p);
      assert p == [p[0]] + p[1..];
      TrailingMaxCons(p[0], p[1..]);
      assert AllMax(p) <==> p[0] == 255 && AllMax(p[1..]);
      var q := |p| - m - 1;
      TrailingMaxStops(p);
      var stray := p[..q] + [p[q] + 1] + Repeat(0, 0);
      assert Stray(p, stray);
      assert KeyReached(f, stray) && !KeyMatches(f, stray);
    }
  }

  lemma {:induction false} TrailingMaxStops(p: Bytes)
    requires TrailingMax(p) < |p|
    ensures p[|p| - TrailingMax(p) - 1] < 255
  {
    if p[|p| - 1] == 255 {
      TrailingMaxStops(p[..|p| - 1]);
    }
  }
}
