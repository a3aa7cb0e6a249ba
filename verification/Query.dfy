/** Entry queries: the iterator over the table-backed store, and what it yields. */
module Queries {
  import opened Bytes
  import opened Entries
  import opened Tables
  import opened FsStore
  import opened Basics
  import Sorting

  datatype SortBy = KeyAuthor | AuthorKey

  datatype Direction = Asc | Desc

  datatype AuthorFilter = AnyAuthor | ExactAuthor(author: Id32)

  datatype Kind = FlatQuery(sortBy: SortBy) | SingleLatestPerKey

  datatype Query = Query(
    kind: Kind, author: AuthorFilter, key: KeyFilter,
    limit: Option<nat>, offset: nat, includeEmpty: bool, direction: Direction)

  predicate AuthorMatches(f: AuthorFilter, author: Id32) {
    f.AnyAuthor? || f.author == author
  }

  /** Which table a query scans, and what is left to filter. */
  datatype Plan =
    | ScanRecords(range: AuthorFilter, keyFilter: KeyFilter)
    | ScanIndex(keys: KeyFilter, authorFilter: AuthorFilter, latestPerKey: bool)

  function PlanOf(q: Query): Plan {
    match q.kind
    case FlatQuery(sortBy) =>
      if q.author.AnyAuthor? && sortBy.KeyAuthor? then ScanIndex(q.key, AnyAuthor, false)
      else ScanRecords(q.author, q.key)
    case SingleLatestPerKey => ScanIndex(q.key, q.author, true)
  }

  // ---- what a query means ----

  /** The order of the answer: by (author, key) or by (key, author), in the query's direction. */
  predicate Before(q: Query, a: RecordsId, b: RecordsId) {
    var (x, y) := if q.direction.Asc? then (a, b) else (b, a);
    if PlanOf(q).ScanIndex? then ByKeyLess(IndexRow(x), IndexRow(y)) else IdLess(x, y)
  }

  lemma BeforeIsTotalOrder(q: Query, a: RecordsId, b: RecordsId, c: RecordsId)
    ensures !Before(q, a, a)
    ensures Before(q, a, b) && Before(q, b, c) ==> Before(q, a, c)
    ensures a == b || Before(q, a, b) || Before(q, b, a)
  {
    hide Less, Rank;
    OrderFacts();
  }

  /** The keys a query asks for. A full scan of the records filters them itself; the
      other scans rely on their bounds. */
  predicate KeyWanted(q: Query, key: Bytes) {
    if PlanOf(q).ScanRecords? && q.author.AnyAuthor? then KeyMatches(q.key, key) else KeyReached(q.key, key)
  }

  /** The record passes the author and key filters. */
  predicate Candidate(records: Records, ns: Id32, q: Query, id: RecordsId) {
    id in records && id.ns == ns && AuthorMatches(q.author, id.author) && KeyWanted(q, id.key)
  }

  /** Between two candidates at one key: the later timestamp wins, and on a tie the one
      that comes first in the answer's order. */
  predicate Wins(records: Records, q: Query, id: RecordsId, other: RecordsId)
    requires id in records && other in records
  {
    || records[other].timestamp < records[id].timestamp
    || (records[other].timestamp == records[id].timestamp && !Before(q, other, id))
  }

  predicate Visible(q: Query, value: Record) {
    q.includeEmpty || !IsEmpty(value)
  }

  /** The records a query yields, before paging. */
  ghost predicate Selected(records: Records, ns: Id32, q: Query, id: RecordsId) {
    && Candidate(records, ns, q, id)
    && (q.kind.SingleLatestPerKey? ==>
          forall other | other in records && Candidate(records, ns, q, other) && other.key == id.key :: Wins(records, q, id, other))
    && Visible(q, records[id])
  }

  ghost predicate InOrder(q: Query, ids: seq<RecordsId>) {
    forall i, j | 0 <= i < j < |ids| :: Before(q, ids[i], ids[j])
  }

  /** `ids` is the whole answer: the selected records, once each, in order. */
  ghost predicate IsAnswer(records: Records, ns: Id32, q: Query, ids: seq<RecordsId>) {
    InOrder(q, ids) && forall id :: id in ids <==> Selected(records, ns, q, id)
  }

  function Limited(ids: seq<RecordsId>, limit: Option<nat>): seq<RecordsId> {
    if limit.Some? && limit.value < |ids| then ids[..limit.value] else ids
  }

  function Skipped(ids: seq<RecordsId>, offset: nat): seq<RecordsId> {
    if offset <= |ids| then ids[offset..] else []
  }

  // ---- the stages of the iterator ----

  /** The row is a record and passes the filters that the bounds do not cover. */
  predicate Keeps(records: Records, q: Query, id: RecordsId) {
    && id in records
    && match PlanOf(q)
       case ScanRecords(range, keyFilter) => range.ExactAuthor? || KeyMatches(keyFilter, id.key)
       case ScanIndex(_, authorFilter, _) => AuthorMatches(authorFilter, id.author)
  }

  function Kept(records: Records, q: Query, rows: seq<RecordsId>): (ids: seq<RecordsId>)
    ensures forall id | id in ids :: id in records
  {
    if rows == [] then []
    else
      var rest := Kept(records, q, rows[1..]);
      if Keeps(records, q, rows[0]) then [rows[0]] + rest else rest
  }

  /** The later of two entries at one key; the one held first stays on a tie. */
  function Later(records: Records, held: RecordsId, next: RecordsId): RecordsId
    requires held in records && next in records
  {
    if records[next].timestamp > records[held].timestamp then next else held
  }

  /** One entry per run of equal keys, given the entry held so far. */
  function Grouped(records: Records, held: Option<RecordsId>, ids: seq<RecordsId>): (out: seq<RecordsId>)
    requires (held.Some? ==> held.value in records) && forall id | id in ids :: id in records
    ensures forall id | id in out :: id in records
    decreases |ids|
  {
    if ids == [] then (if held.Some? then [held.value] else [])
    else if held.None? then Grouped(records, Some(ids[0]), ids[1..])
    else if held.value.key == ids[0].key then Grouped(records, Some(Later(records, held.value, ids[0])), ids[1..])
    else [held.value] + Grouped(records, Some(ids[0]), ids[1..])
  }

  function Shown(records: Records, q: Query, ids: seq<RecordsId>): (out: seq<RecordsId>)
    requires forall id | id in ids :: id in records
    ensures forall id | id in out :: id in records
  {
    if ids == [] then []
    else
      var rest := Shown(records, q, ids[1..]);
      if Visible(q, records[ids[0]]) then [ids[0]] + rest else rest
  }

  /** Everything the stages still produce from the rows ahead and the held entry. */
  function Produced(records: Records, q: Query, held: Option<RecordsId>, rows: seq<RecordsId>): (out: seq<RecordsId>)
    requires held.Some? ==> held.value in records
    ensures forall id | id in out :: id in records
  {
    var kept := Kept(records, q, rows);
    Shown(records, q, if q.kind.SingleLatestPerKey? then Grouped(records, held, kept) else kept)
  }

  function Reversed(ids: seq<RecordsId>): (out: seq<RecordsId>)
    ensures |out| == |ids| && forall i | 0 <= i < |ids| :: out[i] == ids[|ids| - 1 - i]
  {
    if ids == [] then [] else [ids[|ids| - 1]] + Reversed(ids[..|ids| - 1])
  }

  /** The rows of a table range in the direction the query walks them. */
  function Ahead(q: Query, rows: seq<RecordsId>): seq<RecordsId> {
    if q.direction.Asc? then rows else Reversed(rows)
  }

  datatype Selection = Finished | Continue | Emit(id: RecordsId)

  /** The iterator. `rows` is the part of the scanned table range not yet visited. */
  class QueryIterator {
    const records: Records
    const query: Query
    var rows: seq<RecordsId>
    var held: Option<RecordsId>
    var offset: nat
    var count: nat

    ghost predicate Valid()
      reads this
    {
      (held.Some? ==> held.value in records && query.kind.SingleLatestPerKey?) && offset <= query.offset
    }

    /** What the stages still produce. */
    ghost function Pending(): seq<RecordsId>
      requires Valid()
      reads this
    {
      Produced(records, query, held, Ahead(query, rows))
    }

    /** What the iterator still yields. */
    ghost function Remaining(): seq<RecordsId>
      requires Valid()
      reads this
    {
      var ids := Skipped(Pending(), query.offset - offset);
      match query.limit
      case None => ids
      case Some(limit) => Limited(ids, Some(if count < limit then limit - count else 0))
    }

    constructor (records: Records, query: Query, rows: seq<RecordsId>)
      ensures Valid() && this.records == records && this.query == query
      ensures Remaining() == Limited(Skipped(Produced(records, query, None, Ahead(query, rows)), query.offset), query.limit)
    {
      this.records, this.query, this.rows := records, query, rows;
      held, offset, count := None, 0, 0;
    }

    /** Visit one row, from the end that the direction asks for. */
    method NextRow() returns (row: RecordsId)
      requires rows != []
      modifies this`rows
      ensures |rows| == |old(rows)| - 1
      ensures Ahead(query, old(rows)) == [row] + Ahead(query, rows)
    {
      if query.direction.Asc? {
        row := rows[0];
        rows := rows[1..];
      } else {
        row := rows[|rows| - 1];
        rows := rows[..|rows| - 1];
      }
    }

    /** The next row that the filters keep. */
    method NextFiltered() returns (next: Option<RecordsId>)
      modifies this`rows
      ensures |rows| <= |old(rows)|
      ensures next.None? ==> rows == [] && Kept(records, query, Ahead(query, old(rows))) == []
      ensures next.Some? ==> next.value in records && |rows| < |old(rows)|
      ensures next.Some? ==>
        Kept(records, query, Ahead(query, old(rows))) == [next.value] + Kept(records, query, Ahead(query, rows))
    {
      while rows != []
        invariant |rows| <= |old(rows)|
        invariant Kept(records, query, Ahead(query, rows)) == Kept(records, query, Ahead(query, old(rows)))
        decreases |rows|
      {
        var row := NextRow();
        assert ([row] + Ahead(query, rows))[1..] == Ahead(query, rows);
        if Keeps(records, query, row) {
          return Some(row);
        }
      }
      return None;
    }

    /** Hand an entry, or the end of the entries, to the selector. */
    method Push(next: Option<RecordsId>) returns (res: Selection)
      requires Valid() && query.kind.SingleLatestPerKey? && (next.Some? ==> next.value in records)
      modifies this`held
      ensures Valid()
      ensures next.None? ==> held.None? && res == if old(held).None? then Finished else Emit(old(held).value)
      ensures next.Some? ==> held.Some? && !res.Finished?
      ensures res.Emit? ==> res.id in records
      ensures next.Some? ==> forall rest: seq<RecordsId> | forall id | id in rest :: id in records ::
        Grouped(records, old(held), [next.value] + rest) ==
          if res.Emit? then [res.id] + Grouped(records, held, rest) else Grouped(records, held, rest)
    {
      ghost var before := held;
      if next.None? {
        if held.None? {
          return Finished;
        }
        res := Emit(held.value);
        held := None;
        return;
      }
      var entry := next.value;
      if held.None? {
        held := Some(entry);
        res := Continue;
      } else if held.value.key == entry.key {
        held := Some(if records[entry].timestamp > records[held.value].timestamp then entry else held.value);
        res := Continue;
      } else {
        res := Emit(held.value);
        held := Some(entry);
      }
      forall rest: seq<RecordsId> | forall id | id in rest :: id in records
        ensures Grouped(records, before, [entry] + rest) ==
          if res.Emit? then [res.id] + Grouped(records, held, rest) else Grouped(records, held, rest)
      {
        assert ([entry] + rest)[1..] == rest;
      }
    }

    /** The next entry out of the stages. */
    method Advance() returns (next: Option<RecordsId>)
      requires Valid()
      modifies this`rows, this`held
      ensures Valid()
      ensures next.None? ==> old(Pending()) == [] && Pending() == []
      ensures next.Some? ==> old(Pending()) == [next.value] + Pending()
      ensures next.Some? ==> 2 * |rows| + Weight() < old(2 * |rows| + Weight())
    {
      hide Ahead, Keeps;
      while true
        invariant Valid() && Pending() == old(Pending())
        invariant 2 * |rows| + Weight() <= old(2 * |rows| + Weight())
        decreases 2 * |rows| + Weight()
      {
        ghost var kept := Kept(records, query, Ahead(query, rows));
        ghost var stage := if query.kind.SingleLatestPerKey? then Grouped(records, held, kept) else kept;
        assert Pending() == Shown(records, query, stage);
        var candidate := NextFiltered();
        ghost var rest := Kept(records, query, Ahead(query, rows));
        if query.kind.SingleLatestPerKey? {
          var res := Push(candidate);
          match res {
            case Continue =>
              assert stage == Grouped(records, held, rest);
              continue;
            case Finished =>
              NothingKept(records, query);
              return None;
            case Emit(id) =>
              if candidate.None? { NothingKept(records, query); }
              candidate := Some(id);
          }
        } else if candidate.None? {
          NothingKept(records, query);
          return None;
        }
        ghost var tail := if query.kind.SingleLatestPerKey? then Grouped(records, held, rest) else rest;
        assert stage == [candidate.value] + tail;
        assert stage[1..] == tail;
        if !query.includeEmpty && IsEmpty(records[candidate.value]) {
          continue;
        }
        return candidate;
      }
    }

    ghost function Weight(): nat
      reads this
    {
      if held.Some? then 1 else 0
    }

    /** One call of the iterator: the offset is skipped, the limit is kept. */
    method Next() returns (next: Option<RecordsId>)
      requires Valid()
      modifies this
      ensures Valid()
      ensures next.None? ==> old(Remaining()) == []
      ensures next.Some? ==> old(Remaining()) == [next.value] + Remaining()
      ensures next.Some? ==> 2 * |rows| + Weight() < old(2 * |rows| + Weight())
    {
      hide Produced, Ahead, Skipped, Limited;
      if query.limit.Some? && count >= query.limit.value {
        LimitNone(Skipped(Pending(), query.offset - offset));
        return None;
      }
      while true
        invariant Valid() && count == old(count)
        invariant Skipped(Pending(), query.offset - offset) == old(Skipped(Pending(), query.offset - offset))
        invariant 2 * |rows| + Weight() <= old(2 * |rows| + Weight())
        decreases 2 * |rows| + Weight()
      {
        next := Advance();
        PagingSteps(next, Pending(), query.offset - offset, query.limit, count);
        if offset < query.offset && next.Some? {
          offset := offset + 1;
          continue;
        }
        count := count + 1;
        return;
      }
    }

    /** Drain the iterator. */
    method Collect() returns (out: seq<RecordsId>)
      requires Valid()
      modifies this
      ensures out == old(Remaining())
    {
      hide *;
      out := [];
      while true
        invariant Valid() && out + Remaining() == old(Remaining())
        decreases 2 * |rows| + Weight()
      {
        ghost var before := out;
        var next := Next();
        if next.None? {
          return;
        }
        out := out + [next.value];
        assert out + Remaining() == before + ([next.value] + Remaining());
      }
    }
  }

  lemma LimitNone(ids: seq<RecordsId>)
    ensures Limited(ids, Some(0)) == []
  {
  }

  /** Skipping and limiting, one entry at a time. */
  lemma PagingSteps(next: Option<RecordsId>, rest: seq<RecordsId>, skip: nat, limit: Option<nat>, count: nat)
    requires limit.Some? ==> count < limit.value
    ensures Skipped([], skip) == []
    ensures limit.Some? ==> Limited([], Some(limit.value - count)) == []
    ensures next.Some? && skip > 0 ==> Skipped([next.value] + rest, skip) == Skipped(rest, skip - 1)
    ensures next.Some? && skip == 0 ==> Skipped([next.value] + rest, skip) == [next.value] + rest && Skipped(rest, 0) == rest
    ensures next.Some? && limit.Some? ==>
      Limited([next.value] + rest, Some(limit.value - count)) ==
        [next.value] + Limited(rest, Some(if count + 1 < limit.value then limit.value - (count + 1) else 0))
  {
    if next.Some? && skip > 0 && skip <= |rest| + 1 {
      assert ([next.value] + rest)[skip..] == rest[skip - 1..];
    }
  }

  lemma NothingKept(records: Records, q: Query)
    ensures Kept(records, q, Ahead(q, [])) == []
  {
  }

  // ---- the stages compute the answer ----

  predicate InPlan(ns: Id32, range: AuthorFilter, keyFilter: KeyFilter, id: RecordsId) {
    match range
    case AnyAuthor => InRecords(NamespaceStart(ns), NamespaceEnd(ns), id)
    case ExactAuthor(a) => InRecords(AuthorKeyStart(ns, a, keyFilter), AuthorKeyEnd(ns, a, keyFilter), id)
  }

  /** The part of the scanned table that the plan's bounds select, in table order. */
  ghost predicate ScannedRows(db: Db, ns: Id32, q: Query, rows: seq<RecordsId>) {
    match PlanOf(q)
    case ScanRecords(range, keyFilter) =>
      && (forall i, j | 0 <= i < j < |rows| :: IdLess(rows[i], rows[j]))
      && (forall id :: id in rows <==> id in db.records && InPlan(ns, range, keyFilter, id))
    case ScanIndex(keys, _, _) =>
      && (forall i, j | 0 <= i < j < |rows| :: ByKeyLess(IndexRow(rows[i]), IndexRow(rows[j])))
      && (forall id :: id in rows <==> IndexRow(id) in db.byKey && InByKey(ByKeyStart(ns, keys), ByKeyEnd(ns, keys), IndexRow(id)))
  }

  /** Every scan has its rows, for every store and query. */
  lemma ScannedRowsExist(db: Db, ns: Id32, q: Query) returns (rows: seq<RecordsId>)
    ensures ScannedRows(db, ns, q, rows)
  {
    hide IdLess, ByKeyLess, InRecords, InByKey, Sorting.IsTotalOrder;
    Sorting.TableOrders();
    match PlanOf(q)
    case ScanRecords(range, keyFilter) =>
      rows := Sorting.Listed((set id | id in db.records && InPlan(ns, range, keyFilter, id)), Sorting.ById());
    case ScanIndex(keys, _, _) =>
      rows := Sorting.Listed(IndexIds(db, ns, keys), Sorting.ByKey());
  }

  /** The identifiers in a range of the index. */
  ghost function IndexIds(db: Db, ns: Id32, keys: KeyFilter): (ids: set<RecordsId>)
    ensures forall id :: id in ids <==>
      IndexRow(id) in db.byKey && InByKey(ByKeyStart(ns, keys), ByKeyEnd(ns, keys), IndexRow(id))
  {
    var ids := set k | k in db.byKey && InByKey(ByKeyStart(ns, keys), ByKeyEnd(ns, keys), k) :: RecordsId(k.ns, k.author, k.key);
    assert forall id :: IndexRow(id) in db.byKey && InByKey(ByKeyStart(ns, keys), ByKeyEnd(ns, keys), IndexRow(id)) ==>
      RecordsId(IndexRow(id).ns, IndexRow(id).author, IndexRow(id).key) in ids;
    ids
  }

  lemma AheadInOrder(db: Db, ns: Id32, q: Query, rows: seq<RecordsId>)
    requires ScannedRows(db, ns, q, rows)
    ensures InOrder(q, Ahead(q, rows))
    ensures forall id :: id in Ahead(q, rows) <==> id in rows
  {
    hide IdLess, ByKeyLess, InRecords, InByKey;
    forall id
      ensures id in Ahead(q, rows) <==> id in rows
    {
      if id in rows {
        var i :| 0 <= i < |rows| && rows[i] == id;
        assert q.direction.Desc? ==> Ahead(q, rows)[|rows| - 1 - i] == id;
      }
    }
  }

  lemma {:induction false} KeptMembers(records: Records, q: Query, rows: seq<RecordsId>)
    requires InOrder(q, rows)
    ensures forall id :: id in Kept(records, q, rows) <==> id in rows && Keeps(records, q, id)
    ensures InOrder(q, Kept(records, q, rows))
  {
    hide Before, Keeps;
    if rows != [] {
      assert rows == [rows[0]] + rows[1..];
      KeptMembers(records, q, rows[1..]);
      assert forall id | id in rows[1..] :: Before(q, rows[0], id);
    }
  }

  lemma {:induction false} ShownMembers(records: Records, q: Query, ids: seq<RecordsId>)
    requires InOrder(q, ids) && forall id | id in ids :: id in records
    ensures forall id :: id in Shown(records, q, ids) <==> id in ids && Visible(q, records[id])
    ensures InOrder(q, Shown(records, q, ids))
  {
    hide Before;
    if ids != [] {
      assert ids == [ids[0]] + ids[1..];
      ShownMembers(records, q, ids[1..]);
      assert forall id | id in ids[1..] :: Before(q, ids[0], id);
    }
  }

  /** The rows that survive bounds and filters are the query's candidates. */
  lemma KeptAreCandidates(db: Db, ns: Id32, q: Query, rows: seq<RecordsId>, id: RecordsId)
    requires Indexed(db) && ScannedRows(db, ns, q, rows)
    ensures id in rows && Keeps(db.records, q, id) <==> Candidate(db.records, ns, q, id)
  {
    hide IdLess, ByKeyLess, InRecords, InByKey, KeyReached, AuthorKeyStart, AuthorKeyEnd, ByKeyStart, ByKeyEnd;
    match PlanOf(q)
    case ScanRecords(range, keyFilter) =>
      NamespaceReach(ns, id);
      if range.ExactAuthor? {
        AuthorKeyReach(ns, range.author, keyFilter, id);
      }
    case ScanIndex(keys, _, _) =>
      ByKeyReach(ns, keys, IndexRow(id));
  }

  ghost predicate Best(records: Records, q: Query, ids: seq<RecordsId>, id: RecordsId)
    requires forall o | o in ids :: o in records
  {
    id in ids && forall o | o in ids && o.key == id.key :: Wins(records, q, id, o)
  }

  function WithHeld(held: Option<RecordsId>, ids: seq<RecordsId>): seq<RecordsId> {
    if held.Some? then [held.value] + ids else ids
  }

  /** In key order, what follows a different key never returns to the first. */
  lemma KeysDoNotReturn(q: Query, a: RecordsId, b: RecordsId, c: RecordsId)
    requires PlanOf(q).ScanIndex? && a.ns == b.ns == c.ns
    requires Before(q, a, b) && (b == c || Before(q, b, c)) && a.key != b.key
    ensures a.key != c.key
  {
    hide Less, Rank;
    OrderFacts();
  }

  lemma BestSkipsLoser(records: Records, q: Query, a: RecordsId, b: RecordsId, rest: seq<RecordsId>, id: RecordsId)
    requires a in records && b in records && a.key == b.key && Before(q, a, b)
    requires forall o | o in rest :: o in records && Before(q, b, o)
    ensures Best(records, q, [a] + ([b] + rest), id) <==> Best(records, q, [Later(records, a, b)] + rest, id)
  {
    hide Before;
    BeforeIsTotalOrder(q, a, b, a);
    var w := Later(records, a, b);
    assert Wins(records, q, w, a) && Wins(records, q, w, b) by {
      BeforeIsTotalOrder(q, a, a, a);
      BeforeIsTotalOrder(q, b, b, b);
    }
    forall o | o in rest
      ensures !Before(q, o, w) && Before(q, w, o)
    {
      BeforeIsTotalOrder(q, a, b, o);
      BeforeIsTotalOrder(q, w, o, w);
    }
    if id in rest {
      assert Wins(records, q, id, w) ==> Wins(records, q, id, a) && Wins(records, q, id, b) by {
        BeforeIsTotalOrder(q, a, b, id);
        BeforeIsTotalOrder(q, b, id, b);
      }
    }
  }

  lemma BestNewKey(records: Records, q: Query, h: RecordsId, ids: seq<RecordsId>, id: RecordsId)
    requires h in records && forall o | o in ids :: o in records && o.key != h.key
    ensures Best(records, q, [h] + ids, id) <==> id == h || Best(records, q, ids, id)
  {
    hide Before;
    BeforeIsTotalOrder(q, h, h, h);
  }

  lemma ConsInOrder(q: Query, h: RecordsId, ids: seq<RecordsId>)
    ensures InOrder(q, [h] + ids) <==> InOrder(q, ids) && forall o | o in ids :: Before(q, h, o)
  {
    hide Before;
    var all := [h] + ids;
    assert forall i | 0 <= i < |ids| :: all[i + 1] == ids[i];
    if InOrder(q, all) {
      forall i, j | 0 <= i < j < |ids|
        ensures Before(q, ids[i], ids[j])
      {
        assert Before(q, all[i + 1], all[j + 1]);
      }
      forall o | o in ids
        ensures Before(q, h, o)
      {
        var i :| 0 <= i < |ids| && ids[i] == o;
        assert Before(q, all[0], all[i + 1]);
      }
    }
  }

  /** Grouping keeps exactly the winner at each key. */
  lemma {:induction false} GroupedIsBest(records: Records, q: Query, ns: Id32, held: Option<RecordsId>, ids: seq<RecordsId>)
    requires PlanOf(q).ScanIndex? && InOrder(q, WithHeld(held, ids))
    requires forall id | id in WithHeld(held, ids) :: id in records && id.ns == ns
    requires held.Some? ==> held.value in records
    requires forall id | id in ids :: id in records
    ensures InOrder(q, Grouped(records, held, ids))
    ensures forall id :: id in Grouped(records, held, ids) <==> Best(records, q, WithHeld(held, ids), id)
    decreases |ids|, 1
  {
    hide Before, Best, InOrder, PlanOf, Later;
    if ids == [] {
      if held.Some? {
        assert [held.value] + [] == [held.value];
        forall id
          ensures Best(records, q, [held.value], id) <==> id == held.value
        {
          BestNewKey(records, q, held.value, [], id);
          NoBest(records, q, id);
        }
        NoBest(records, q, held.value);
      } else {
        forall id { NoBest(records, q, id); }
      }
    } else if held.None? {
      assert ids == [ids[0]] + ids[1..];
      GroupedIsBest(records, q, ns, Some(ids[0]), ids[1..]);
    } else {
      assert ids == [ids[0]] + ids[1..];
      GroupedStep(records, q, ns, held.value, ids[0], ids[1..]);
    }
  }

  lemma NoBest(records: Records, q: Query, id: RecordsId)
    ensures !Best(records, q, [], id) && InOrder(q, []) && InOrder(q, [id])
  {
  }

  lemma GroupedStep(records: Records, q: Query, ns: Id32, h: RecordsId, next: RecordsId, rest: seq<RecordsId>)
    requires PlanOf(q).ScanIndex? && InOrder(q, [h] + ([next] + rest))
    requires h in records && next in records && forall id | id in rest :: id in records
    requires h.ns == next.ns == ns && forall id | id in rest :: id.ns == ns
    ensures InOrder(q, Grouped(records, Some(h), [next] + rest))
    ensures forall id :: id in Grouped(records, Some(h), [next] + rest) <==> Best(records, q, [h] + ([next] + rest), id)
    decreases |rest| + 1, 0
  {
    hide Before, Best, InOrder, PlanOf, Later, Grouped;
    var ids := [next] + rest;
    ConsInOrder(q, h, ids);
    ConsInOrder(q, next, rest);
    GroupedUnfolds(records, h, next, rest);
    var w := if h.key == next.key then Later(records, h, next) else next;
    LaterIsOne(records, h, next);
    ConsInOrder(q, w, rest);
    assert WithHeld(Some(w), rest) == [w] + rest;
    GroupedIsBest(records, q, ns, Some(w), rest);
    if h.key == next.key {
      forall id { BestSkipsLoser(records, q, h, next, rest, id); }
    } else {
      GroupedNewKey(records, q, ns, h, next, rest);
    }
  }

  lemma GroupedNewKey(records: Records, q: Query, ns: Id32, h: RecordsId, next: RecordsId, rest: seq<RecordsId>)
    requires PlanOf(q).ScanIndex? && h.key != next.key
    requires h in records && next in records && forall id | id in rest :: id in records
    requires h.ns == next.ns == ns && forall id | id in rest :: id.ns == ns
    requires Before(q, h, next) && forall o | o in rest :: Before(q, next, o) && Before(q, h, o)
    requires InOrder(q, Grouped(records, Some(next), rest))
    requires forall id :: id in Grouped(records, Some(next), rest) <==> Best(records, q, [next] + rest, id)
    ensures InOrder(q, [h] + Grouped(records, Some(next), rest))
    ensures forall id :: id in [h] + Grouped(records, Some(next), rest) <==> Best(records, q, [h] + ([next] + rest), id)
  {
    hide Before, Best, InOrder, PlanOf, Grouped;
    var ids := [next] + rest;
    forall o | o in ids
      ensures o.key != h.key
    {
      KeysDoNotReturn(q, h, next, o);
    }
    forall id { BestNewKey(records, q, h, ids, id); }
    var tail := Grouped(records, Some(next), rest);
    forall o | o in tail
      ensures Before(q, h, o)
    {
      BestIsMember(records, q, ids, o);
    }
    ConsInOrder(q, h, tail);
  }

  lemma GroupedUnfolds(records: Records, h: RecordsId, next: RecordsId, rest: seq<RecordsId>)
    requires h in records && next in records && forall id | id in rest :: id in records
    ensures Grouped(records, Some(h), [next] + rest) ==
      if h.key == next.key then Grouped(records, Some(Later(records, h, next)), rest) else [h] + Grouped(records, Some(next), rest)
  {
    assert ([next] + rest)[1..] == rest;
  }

  lemma LaterIsOne(records: Records, h: RecordsId, next: RecordsId)
    requires h in records && next in records
    ensures Later(records, h, next) == h || Later(records, h, next) == next
  {
  }

  lemma BestIsMember(records: Records, q: Query, ids: seq<RecordsId>, id: RecordsId)
    requires forall o | o in ids :: o in records
    requires Best(records, q, ids, id)
    ensures id in ids
  {
  }

  /** Query refinement: the stages produce the whole answer, from every store whose
      records all have their index rows, however many stale rows there are. */
  lemma StagesAnswer(db: Db, ns: Id32, q: Query, rows: seq<RecordsId>)
    requires Indexed(db) && ScannedRows(db, ns, q, rows)
    ensures IsAnswer(db.records, ns, q, Produced(db.records, q, None, Ahead(q, rows)))
  {
    hide Before, Keeps, Candidate, ScannedRows, Indexed, Ahead, Kept, Grouped, Shown, Wins;
    var records, ahead := db.records, Ahead(q, rows);
    AheadInOrder(db, ns, q, rows);
    KeptMembers(records, q, ahead);
    var kept := Kept(records, q, ahead);
    forall id
      ensures id in kept <==> Candidate(records, ns, q, id)
      ensures Candidate(records, ns, q, id) ==> id in records && id.ns == ns
    {
      KeptAreCandidates(db, ns, q, rows, id);
      CandidateRecord(records, ns, q, id);
    }
    if q.kind.SingleLatestPerKey? {
      GroupedIsBest(records, q, ns, None, kept);
      ShownMembers(records, q, Grouped(records, None, kept));
    } else {
      ShownMembers(records, q, kept);
    }
  }

  /** In particular after any run of puts, retractions and replica removals. */
  lemma ReachableStoreAnswers(ws: seq<Write>, ns: Id32, q: Query, rows: seq<RecordsId>)
    requires ScannedRows(ApplyAll(ws), ns, q, rows)
    ensures IsAnswer(ApplyAll(ws).records, ns, q, Produced(ApplyAll(ws).records, q, None, Ahead(q, rows)))
  {
    hide ApplyAll, ScannedRows, IsAnswer, Produced;
    ReachableStore(ws);
    StagesAnswer(ApplyAll(ws), ns, q, rows);
  }

  lemma CandidateRecord(records: Records, ns: Id32, q: Query, id: RecordsId)
    ensures Candidate(records, ns, q, id) ==> id in records && id.ns == ns
  {
  }

  /** There is only one answer. */
  lemma {:induction false} AnswerUnique(q: Query, a: seq<RecordsId>, b: seq<RecordsId>)
    requires InOrder(q, a) && InOrder(q, b) && forall id :: id in a <==> id in b
    ensures a == b
  {
    hide Before;
    if a == [] {
      if b != [] { var id := SomeId(b); assert false; }
    } else if b == [] {
      var id := SomeId(a);
      assert false;
    } else {
      var x, y := a[0], b[0];
      assert x in b && y in a;
      BeforeIsTotalOrder(q, x, y, x);
      BeforeIsTotalOrder(q, x, x, x);
      assert x == y;
      assert a == [x] + a[1..] && b == [y] + b[1..];
      forall id
        ensures id in a[1..] <==> id in b[1..]
      {
        assert id in a <==> id == x || id in a[1..];
        assert id in b <==> id == x || id in b[1..];
        assert x !in a[1..] && x !in b[1..];
      }
      AnswerUnique(q, a[1..], b[1..]);
    }
  }

  lemma SomeId(ids: seq<RecordsId>) returns (id: RecordsId)
    requires ids != []
    ensures id in ids
  {
    id := ids[0];
  }

  // ---- against the documented order of grouping and author filter ----

  /** The record wins at its key over the records of every author. */
  ghost predicate LatestOfAll(records: Records, ns: Id32, q: Query, id: RecordsId)
    requires id in records
  {
    forall other | other in records && other.ns == ns && other.key == id.key :: Wins(records, q, id, other)
  }

  /** The records a query yields by its documentation: grouped over all authors first,
      filtered by author afterwards. */
  ghost predicate SelectedDocumented(records: Records, ns: Id32, q: Query, id: RecordsId) {
    && (id in records && id.ns == ns && KeyWanted(q, id.key))
    && (q.kind.SingleLatestPerKey? ==> LatestOfAll(records, ns, q, id))
    && AuthorMatches(q.author, id.author)
    && Visible(q, records[id])
  }

  ghost predicate IsDocumentedAnswer(records: Records, ns: Id32, q: Query, ids: seq<RecordsId>) {
    InOrder(q, ids) && forall id :: id in ids <==> SelectedDocumented(records, ns, q, id)
  }

  /** With a single author asked for there is one candidate per key, so grouping after
      the author filter changes nothing: the query yields that author's records. */
  lemma GroupingIdleForOneAuthor(records: Records, ns: Id32, q: Query, id: RecordsId)
    requires q.author.ExactAuthor?
    ensures Selected(records, ns, q, id) <==> Candidate(records, ns, q, id) && Visible(q, records[id])
  {
    hide Before, KeyWanted;
    BeforeIsTotalOrder(q, id, id, id);
  }

  /** Two meanings of a query, one answer: for one author's latest records per key
      exactly if no record of that author that would be shown loses at its key to
      another author's; for every other query always. */
  lemma AuthorFilterOrder(records: Records, ns: Id32, q: Query)
    ensures (forall id :: Selected(records, ns, q, id) <==> SelectedDocumented(records, ns, q, id)) <==>
      (q.kind.SingleLatestPerKey? && q.author.ExactAuthor? ==>
         forall id | id in records && Candidate(records, ns, q, id) && Visible(q, records[id]) :: LatestOfAll(records, ns, q, id))
    ensures forall ids, doc | IsAnswer(records, ns, q, ids) && IsDocumentedAnswer(records, ns, q, doc) ::
      ids == doc <==> forall id :: Selected(records, ns, q, id) <==> SelectedDocumented(records, ns, q, id)
  {
    hide Before, KeyWanted, Wins;
    if q.author.ExactAuthor? {
      forall id { GroupingIdleForOneAuthor(records, ns, q, id); }
    }
    forall ids, doc | IsAnswer(records, ns, q, ids) && IsDocumentedAnswer(records, ns, q, doc)
      ensures ids == doc <==> forall id :: Selected(records, ns, q, id) <==> SelectedDocumented(records, ns, q, id)
    {
      hide Selected, SelectedDocumented;
      if forall id :: Selected(records, ns, q, id) <==> SelectedDocumented(records, ns, q, id) {
        AnswerUnique(q, ids, doc);
      }
    }
  }

  /** They differ: one author wrote a key, then another did. Asked for the first author's
      latest records per key, the program answers with a record that by the documentation
      the second author's hides. */
  lemma AuthorFilterDiffers(ns: Id32, author: Id32, other: Id32)
    requires author != other
    ensures var first, second := RecordsId(ns, author, [1]), RecordsId(ns, other, [1]);
      var db := ApplyAll([PutRecord(first, Record(1, 0)), PutRecord(second, Record(2, 0))]);
      var q := Query(SingleLatestPerKey, ExactAuthor(author), AnyKey, None, 0, false, Asc);
      IsAnswer(db.records, ns, q, [first]) && IsDocumentedAnswer(db.records, ns, q, [])
  {
    hide Before;
    var first, second := RecordsId(ns, author, [1]), RecordsId(ns, other, [1]);
    var ws := [PutRecord(first, Record(1, 0)), PutRecord(second, Record(2, 0))];
    var q := Query(SingleLatestPerKey, ExactAuthor(author), AnyKey, None, 0, false, Asc);
    var records := ApplyAll(ws).records;
    TwoPuts(first, Record(1, 0), second, Record(2, 0));
    assert records == map[first := Record(1, 0), second := Record(2, 0)];
    forall id
      ensures Selected(records, ns, q, id) <==> id == first
      ensures !SelectedDocumented(records, ns, q, id)
    {
      GroupingIdleForOneAuthor(records, ns, q, id);
      if id == first {
        assert !Wins(records, q, first, second);
      }
    }
  }

  // ---- the meaning read off the query alone ----

  predicate AuthorAsked(q: Query, author: Id32) {
    match q.author
    case AnyAuthor => true
    case ExactAuthor(a) => author == a
  }

  /** Between two authors' records at one key: the later one is the latest, and of two
      equally late ones the one that is listed first. */
  predicate OutlastsAt(records: Records, q: Query, id: RecordsId, other: RecordsId)
    requires id in records && other in records
  {
    || records[other].timestamp < records[id].timestamp
    || (records[other].timestamp == records[id].timestamp &&
        if q.direction.Asc? then Less(id.author, other.author) else Less(other.author, id.author))
  }

  /** What the query asks for: the namespace's records of the authors and keys it names;
      of these, if it asks for one record per key, the latest at each key; and no empty
      ones unless it asks for them. */
  ghost predicate AskedFor(records: Records, ns: Id32, q: Query, id: RecordsId) {
    && id in records && id.ns == ns && AuthorAsked(q, id.author) && KeyMatches(q.key, id.key)
    && (q.kind.SingleLatestPerKey? ==>
          forall other | other in records && other.ns == ns && AuthorAsked(q, other.author) && other.key == id.key && other != id ::
            OutlastsAt(records, q, id, other))
    && (records[id].hash == EMPTY_HASH ==> q.includeEmpty)
  }

  /** The order the query asks for; with one record per key, by key. */
  predicate ListedBefore(q: Query, a: RecordsId, b: RecordsId) {
    var (x, y) := if q.direction.Asc? then (a, b) else (b, a);
    match q.kind
    case FlatQuery(AuthorKey) => Less(x.author, y.author) || (x.author == y.author && Less(x.key, y.key))
    case FlatQuery(KeyAuthor) => Less(x.key, y.key) || (x.key == y.key && Less(x.author, y.author))
    case SingleLatestPerKey => Less(x.key, y.key)
  }

  /** The bounds of the scan are exact for the query. */
  predicate ExactScan(q: Query) {
    (q.author.AnyAuthor? && q.kind == FlatQuery(AuthorKey)) || ExactBounds(q.key)
  }

  /** With an exact scan the selected records are those asked for. */
  lemma SelectedIsAskedFor(records: Records, ns: Id32, q: Query, id: RecordsId)
    requires ExactScan(q)
    ensures Selected(records, ns, q, id) <==> AskedFor(records, ns, q, id)
  {
    hide Less, Rank, KeyReached, KeyMatches, ExactBounds;
    OrderFacts();
    ScanIsExact(q);
    if q.kind.SingleLatestPerKey? && id in records {
      forall other | other in records && other.ns == id.ns && other.key == id.key
        ensures Wins(records, q, id, other) <==> other == id || OutlastsAt(records, q, id, other)
      {
      }
    }
  }

  lemma ScanIsExact(q: Query)
    requires ExactScan(q)
    ensures forall key :: KeyWanted(q, key) <==> KeyMatches(q.key, key)
  {
    hide ExactBounds;
    KeyFilterExact(q);
  }

  /** The answer is listed as the query asks. */
  lemma AnswerListed(records: Records, ns: Id32, q: Query, ids: seq<RecordsId>, i: nat, j: nat)
    requires IsAnswer(records, ns, q, ids) && i < j < |ids|
    ensures ListedBefore(q, ids[i], ids[j])
  {
    hide Less, Rank, KeyWanted;
    OrderFacts();
    var a, b := ids[i], ids[j];
    assert a in ids && b in ids;
    assert Selected(records, ns, q, a) && Selected(records, ns, q, b) && Before(q, a, b);
  }

  /** Every answer in the query's own terms: what it asks for, once each, in its order. */
  lemma AnswerMeans(records: Records, ns: Id32, q: Query, ids: seq<RecordsId>)
    requires IsAnswer(records, ns, q, ids)
    ensures forall i, j | 0 <= i < j < |ids| :: ListedBefore(q, ids[i], ids[j])
    ensures ExactScan(q) ==> forall id :: id in ids <==> AskedFor(records, ns, q, id)
  {
    hide Selected, ListedBefore, AskedFor, ExactScan;
    forall i, j | 0 <= i < j < |ids|
      ensures ListedBefore(q, ids[i], ids[j])
    {
      AnswerListed(records, ns, q, ids, i, j);
    }
    if ExactScan(q) {
      forall id
        ensures id in ids <==> AskedFor(records, ns, q, id)
      {
        SelectedIsAskedFor(records, ns, q, id);
      }
    }
  }

  /** A query end to end: one page of the answer. */
  method GetMany(db: Db, ns: Id32, q: Query, rows: seq<RecordsId>) returns (out: seq<RecordsId>)
    requires Indexed(db) && ScannedRows(db, ns, q, rows)
    ensures exists ids: seq<RecordsId> :: IsAnswer(db.records, ns, q, ids) && out == Limited(Skipped(ids, q.offset), q.limit)
    ensures forall i, j | 0 <= i < j < |out| :: ListedBefore(q, out[i], out[j])
    ensures ExactScan(q) ==> forall id | id in out :: AskedFor(db.records, ns, q, id)
    ensures ExactScan(q) && q.offset == 0 && (q.limit.None? || |out| < q.limit.value) ==>
      forall id :: AskedFor(db.records, ns, q, id) ==> id in out
    ensures q.limit.Some? ==> |out| <= q.limit.value
    ensures forall ids: seq<RecordsId> :: IsAnswer(db.records, ns, q, ids) ==> out == Limited(Skipped(ids, q.offset), q.limit)
  {
    hide ScannedRows, Indexed, Produced, Before, Selected, ListedBefore, AskedFor, ExactScan;
    var cursor := new QueryIterator(db.records, q, rows);
    out := cursor.Collect();
    StagesAnswer(db, ns, q, rows);
    var all := Produced(db.records, q, None, Ahead(q, rows));
    forall ids: seq<RecordsId> | IsAnswer(db.records, ns, q, ids)
      ensures ids == all
    {
      AnswerUnique(q, ids, all);
    }
    AnswerMeans(db.records, ns, q, all);
    PageOf(all, q.offset, q.limit);
  }

  /** A page is a stretch of the answer: all of it but the offset, up to the limit. */
  lemma PageOf(ids: seq<RecordsId>, offset: nat, limit: Option<nat>)
    ensures var page := Limited(Skipped(ids, offset), limit);
      && (forall i | 0 <= i < |page| :: offset + i < |ids| && page[i] == ids[offset + i])
      && (limit.Some? ==> |page| <= limit.value)
      && (offset + |page| < |ids| ==> limit.Some? && |page| == limit.value)
  {
  }

  /** What the query asks for is what its key filter says, exactly for the queries that
      filter keys themselves and those whose bounds are exact. */
  lemma KeyFilterExact(q: Query)
    ensures (forall key :: KeyWanted(q, key) <==> KeyMatches(q.key, key)) <==>
      (PlanOf(q).ScanRecords? && q.author.AnyAuthor?) || ExactBounds(q.key)
  {
    hide ExactBounds, PlanOf;
    ExactBoundsExactly(q.key);
  }
}