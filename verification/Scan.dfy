/** Range scans of the table-backed store, against the simple sorted view. */
module Scan {
  import opened Bytes
  import opened Entries
  import opened Ranges
  import opened Tables
  import opened Reconcile
  import Answers
  import Session

  /** The records table, in tuple order. All namespaces share it. */
  datatype Row = Row(id: RecordsId, value: Record)

  ghost predicate SortedRows(rows: seq<Row>) {
    forall i, j | 0 <= i < j < |rows| :: IdLess(rows[i].id, rows[j].id)
  }

  function EntryOf(row: Row): Entry {
    Entry(Flat(row.id), row.value)
  }

  /** A table range, read as entries. */
  function RangeView(rows: seq<Row>, start: Bound<RecordsId>, end: Bound<RecordsId>): View {
    if rows == [] then []
    else
      var rest, last := RangeView(rows[..|rows| - 1], start, end), rows[|rows| - 1];
      if InRecords(start, end, last.id) then rest + [EntryOf(last)] else rest
  }

  /** The simple model: one namespace's entries in order. */
  function NamespaceView(rows: seq<Row>, ns: Id32): View {
    if rows == [] then []
    else
      var rest, last := NamespaceView(rows[..|rows| - 1], ns), rows[|rows| - 1];
      if last.id.ns == ns then rest + [EntryOf(last)] else rest
  }

  /** A record identifier off the wire has at least its fixed head. */
  predicate WellFormed(b: Bytes) {
    |b| >= 64
  }

  function ToTuple(b: Bytes): RecordsId
    requires WellFormed(b)
  {
    RecordsId(b[..32], b[32..64], b[64..])
  }

  lemma FlatToTuple(b: Bytes)
    requires WellFormed(b)
    ensures Flat(ToTuple(b)) == b
  {
  }

  datatype ScanResult = Scanned(view: View) | ForeignBoundary

  predicate Names(ns: Id32, b: Bytes) {
    WellFormed(b) && ToTuple(b).ns == ns
  }

  /** Every boundary of a proper range must name the replica's own namespace. */
  predicate OwnBoundaries(ns: Id32, r: Range) {
    IsAll(r) || (Names(ns, r.x) && Names(ns, r.y))
  }

  function GetRange(rows: seq<Row>, ns: Id32, r: Range): ScanResult {
    if !OwnBoundaries(ns, r) then ForeignBoundary
    else if IsAll(r) then Scanned(RangeView(rows, NamespaceStart(ns), NamespaceEnd(ns)))
    else if Less(r.x, r.y) then Scanned(RangeView(rows, Included(ToTuple(r.x)), Excluded(ToTuple(r.y))))
    else Scanned(RangeView(rows, NamespaceStart(ns), Excluded(ToTuple(r.y)))
                 + RangeView(rows, Included(ToTuple(r.x)), NamespaceEnd(ns)))
  }

  /** A scan whose bounds select exactly the namespace's keys in a range is that range. */
  lemma {:induction false} ScanIsRange(rows: seq<Row>, start: Bound<RecordsId>, end: Bound<RecordsId>, ns: Id32, r: Range)
    requires forall row | row in rows :: InRecords(start, end, row.id) <==> row.id.ns == ns && Contains(r, Flat(row.id))
    ensures RangeView(rows, start, end) == InRange(NamespaceView(rows, ns), r)
  {
    hide InRecords, Contains, Flat;
    if rows != [] {
      var init, last := rows[..|rows| - 1], rows[|rows| - 1];
      ScanIsRange(init, start, end, ns, r);
      assert last in rows;
      var v := NamespaceView(init, ns);
      assert (v + [EntryOf(last)])[..|v|] == v;
    }
  }

  /** Two scans one after the other are one range if all of the first comes before all
      of the second. */
  lemma {:induction false} ChainedScans(rows: seq<Row>, end: Bound<RecordsId>, start: Bound<RecordsId>, ns: Id32, r: Range)
    requires SortedRows(rows)
    requires forall row | row in rows ::
      (InRecords(NamespaceStart(ns), end, row.id) || InRecords(start, NamespaceEnd(ns), row.id) <==> row.id.ns == ns && Contains(r, Flat(row.id)))
    requires forall row | row in rows :: !(InRecords(NamespaceStart(ns), end, row.id) && InRecords(start, NamespaceEnd(ns), row.id))
    requires forall i, j | 0 <= i < j < |rows| && InRecords(start, NamespaceEnd(ns), rows[i].id) :: !InRecords(NamespaceStart(ns), end, rows[j].id)
    ensures RangeView(rows, NamespaceStart(ns), end) + RangeView(rows, start, NamespaceEnd(ns)) == InRange(NamespaceView(rows, ns), r)
  {
    hide InRecords, Contains, Flat, NamespaceStart, NamespaceEnd, IdLess;
    if rows != [] {
      var init, last := rows[..|rows| - 1], rows[|rows| - 1];
      assert forall i | 0 <= i < |init| :: init[i] == rows[i];
      ChainedScans(init, end, start, ns, r);
      assert last in rows;
      var v := NamespaceView(init, ns);
      assert (v + [EntryOf(last)])[..|v|] == v;
      var low, high := RangeView(init, NamespaceStart(ns), end), RangeView(init, start, NamespaceEnd(ns));
      if InRecords(NamespaceStart(ns), end, last.id) {
        EmptyScan(init, start, NamespaceEnd(ns));
        assert low + [EntryOf(last)] + high == low + high + [EntryOf(last)];
      } else if InRecords(start, NamespaceEnd(ns), last.id) {
        assert low + (high + [EntryOf(last)]) == low + high + [EntryOf(last)];
      }
    }
  }

  lemma {:induction false} EmptyScan(rows: seq<Row>, start: Bound<RecordsId>, end: Bound<RecordsId>)
    requires forall i | 0 <= i < |rows| :: !InRecords(start, end, rows[i].id)
    ensures RangeView(rows, start, end) == []
  {
    hide InRecords;
    if rows != [] { EmptyScan(rows[..|rows| - 1], start, end); }
  }

  /** Where a record lies, given a boundary of the same namespace. */
  lemma BoundaryPlaces(ns: Id32, b: Bytes, id: RecordsId)
    requires Names(ns, b)
    ensures InRecords(NamespaceStart(ns), Excluded(ToTuple(b)), id) <==> id.ns == ns && Less(Flat(id), b)
    ensures InRecords(Included(ToTuple(b)), NamespaceEnd(ns), id) <==> id.ns == ns && !Less(Flat(id), b)
  {
    hide Less, Rank, Flat, NamespaceEnd;
    FlatToTuple(b);
    FlatOrder(id, ToTuple(b));
    NamespaceReach(ns, id);
    ZerosLeast(id.author);
    ZerosLeast(id.key);
    OrderFacts();
  }

  /** Range scan refinement: for boundaries of its own namespace and for the identity
      range, the table scan yields exactly the namespace's entries in the wrap-around
      range, once each and in order; any other boundary is refused. */
  lemma GetRangeRefines(rows: seq<Row>, ns: Id32, r: Range)
    requires SortedRows(rows)
    ensures GetRange(rows, ns, r) ==
      if OwnBoundaries(ns, r) then Scanned(InRange(NamespaceView(rows, ns), r)) else ForeignBoundary
  {
    hide Less, Rank, Flat, InRange, NamespaceView, RangeView, NamespaceStart, NamespaceEnd, InRecords, IdLess;
    OrderFacts();
    if OwnBoundaries(ns, r) {
      if IsAll(r) {
        forall row | row in rows
          ensures InRecords(NamespaceStart(ns), NamespaceEnd(ns), row.id) <==> row.id.ns == ns && Contains(r, Flat(row.id))
        {
          NamespaceReach(ns, row.id);
        }
        ScanIsRange(rows, NamespaceStart(ns), NamespaceEnd(ns), ns, r);
      } else if Less(r.x, r.y) {
        forall row | row in rows
          ensures InRecords(Included(ToTuple(r.x)), Excluded(ToTuple(r.y)), row.id) <==> row.id.ns == ns && Contains(r, Flat(row.id))
        {
          BetweenBoundaries(ns, r, row.id);
        }
        ScanIsRange(rows, Included(ToTuple(r.x)), Excluded(ToTuple(r.y)), ns, r);
      } else {
        WrapScan(rows, ns, r);
      }
    }
  }

  lemma BetweenBoundaries(ns: Id32, r: Range, id: RecordsId)
    requires OwnBoundaries(ns, r) && Less(r.x, r.y) && !IsAll(r)
    ensures InRecords(Included(ToTuple(r.x)), Excluded(ToTuple(r.y)), id) <==> id.ns == ns && Contains(r, Flat(id))
  {
    hide Less, Rank, Flat;
    FlatToTuple(r.x);
    FlatToTuple(r.y);
    FlatOrder(id, ToTuple(r.x));
    FlatOrder(id, ToTuple(r.y));
    OrderFacts();
  }

  lemma WrapScan(rows: seq<Row>, ns: Id32, r: Range)
    requires SortedRows(rows) && OwnBoundaries(ns, r) && !IsAll(r) && !Less(r.x, r.y)
    ensures RangeView(rows, NamespaceStart(ns), Excluded(ToTuple(r.y))) + RangeView(rows, Included(ToTuple(r.x)), NamespaceEnd(ns))
      == InRange(NamespaceView(rows, ns), r)
  {
    hide Less, Rank, Flat, InRange, NamespaceView, RangeView, NamespaceStart, NamespaceEnd, InRecords, IdLess;
    OrderFacts();
    var end, start := Excluded(ToTuple(r.y)), Included(ToTuple(r.x));
    forall i | 0 <= i < |rows|
      ensures InRecords(NamespaceStart(ns), end, rows[i].id) <==> rows[i].id.ns == ns && Less(Flat(rows[i].id), r.y)
      ensures InRecords(start, NamespaceEnd(ns), rows[i].id) <==> rows[i].id.ns == ns && !Less(Flat(rows[i].id), r.x)
    {
      BoundaryPlaces(ns, r.y, rows[i].id);
      BoundaryPlaces(ns, r.x, rows[i].id);
    }
    forall i, j | 0 <= i < j < |rows|
      ensures Less(Flat(rows[i].id), Flat(rows[j].id))
    {
      FlatOrder(rows[i].id, rows[j].id);
    }
    ChainedScans(rows, end, start, ns, r);
  }

  ghost predicate HasRow(rows: seq<Row>, ns: Id32, e: Entry) {
    exists row | row in rows :: row.id.ns == ns && e == EntryOf(row)
  }

  /** The simple model is a sorted view of exactly the namespace's rows. */
  lemma {:induction false} NamespaceViewSorted(rows: seq<Row>, ns: Id32)
    requires SortedRows(rows)
    ensures Sorted(NamespaceView(rows, ns))
    ensures forall e :: e in NamespaceView(rows, ns) <==> HasRow(rows, ns, e)
  {
    hide Less, IdLess, Flat;
    if rows != [] {
      var init, last := rows[..|rows| - 1], rows[|rows| - 1];
      assert forall i | 0 <= i < |init| :: init[i] == rows[i];
      assert rows == init + [last];
      NamespaceViewSorted(init, ns);
      forall e | e in NamespaceView(init, ns)
        ensures Less(e.key, Flat(last.id))
      {
        var row :| row in init && row.id.ns == ns && e == EntryOf(row);
        FlatOrder(row.id, last.id);
      }
      forall e { HasRowSnoc(init, last, ns, e); }
    }
  }

  lemma HasRowSnoc(rows: seq<Row>, last: Row, ns: Id32, e: Entry)
    ensures HasRow(rows + [last], ns, e) <==> HasRow(rows, ns, e) || (last.id.ns == ns && e == EntryOf(last))
  {
    hide Flat;
    if HasRow(rows, ns, e) {
      var row :| row in rows && row.id.ns == ns && e == EntryOf(row);
      assert row in rows + [last];
    }
    if last.id.ns == ns && e == EntryOf(last) {
      assert last in rows + [last];
    }
  }

  /** Every key of the view names the namespace. */
  ghost predicate InNamespace(v: View, ns: Id32) {
    forall e | e in v :: Names(ns, e.key)
  }

  /** In every run of a session over one namespace, no range in flight is refused. */
  lemma NoRangeRefused(p: Protocol, alice: Session.Node, bob: Session.Node, steps: seq<Session.Step>, ns: Id32)
    requires p.config.splitFactor == 2 && Session.Enters(alice) && Session.Enters(bob)
    requires InNamespace(alice.view, ns) && InNamespace(bob.view, ns)
    ensures var s := Session.Run(p, Session.Start(p, alice, bob), steps);
      forall q | q in s.message && !q.RejectedPart? :: OwnBoundaries(ns, q.range)
  {
    hide Session.Run, Session.Enters, Session.NodeInv, Session.PartsInv, Session.Ledger, Answers.DisjointParts, Names;
    Session.RunInv(p, alice, bob, steps);
    var s := Session.Run(p, Session.Start(p, alice, bob), steps);
    assert Session.Bounded(alice.view, bob.view, s.message) || Session.Bounded(bob.view, alice.view, s.message);
  }
}
