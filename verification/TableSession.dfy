/** A reconciliation session between two table-backed stores: the frozen view is a scan of
    the tables, and what is received goes through the tables' own put. */
module TableSessions {
  import opened Basics
  import opened Bytes
  import opened Entries
  import opened Ranges
  import opened Tables
  import opened Reconcile
  import opened Scan
  import opened Refinement
  import opened SessionStores
  import FsStore
  import Puts
  import Session
  import Sorting

  type Db = FsStore.Db

  /** The rows of a records table, in table order. */
  ghost predicate TableRows(rows: seq<Row>, records: FsStore.Records) {
    SortedRows(rows) && forall row :: row in rows <==> row.id in records && records[row.id] == row.value
  }

  datatype Node = Node(
    ns: Id32,
    rows: seq<Row>,              // the frozen snapshot of the records table
    filter: Filter,              // the session's egress filter
    verdict: Entry -> Verdict,
    base: Db, live: Db,          // the store at session start, and now
    writes: seq<Entry>, received: seq<Entry>, sent: seq<Entry>)

  /** What the session shows of the snapshot. */
  function ViewOf(n: Node): View {
    Admitted(n.filter, NamespaceView(n.rows, n.ns))
  }

  // ---- the live store ----

  function PutEntry(db: Db, e: Entry): Db {
    if WellFormed(e.key) then FsStore.Put(db, ToTuple(e.key), e.value) else db
  }

  predicate Takes(db: Db, e: Entry) {
    WellFormed(e.key) && FsStore.WouldInsert(db.records, ToTuple(e.key), e.value)
  }

  function TableIngested(verdict: Entry -> Verdict, db: Db, values: seq<Entry>): Db {
    if values == [] then db
    else
      var before, last := TableIngested(verdict, db, values[..|values| - 1]), values[|values| - 1];
      if verdict(last).Accept? then PutEntry(before, last) else before
  }

  function TableRefusals(verdict: Entry -> Verdict, db: Db, values: seq<Entry>): Message {
    if values == [] then []
    else
      var init, last := values[..|values| - 1], values[|values| - 1];
      TableRefusals(verdict, db, init)
      + if verdict(last).Reject? && Takes(TableIngested(verdict, db, init), last) then [RejectedPart(last)] else []
  }

  function TableItems(v: View, verdict: Entry -> Verdict, db: Db, m: Message): Message {
    if m == [] then []
    else
      var init, last := m[..|m| - 1], m[|m| - 1];
      TableItems(v, verdict, db, init)
      + if last.ItemPart? then
          TableRefusals(verdict, TableIngested(verdict, db, Values(init)), last.values)
          + AnswerItem(v, last.range, last.values, last.haveLocal)
        else []
  }

  // ---- the session ----

  function AnswerOf(p: Protocol, n: Node, m: Message): Message
    requires p.config.splitFactor >= 2
  {
    TableItems(ViewOf(n), n.verdict, n.live, m) + AnswerFingerprints(p, ViewOf(n), m)
  }

  function Answered(p: Protocol, n: Node, m: Message): Node
    requires p.config.splitFactor >= 2
  {
    n.(live := TableIngested(n.verdict, n.live, Values(m)),
       received := n.received + Values(m),
       sent := n.sent + Values(AnswerOf(p, n, m)))
  }

  function Written(n: Node, e: Entry): Node {
    n.(live := PutEntry(n.live, e), writes := n.writes + [e])
  }

  datatype State = State(alice: Node, bob: Node, toBob: bool, message: Message, round: nat)

  function Take(p: Protocol, s: State, step: Session.Step): State
    requires p.config.splitFactor >= 2
  {
    match step
    case Deliver =>
      if s.message == [] then s
      else if s.toBob then
        s.(bob := Answered(p, s.bob, s.message), message := AnswerOf(p, s.bob, s.message), toBob := false, round := s.round + 1)
      else
        s.(alice := Answered(p, s.alice, s.message), message := AnswerOf(p, s.alice, s.message), toBob := true, round := s.round + 1)
    case AliceWrites(e) => s.(alice := Written(s.alice, e))
    case BobWrites(e) => s.(bob := Written(s.bob, e))
  }

  function Start(p: Protocol, alice: Node, bob: Node): State {
    State(alice, bob, true, Initial(p, ViewOf(alice)), 0)
  }

  function Run(p: Protocol, s: State, steps: seq<Session.Step>): State
    requires p.config.splitFactor >= 2
  {
    if steps == [] then s else Take(p, Run(p, s, steps[..|steps| - 1]), steps[|steps| - 1])
  }

  /** A put of a live record under a non-empty key with exact bounds. */
  predicate PlainEntry(e: Entry) {
    WellFormed(e.key) && PlainPut(ToTuple(e.key), e.value)
  }

  predicate PlainRecords(records: FsStore.Records) {
    forall i | i in records :: PlainPut(i, records[i])
  }

  /** A node entering a session: its store was filled by plain puts, and its snapshot is
      the records table as it stands. */
  ghost predicate Enters(n: Node) {
    && (exists ws :: PlainRun(ws) && n.base == FsStore.ApplyAll(ws))
    && TableRows(n.rows, n.base.records)
    && n.live == n.base && n.writes == [] && n.received == [] && n.sent == []
  }

  predicate PlainSteps(steps: seq<Session.Step>) {
    forall step | step in steps :: !step.Deliver? ==> PlainEntry(step.e)
  }

  // ---- the contract session it simulates ----

  /** The node as a contract node. */
  ghost function Abstract(n: Node): Session.Node {
    Session.Node(ViewOf(n), n.verdict, Flattened(n.base.records), Flattened(n.live.records), n.writes, n.received, n.sent)
  }

  ghost function AbstractState(s: State): Session.State {
    Session.State(Abstract(s.alice), Abstract(s.bob), s.toBob, s.message, s.round)
  }

  lemma PutSimulates(db: Db, e: Entry)
    requires PlainRecords(db.records) && PlainEntry(e)
    ensures Flattened(PutEntry(db, e).records) == Puts.Put(Flattened(db.records), e)
    ensures PlainRecords(PutEntry(db, e).records)
  {
    hide Flattened, Flat, FsStore.InPrefixBounds, FsStore.WouldInsert, ExactBounds, Puts.Put;
    FlatToTuple(e.key);
    PlainStep(db, ToTuple(e.key), e.value);
  }

  lemma TakesSimulates(db: Db, e: Entry)
    requires PlainRecords(db.records) && WellFormed(e.key)
    ensures Takes(db, e) <==> Puts.WouldInsert(Flattened(db.records), e)
  {
    hide Flattened, Flat, Puts.WouldInsert, ExactBounds;
    FlatToTuple(e.key);
    ContractWouldInsertIs(db.records, ToTuple(e.key), e.value);
    FsStore.TakesMoreThanContract(db.records, ToTuple(e.key), e.value);
  }

  lemma {:induction false} IngestSimulates(verdict: Entry -> Verdict, db: Db, values: seq<Entry>)
    requires PlainRecords(db.records) && forall e | e in values :: PlainEntry(e)
    ensures Flattened(TableIngested(verdict, db, values).records) == Ingested(verdict, Flattened(db.records), values)
    ensures PlainRecords(TableIngested(verdict, db, values).records)
  {
    hide Flattened, PlainRecords, PlainEntry, PutEntry, Puts.Put;
    if values != [] {
      var init, last := values[..|values| - 1], values[|values| - 1];
      IngestSimulates(verdict, db, init);
      assert last in values;
      if verdict(last).Accept? {
        PutSimulates(TableIngested(verdict, db, init), last);
        var es := Accepted(verdict, init);
        assert (es + [last])[..|es|] == es;
      }
    }
  }

  lemma {:induction false} RefusalsSimulate(verdict: Entry -> Verdict, db: Db, values: seq<Entry>)
    requires PlainRecords(db.records) && forall e | e in values :: PlainEntry(e)
    ensures TableRefusals(verdict, db, values) == Refusals(verdict, Flattened(db.records), values)
  {
    hide Flattened, PlainRecords, PlainPut, Takes, TableIngested, Ingested, Puts.WouldInsert;
    if values != [] {
      var init, last := values[..|values| - 1], values[|values| - 1];
      RefusalsSimulate(verdict, db, init);
      IngestSimulates(verdict, db, init);
      assert last in values;
      TakesSimulates(TableIngested(verdict, db, init), last);
    }
  }

  lemma {:induction false} ItemsSimulate(v: View, verdict: Entry -> Verdict, db: Db, m: Message)
    requires PlainRecords(db.records) && forall e | e in Values(m) :: PlainEntry(e)
    ensures TableItems(v, verdict, db, m) == AnswerItems(v, verdict, Flattened(db.records), m)
  {
    hide Flattened, PlainRecords, PlainEntry, TableIngested, Ingested, TableRefusals, Refusals, AnswerItem;
    if m != [] {
      var init, last := m[..|m| - 1], m[|m| - 1];
      ItemsSimulate(v, verdict, db, init);
      IngestSimulates(verdict, db, Values(init));
      if last.ItemPart? {
        assert forall e | e in last.values :: e in Values(m);
        RefusalsSimulate(verdict, TableIngested(verdict, db, Values(init)), last.values);
      }
    }
  }

  /** A delivery between table-backed nodes is the delivery between contract nodes. */
  lemma AnswerSimulates(p: Protocol, n: Node, m: Message)
    requires p.config.splitFactor >= 2
    requires PlainRecords(n.live.records) && forall e | e in Values(m) :: PlainEntry(e)
    ensures AnswerOf(p, n, m) == Session.AnswerOf(p, Abstract(n), m)
    ensures Abstract(Answered(p, n, m)) == Session.Answered(p, Abstract(n), m)
    ensures PlainRecords(Answered(p, n, m).live.records)
  {
    hide Flattened, PlainRecords, PlainEntry, TableIngested, Ingested, TableItems, AnswerItems, AnswerFingerprints, Admitted;
    ItemsSimulate(ViewOf(n), n.verdict, n.live, m);
    IngestSimulates(n.verdict, n.live, Values(m));
  }

  // ---- stores and views ----

  lemma {:induction false} PlainRunRecords(ws: seq<FsStore.Write>)
    requires PlainRun(ws)
    ensures PlainRecords(FsStore.ApplyAll(ws).records)
  {
    hide PlainPut, FsStore.InPrefixBounds, FsStore.WouldInsert;
    if ws != [] {
      PlainRunRecords(ws[..|ws| - 1]);
      assert ws[|ws| - 1] in ws;
    }
  }

  lemma EntersAbstract(n: Node)
    requires Enters(n)
    ensures Session.Enters(Abstract(n)) && PlainRecords(n.base.records) && InNamespace(ViewOf(n), n.ns)
    ensures forall e | e in ViewOf(n) :: PlainEntry(e)
  {
    hide Flattened, Maximal, Flat, PlainPut, FsStore.ApplyAll, Less, SortedRows;
    var ws :| PlainRun(ws) && n.base == FsStore.ApplyAll(ws);
    PlainRunRecords(ws);
    PlainRunsRefine(ws);
    MaximalAntichain(Puts.Elements(EntriesPut(ws)));
    NamespaceViewSorted(n.rows, n.ns);
    AdmittedSorted(n.filter, NamespaceView(n.rows, n.ns));
    forall e | e in ViewOf(n)
      ensures PlainEntry(e) && Names(n.ns, e.key) && e in Puts.EntriesOf(Flattened(n.base.records))
    {
      var row :| row in n.rows && row.id.ns == n.ns && e == EntryOf(row);
      TupleFlat(row.id);
      assert Puts.Holds(Flattened(n.base.records), e);
    }
  }

  lemma TupleFlat(id: RecordsId)
    ensures WellFormed(Flat(id)) && ToTuple(Flat(id)) == id
  {
    FlatToTuple(Flat(id));
    FlatOrder(ToTuple(Flat(id)), id);
  }

  lemma MaximalAntichain(s: set<Entry>)
    ensures Antichain(Maximal(s))
  {
  }

  /** What is on its way comes out of the sender's view. */
  lemma InFlightOwn(p: Protocol, a: Session.Node, b: Session.Node, m: Message)
    requires Session.Link(p, a, b, m) && Session.SentOwn(a)
    ensures forall e | e in Values(m) :: e in a.view
  {
    hide Session.NodeInv, Session.PartsInv, Session.Bounded, Values;
    forall e | e in Values(m)
      ensures e in a.view
    {
      assert e in b.received + Values(m);
    }
  }

  /** Nodes keep what they entered with. */
  ghost predicate Kept(n: Node, t: Node) {
    t.ns == n.ns && t.rows == n.rows && t.filter == n.filter && t.verdict == n.verdict && t.base == n.base && PlainRecords(t.live.records)
  }

  /** Over every run with plain writes, the table-backed session is the contract session,
      message by message and store by store. */
  lemma {:induction false} Simulates(p: Protocol, alice: Node, bob: Node, steps: seq<Session.Step>)
    requires p.config.splitFactor == 2 && Enters(alice) && Enters(bob) && PlainSteps(steps)
    ensures var s := Run(p, Start(p, alice, bob), steps);
      && AbstractState(s) == Session.Run(p, Session.Start(p, Abstract(alice), Abstract(bob)), steps)
      && Kept(alice, s.alice) && Kept(bob, s.bob)
  {
    hide Flattened, PlainRecords, PlainEntry, Answered, AnswerOf, ViewOf, PutEntry, Session.Answered, Session.AnswerOf, Puts.Put, Initial, Session.Link, Session.SentOwn, Session.Enters;
    EntersAbstract(alice);
    EntersAbstract(bob);
    if steps != [] {
      var init, last := steps[..|steps| - 1], steps[|steps| - 1];
      assert last in steps;
      Simulates(p, alice, bob, init);
      var s := Run(p, Start(p, alice, bob), init);
      match last {
        case Deliver =>
          if s.message != [] {
            Session.RunInv(p, Abstract(alice), Abstract(bob), init);
            Session.RunSendsOwn(p, Abstract(alice), Abstract(bob), init);
            if s.toBob {
              InFlightOwn(p, Abstract(s.alice), Abstract(s.bob), s.message);
              SameView(alice, s.alice);
              AnswerSimulates(p, s.bob, s.message);
              AnsweredKept(p, bob, s.bob, s.message);
            } else {
              InFlightOwn(p, Abstract(s.bob), Abstract(s.alice), s.message);
              SameView(bob, s.bob);
              AnswerSimulates(p, s.alice, s.message);
              AnsweredKept(p, alice, s.alice, s.message);
            }
          }
        case AliceWrites(e) => WriteSimulates(s.alice, e);
        case BobWrites(e) => WriteSimulates(s.bob, e);
      }
    }
  }

  lemma SameView(n: Node, t: Node)
    requires Kept(n, t)
    ensures ViewOf(t) == ViewOf(n)
  {
    hide Admitted, NamespaceView;
  }

  lemma AnsweredKept(p: Protocol, n: Node, t: Node, m: Message)
    requires p.config.splitFactor >= 2 && Kept(n, t) && PlainRecords(Answered(p, t, m).live.records)
    ensures Kept(n, Answered(p, t, m))
  {
    hide AnswerOf, TableIngested, PlainRecords;
  }

  lemma WriteSimulates(n: Node, e: Entry)
    requires PlainRecords(n.live.records) && PlainEntry(e)
    ensures Abstract(Written(n, e)) == Session.Written(Abstract(n), e) && PlainRecords(Written(n, e).live.records)
  {
    hide Flattened, PlainRecords, PlainEntry, PutEntry, Puts.Put, Admitted;
    PutSimulates(n.live, e);
  }

  // ---- convergence of the tables ----

  /** The entries of a store's tables, all namespaces together. */
  ghost function Stored(db: Db): set<Entry> {
    Puts.EntriesOf(Flattened(db.records))
  }

  ghost function Admits(verdict: Entry -> Verdict, v: View): set<Entry> {
    set e | e in v && verdict(e).Accept?
  }

  /** Convergence of two table-backed stores: with plain puts, whatever was written
      meanwhile, the session is over after as many deliveries as its views allow, and then
      each store's tables hold exactly the maximal entries among what they held at the
      start, what was written, and what the store admits of the peer's view. On the way
      no range in flight is refused by either side's scan, which reads exactly the
      namespace's entries in it. */
  lemma TablesConverge(p: Protocol, alice: Node, bob: Node, steps: seq<Session.Step>)
    requires p.config.splitFactor == 2 && Enters(alice) && Enters(bob) && PlainSteps(steps)
    requires alice.ns == bob.ns && Session.NoCollision(p, ViewOf(alice), ViewOf(bob))
    ensures var s := Run(p, Start(p, alice, bob), steps);
      && (s.message == [] ==>
            && Stored(s.alice.live) == Maximal(Stored(alice.base) + Puts.Elements(Session.WritesIn(steps, true)) + Admits(alice.verdict, ViewOf(bob)))
            && Stored(s.bob.live) == Maximal(Stored(bob.base) + Puts.Elements(Session.WritesIn(steps, false)) + Admits(bob.verdict, ViewOf(alice))))
      && (Session.Deliveries(steps) >= Session.RoundLimit(ViewOf(alice), ViewOf(bob)) ==> s.message == [])
      && (forall q | q in s.message && !q.RejectedPart? ::
            && GetRange(alice.rows, alice.ns, q.range) == Scanned(InRange(NamespaceView(alice.rows, alice.ns), q.range))
            && GetRange(bob.rows, bob.ns, q.range) == Scanned(InRange(NamespaceView(bob.rows, bob.ns), q.range)))
  {
    hide Maximal, Puts.EntriesOf, Flattened, Run, Session.Run, Enters, Session.Enters, ViewOf, Start, PlainSteps, Session.NoCollision,
      Session.RoundLimit, GetRange, OwnBoundaries, InRange, NamespaceView, Session.Deliveries, InNamespace, PlainRecords, Session.Start;
    var a, b := Abstract(alice), Abstract(bob);
    EntersAbstract(alice);
    EntersAbstract(bob);
    Simulates(p, alice, bob, steps);
    Session.Convergence(p, a, b, steps);
    Session.Termination(p, a, b, steps);
    NoRangeRefused(p, a, b, steps, alice.ns);
    AdmitsSame(a, ViewOf(bob));
    AdmitsSame(b, ViewOf(alice));
    RowsSorted(alice);
    RowsSorted(bob);
    var s := Run(p, Start(p, alice, bob), steps);
    forall q | q in s.message && !q.RejectedPart?
      ensures GetRange(alice.rows, alice.ns, q.range) == Scanned(InRange(NamespaceView(alice.rows, alice.ns), q.range))
      ensures GetRange(bob.rows, bob.ns, q.range) == Scanned(InRange(NamespaceView(bob.rows, bob.ns), q.range))
    {
      GetRangeRefines(alice.rows, alice.ns, q.range);
      GetRangeRefines(bob.rows, bob.ns, q.range);
    }
  }

  lemma AdmitsSame(n: Session.Node, v: View)
    ensures Session.Admits(n, v) == Admits(n.verdict, v)
  {
  }

  lemma RowsSorted(n: Node)
    requires Enters(n)
    ensures SortedRows(n.rows)
  {
  }

  /** Two table-backed replicas of a document that show and accept everything, with no other
      writes, end up with the same records of that document, whatever else they store. */
  lemma TableReplicasAgree(p: Protocol, alice: Node, bob: Node, steps: seq<Session.Step>)
    requires p.config.splitFactor == 2 && Enters(alice) && Enters(bob)
    requires alice.ns == bob.ns && Session.NoCollision(p, ViewOf(alice), ViewOf(bob))
    requires alice.filter.None? && bob.filter.None?
    requires forall e :: alice.verdict(e) == Accept && bob.verdict(e) == Accept
    requires forall step | step in steps :: step.Deliver?
    ensures var s := Run(p, Start(p, alice, bob), steps);
      s.message == [] ==> forall id: RecordsId | id.ns == alice.ns ::
        && (id in s.alice.live.records <==> id in s.bob.live.records)
        && (id in s.alice.live.records ==> s.alice.live.records[id] == s.bob.live.records[id])
  {
    hide Maximal, Stored, Run, Enters, ViewOf, Start, Session.NoCollision, Session.RoundLimit, GetRange, Flat;
    TablesConverge(p, alice, bob, steps);
    Session.NoWrites(steps);
    var s := Run(p, Start(p, alice, bob), steps);
    if s.message == [] {
      var va, vb := Puts.Elements(ViewOf(alice)), Puts.Elements(ViewOf(bob));
      assert Puts.Elements([]) == {};
      assert Admits(alice.verdict, ViewOf(bob)) == vb && Admits(bob.verdict, ViewOf(alice)) == va;
      assert Stored(alice.base) + {} + vb == Stored(alice.base) + vb && Stored(bob.base) + {} + va == Stored(bob.base) + va;
      forall e: Entry | Names(alice.ns, e.key)
        ensures e in Stored(s.alice.live) <==> e in Stored(s.bob.live)
      {
        ViewIsNamespace(alice);
        ViewIsNamespace(bob);
        StoredKeys(alice.base);
        StoredKeys(bob.base);
        SameMaxima(alice.ns, Stored(alice.base), Stored(bob.base), va, vb, e);
      }
      forall id: RecordsId | id.ns == alice.ns
        ensures id in s.alice.live.records <==> id in s.bob.live.records
        ensures id in s.alice.live.records ==> s.alice.live.records[id] == s.bob.live.records[id]
      {
        TupleFlat(id);
        SameRecord(s.alice.live, s.bob.live, id);
      }
    }
  }

  /** With no filter the view is what the store holds of the namespace. */
  lemma ViewIsNamespace(n: Node)
    requires Enters(n) && n.filter.None?
    ensures forall e :: e in Puts.Elements(ViewOf(n)) <==> e in Stored(n.base) && Names(n.ns, e.key)
  {
    hide Flat, FsStore.ApplyAll, SortedRows, NamespaceView;
    NamespaceViewSorted(n.rows, n.ns);
    NoFilterShowsAll(NamespaceView(n.rows, n.ns));
    var m := Flattened(n.base.records);
    forall e
      ensures e in NamespaceView(n.rows, n.ns) <==> e in Puts.EntriesOf(m) && Names(n.ns, e.key)
    {
      if HasRow(n.rows, n.ns, e) {
        var row :| row in n.rows && row.id.ns == n.ns && e == EntryOf(row);
        TupleFlat(row.id);
        assert Puts.Holds(m, e);
      }
      if e in Puts.EntriesOf(m) && Names(n.ns, e.key) {
        var id :| id in n.base.records && e.key == Flat(id);
        TupleFlat(id);
        var row := Row(id, n.base.records[id]);
        assert row in n.rows && e == EntryOf(row);
      }
    }
  }

  lemma StoredKeys(db: Db)
    ensures forall f | f in Stored(db) :: WellFormed(f.key)
  {
    hide Flat, Flattened;
    forall f | f in Stored(db)
      ensures WellFormed(f.key)
    {
      var id :| id in db.records && f.key == Flat(id);
      TupleFlat(id);
    }
  }

  /** Entries of other documents have no part in what is maximal within one. */
  lemma SameMaxima(ns: Id32, a: set<Entry>, b: set<Entry>, va: set<Entry>, vb: set<Entry>, e: Entry)
    requires forall f :: f in va <==> f in a && Names(ns, f.key)
    requires forall f :: f in vb <==> f in b && Names(ns, f.key)
    requires forall f | f in a + b :: WellFormed(f.key)
    requires Names(ns, e.key)
    ensures e in Maximal(a + vb) <==> e in Maximal(b + va)
  {
    forall f | f in a + b && f.key <= e.key
      ensures Names(ns, f.key)
    {
      assert f.key[..32] == e.key[..32];
    }
  }

  lemma SameRecord(a: Db, b: Db, id: RecordsId)
    requires forall e: Entry | Names(id.ns, e.key) :: e in Stored(a) <==> e in Stored(b)
    requires Names(id.ns, Flat(id))
    ensures id in a.records <==> id in b.records
    ensures id in a.records ==> a.records[id] == b.records[id]
  {
    hide Flat, Flattened;
    if id in a.records {
      assert Entry(Flat(id), a.records[id]) in Stored(a);
    }
    if id in b.records {
      assert Entry(Flat(id), b.records[id]) in Stored(b);
    }
  }

  /** Every store has the rows of a snapshot. */
  lemma TableRowsExist(records: FsStore.Records) returns (rows: seq<Row>)
    ensures TableRows(rows, records)
  {
    hide IdLess, Sorting.IsTotalOrder, TableRows;
    Sorting.TableOrders();
    var ids := Sorting.Listed(records.Keys, Sorting.ById());
    rows := RowsOf(records, ids);
    RowsOfMeans(records, ids);
  }

  lemma RowsOfMeans(records: FsStore.Records, ids: seq<RecordsId>)
    requires (forall i, j | 0 <= i < j < |ids| :: IdLess(ids[i], ids[j])) && forall id :: id in ids <==> id in records
    ensures TableRows(RowsOf(records, ids), records)
  {
    hide IdLess, RowsOf;
    var rows := RowsOf(records, ids);
    forall row
      ensures row in rows <==> row.id in records && records[row.id] == row.value
    {
      if row.id in records && records[row.id] == row.value {
        var i :| 0 <= i < |ids| && ids[i] == row.id;
        assert rows[i] == row;
      }
    }
  }

  function RowsOf(records: FsStore.Records, ids: seq<RecordsId>): (rows: seq<Row>)
    requires forall id | id in ids :: id in records
    ensures |rows| == |ids| && forall i | 0 <= i < |ids| :: ids[i] in ids && rows[i] == Row(ids[i], records[ids[i]])
  {
    if ids == [] then []
    else
      var last := ids[|ids| - 1];
      assert last in ids;
      RowsOf(records, ids[..|ids| - 1]) + [Row(last, records[last])]
  }

  // ---- refusals ----

  /** The tables' gate does name an entry the store holds: in every reachable store, a held
      entry that is rejected is refused exactly if it is a tombstone or sits at the empty
      key. */
  lemma HeldEntryRefused(ws: seq<FsStore.Write>, id: RecordsId, verdict: Entry -> Verdict)
    requires id in FsStore.ApplyAll(ws).records
    requires verdict(Entry(Flat(id), FsStore.ApplyAll(ws).records[id])).Reject?
    ensures var db := FsStore.ApplyAll(ws); var e := Entry(Flat(id), db.records[id]);
      TableRefusals(verdict, db, [e]) == if IsEmpty(e.value) || id.key == [] then [RejectedPart(e)] else []
  {
    hide FsStore.ApplyAll, FsStore.WouldInsert, Flat;
    var db := FsStore.ApplyAll(ws);
    var e := Entry(Flat(id), db.records[id]);
    FsStore.HeldIsNews(ws, id);
    TupleFlat(id);
    assert [e][..0] == [];
    assert TableRefusals(verdict, db, []) == [] && TableIngested(verdict, db, []) == db;
  }

  /** One put of a tombstone reaches such a store. */
  lemma HeldTombstoneRefused(id: RecordsId)
    ensures var db := FsStore.ApplyAll([FsStore.PutRecord(id, Record(5, EMPTY_HASH))]);
      var e := Entry(Flat(id), Record(5, EMPTY_HASH));
      e in Stored(db) && TableRefusals(_ => Reject, db, [e]) == [RejectedPart(e)]
  {
    hide FsStore.ApplyAll, FsStore.WouldInsert, Flat, TableRefusals;
    var ws := [FsStore.PutRecord(id, Record(5, EMPTY_HASH))];
    FsStore.TwoPuts(id, Record(5, EMPTY_HASH), id, Record(5, EMPTY_HASH));
    assert id in FsStore.ApplyAll(ws).records && FsStore.ApplyAll(ws).records[id] == Record(5, EMPTY_HASH);
    HeldEntryRefused(ws, id, _ => Reject);
    assert Puts.Holds(Flattened(FsStore.ApplyAll(ws).records), Entry(Flat(id), Record(5, EMPTY_HASH)));
  }
}
