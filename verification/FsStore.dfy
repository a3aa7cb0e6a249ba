/** The table-backed store's writes: insertion with prefix pruning, retraction, and
    removal of a replica, over the records table and its by-key index. */
module FsStore {
  import opened Bytes
  import opened Bounds
  import opened Entries
  import opened Tables
  import Puts

  type Records = map<RecordsId, Record>

  datatype Db = Db(records: Records, byKey: set<ByKeyId>)

  function IndexRow(id: RecordsId): ByKeyId {
    ByKeyId(id.ns, id.key, id.author)
  }

  predicate SameReplica(a: RecordsId, b: RecordsId) {
    a.ns == b.ns && a.author == b.author
  }

  /** A record that the parent lookup finds for `id`: at a non-empty prefix of its key,
      or at the key itself, and not a tombstone. */
  predicate IsParent(records: Records, id: RecordsId, parent: RecordsId) {
    parent in records && SameReplica(parent, id) && parent.key != [] && parent.key <= id.key && !IsEmpty(records[parent])
  }

  predicate WouldInsert(records: Records, id: RecordsId, value: Record) {
    forall parent | parent in records && IsParent(records, id, parent) :: !AtMost(value, records[parent])
  }

  predicate InPrefixBounds(id: RecordsId, other: RecordsId) {
    InRecords(AuthorKeyStart(id.ns, id.author, KeyPrefix(id.key)), AuthorKeyEnd(id.ns, id.author, KeyPrefix(id.key)), other)
  }

  function Pruned(records: Records, id: RecordsId, value: Record): Records {
    map i | i in records && !(InPrefixBounds(id, i) && AtMost(records[i], value)) :: records[i]
  }

  /** Pruning does not touch the index: rows of pruned records stay behind. */
  function Put(db: Db, id: RecordsId, value: Record): Db {
    if !WouldInsert(db.records, id, value) then db
    else Db(Pruned(db.records, id, value)[id := value], db.byKey + {IndexRow(id)})
  }

  function Retract(db: Db, id: RecordsId, upTo: nat): Db {
    if id in db.records && db.records[id].timestamp <= upTo then Db(db.records - {id}, db.byKey - {IndexRow(id)}) else db
  }

  function RemoveReplica(db: Db, ns: Id32): Db {
    Db(map i | i in db.records && !InRecords(NamespaceStart(ns), NamespaceEnd(ns), i) :: db.records[i],
       set k | k in db.byKey && !InByKey(ByKeyStart(ns, AnyKey), ByKeyEnd(ns, AnyKey), k))
  }

  datatype Write =
    | PutRecord(id: RecordsId, value: Record)
    | RetractRecord(id: RecordsId, upTo: nat)
    | DropReplica(ns: Id32)

  function Apply(db: Db, w: Write): Db {
    match w
    case PutRecord(id, value) => Put(db, id, value)
    case RetractRecord(id, upTo) => Retract(db, id, upTo)
    case DropReplica(ns) => RemoveReplica(db, ns)
  }

  const EMPTY_DB := Db(map[], {})

  function ApplyAll(ws: seq<Write>): Db {
    if ws == [] then EMPTY_DB else Apply(ApplyAll(ws[..|ws| - 1]), ws[|ws| - 1])
  }

  /** Each record is strictly greater than every live record at a proper, non-empty
      prefix of its key. */
  ghost predicate Hierarchy(records: Records) {
    forall i, parent | i in records && IsParent(records, i, parent) && parent != i :: !AtMost(records[i], records[parent])
  }

  /** Every record has its index row; rows without a record are allowed. */
  ghost predicate Indexed(db: Db) {
    forall i | i in db.records :: IndexRow(i) in db.byKey
  }

  lemma PutKeepsHierarchy(db: Db, id: RecordsId, value: Record)
    requires Hierarchy(db.records)
    ensures Hierarchy(Put(db, id, value).records)
  {
    hide InRecords, AuthorKeyStart, AuthorKeyEnd, Stray;
    var after := Put(db, id, value).records;
    forall i, parent | i in after && IsParent(after, i, parent) && parent != i
      ensures !AtMost(after[i], after[parent])
    {
      if WouldInsert(db.records, id, value) {
        if parent == id {
          assert i in db.records && after[i] == db.records[i];
          AuthorKeyReach(id.ns, id.author, KeyPrefix(id.key), i);
          assert InPrefixBounds(id, i);
        } else if i == id {
          assert IsParent(db.records, id, parent);
        } else {
          assert IsParent(db.records, i, parent);
        }
      }
    }
  }

  lemma WriteKeepsInvariants(db: Db, w: Write)
    requires Hierarchy(db.records) && Indexed(db)
    ensures Hierarchy(Apply(db, w).records) && Indexed(Apply(db, w))
  {
    hide InPrefixBounds, InRecords, InByKey;
    match w
    case PutRecord(id, value) =>
      hide WouldInsert;
      PutKeepsHierarchy(db, id, value);
    case RetractRecord(id, upTo) =>
      SubsetKeepsHierarchy(db.records, Retract(db, id, upTo).records);
    case DropReplica(ns) =>
      var after := RemoveReplica(db, ns);
      SubsetKeepsHierarchy(db.records, after.records);
      forall i | i in after.records
        ensures IndexRow(i) in after.byKey
      {
        NamespaceReach(ns, i);
        ByKeyReach(ns, AnyKey, IndexRow(i));
      }
  }

  lemma SubsetKeepsHierarchy(records: Records, fewer: Records)
    requires Hierarchy(records)
    requires forall i | i in fewer :: i in records && fewer[i] == records[i]
    ensures Hierarchy(fewer)
  {
    forall i, parent | i in fewer && IsParent(fewer, i, parent) && parent != i
      ensures !AtMost(fewer[i], fewer[parent])
    {
      assert IsParent(records, i, parent);
    }
  }

  /** After any run of puts, retractions and replica removals. */
  lemma {:induction false} ReachableStore(ws: seq<Write>)
    ensures Hierarchy(ApplyAll(ws).records) && Indexed(ApplyAll(ws))
  {
    hide Hierarchy, Indexed, Apply;
    if ws == [] {
      EmptyStore();
    } else {
      ReachableStore(ws[..|ws| - 1]);
      WriteKeepsInvariants(ApplyAll(ws[..|ws| - 1]), ws[|ws| - 1]);
    }
  }

  lemma EmptyStore()
    ensures Hierarchy(EMPTY_DB.records) && Indexed(EMPTY_DB)
  {
  }

  // ---- against the contract of insertion ----

  /** In every reachable store a put later than every live record at its key and the
      non-empty prefixes of it is taken and read back, whatever the hashes; one earlier
      than such a record changes nothing. */
  lemma LaterPutIsTaken(ws: seq<Write>, id: RecordsId, value: Record)
    ensures var records, after := ApplyAll(ws).records, ApplyAll(ws + [PutRecord(id, value)]).records;
      && ((forall i | i in records && SameReplica(i, id) && i.key != [] && i.key <= id.key && !IsEmpty(records[i]) ::
             records[i].timestamp < value.timestamp) ==> id in after && after[id] == value)
      && ((exists i | i in records :: SameReplica(i, id) && i.key != [] && i.key <= id.key && !IsEmpty(records[i]) &&
             records[i].timestamp > value.timestamp) ==> after == records)
  {
    hide ApplyAll, InPrefixBounds;
    ApplySnoc(ws, PutRecord(id, value));
  }

  /** Retracting removes that record and its index row if it is not newer, and leaves every
      other record and row. */
  lemma RetractsOnlyThat(db: Db, id: RecordsId, upTo: nat)
    ensures var after := Retract(db, id, upTo);
      && (forall i :: i in after.records <==> i in db.records && !(i == id && db.records[i].timestamp <= upTo))
      && (forall i | i in after.records :: after.records[i] == db.records[i])
      && (forall k :: k in after.byKey <==>
            k in db.byKey && !(k == ByKeyId(id.ns, id.key, id.author) && id in db.records && db.records[id].timestamp <= upTo))
  {
  }

  /** A put deletes exactly the not larger records of the author below its key, and the
      strays of its key's bounds. */
  lemma PutPrunes(db: Db, id: RecordsId, value: Record, i: RecordsId)
    requires WouldInsert(db.records, id, value) && i in db.records && i != id
    ensures i !in Put(db, id, value).records <==>
      SameReplica(i, id) && AtMost(db.records[i], value) && (id.key <= i.key || Stray(id.key, i.key))
  {
    hide InRecords, AuthorKeyStart, AuthorKeyEnd, Stray;
    AuthorKeyReach(id.ns, id.author, KeyPrefix(id.key), i);
  }

  lemma StrayNotPrefix(p: Bytes, k: Bytes)
    requires Stray(p, k)
    ensures !(k <= p) && !(p <= k)
  {
    var q := |p| - TrailingMax(p) - 1;
    assert k[q] == p[q] + 1;
  }

  /** Two puts of one run that have nothing to do with each other are both kept. */
  lemma TwoPuts(first: RecordsId, a: Record, second: RecordsId, b: Record)
    ensures ApplyAll([PutRecord(first, a)]).records == map[first := a]
    ensures ApplyAll([PutRecord(first, a), PutRecord(second, b)]) == Put(ApplyAll([PutRecord(first, a)]), second, b)
    ensures !SameReplica(first, second) ==>
      ApplyAll([PutRecord(first, a), PutRecord(second, b)]).records == map[first := a, second := b]
  {
    hide InRecords, AuthorKeyStart, AuthorKeyEnd, Stray, InPrefixBounds;
    var one, two := [PutRecord(first, a)], [PutRecord(first, a), PutRecord(second, b)];
    assert one[..0] == [] && two[..1] == one;
    assert ApplyAll([]) == EMPTY_DB;
    if !SameReplica(first, second) {
      PutPrunes(ApplyAll(one), second, b, first);
    }
  }

  /** Over every reachable store: a put of `id` never deletes a record outside its own
      prefix exactly if its key does not end in 255 bytes after a smaller byte. */
  lemma PutPrunesOnlyBelow(id: RecordsId)
    ensures ExactBounds(KeyPrefix(id.key)) <==>
      forall ws: seq<Write>, value, i |
        i in ApplyAll(ws).records && i !in ApplyAll(ws + [PutRecord(id, value)]).records :: id.key <= i.key
  {
    hide InRecords, AuthorKeyStart, AuthorKeyEnd, Stray, ExactBounds, ApplyAll;
    ExactBoundsExactly(KeyPrefix(id.key));
    if ExactBounds(KeyPrefix(id.key)) {
      forall ws: seq<Write>, value, i | i in ApplyAll(ws).records && i !in ApplyAll(ws + [PutRecord(id, value)]).records
        ensures id.key <= i.key
      {
        ApplySnoc(ws, PutRecord(id, value));
        if i != id {
          PutPrunes(ApplyAll(ws), id, value, i);
          assert KeyReached(KeyPrefix(id.key), i.key);
        }
      }
    } else {
      var key :| KeyReached(KeyPrefix(id.key), key) && !KeyMatches(KeyPrefix(id.key), key);
      StrayDeleted(id, key, Record(0, 0), Record(0, 0));
    }
  }

  lemma ApplySnoc(ws: seq<Write>, w: Write)
    ensures ApplyAll(ws + [w]) == Apply(ApplyAll(ws), w)
  {
    assert (ws + [w])[..|ws|] == ws;
  }

  /** Two puts are enough: the first, at a stray key of the second, is deleted by it
      unless it is larger. */
  lemma StrayDeleted(id: RecordsId, key: Bytes, value: Record, later: Record)
    requires Stray(id.key, key) && AtMost(value, later)
    ensures var i := RecordsId(id.ns, id.author, key);
      i in ApplyAll([PutRecord(i, value)]).records && !(id.key <= i.key) &&
      i !in ApplyAll([PutRecord(i, value)] + [PutRecord(id, later)]).records
  {
    hide InRecords, AuthorKeyStart, AuthorKeyEnd, Stray, ApplyAll;
    var i := RecordsId(id.ns, id.author, key);
    TwoPuts(i, value, id, later);
    StrayNotPrefix(id.key, key);
    ApplySnoc([PutRecord(i, value)], PutRecord(id, later));
    PutPrunes(ApplyAll([PutRecord(i, value)]), id, later, i);
  }

  /** For instance: put [2], then put [1, 255], and [2] is gone. */
  lemma StrayDeletedExample(ns: Id32, author: Id32)
    ensures var two, below := RecordsId(ns, author, [2]), RecordsId(ns, author, [1, 255]);
      var ws := [PutRecord(two, Record(1, 0))];
      two in ApplyAll(ws).records && two !in ApplyAll(ws + [PutRecord(below, Record(2, 0))]).records
  {
    hide ApplyAll;
    StrayExample();
    StrayDeleted(RecordsId(ns, author, [1, 255]), [2], Record(1, 0), Record(2, 0));
  }

  /** Whether the contract's parent lookup, which also sees tombstones and the empty key,
      would let the record in. */
  predicate ContractWouldInsert(records: Records, id: RecordsId, value: Record) {
    forall parent | parent in records && SameReplica(parent, id) && parent.key <= id.key :: !AtMost(value, records[parent])
  }

  /** The store takes in a record that the contract refuses exactly if some record is in
      the way and every such record is a tombstone or sits at the empty key. */
  lemma TakesMoreThanContract(records: Records, id: RecordsId, value: Record)
    ensures ContractWouldInsert(records, id, value) ==> WouldInsert(records, id, value)
    ensures WouldInsert(records, id, value) && !ContractWouldInsert(records, id, value) <==>
      && (exists parent | parent in records :: SameReplica(parent, id) && parent.key <= id.key && AtMost(value, records[parent]))
      && (forall parent | parent in records && SameReplica(parent, id) && parent.key <= id.key && AtMost(value, records[parent]) ::
            IsEmpty(records[parent]) || parent.key == [])
  {
  }

  /** Such runs: a write older than a tombstone above it, and one older than a record at
      the empty key. Both are taken in and both records are there, though the contract
      refuses the second put. */
  lemma TombstoneDoesNotBlock(ns: Id32, author: Id32)
    ensures var tombstone, below := RecordsId(ns, author, [1]), RecordsId(ns, author, [1, 2]);
      OlderTaken(tombstone, Record(5, EMPTY_HASH), below, Record(3, 0))
    ensures var top, below := RecordsId(ns, author, []), RecordsId(ns, author, [2]);
      OlderTaken(top, Record(5, 0), below, Record(3, 0))
  {
    BlockedOnlyByContract(RecordsId(ns, author, [1]), Record(5, EMPTY_HASH), RecordsId(ns, author, [1, 2]), Record(3, 0));
    BlockedOnlyByContract(RecordsId(ns, author, []), Record(5, 0), RecordsId(ns, author, [2]), Record(3, 0));
  }

  /** After the two puts both records are there; the contract would have one only. */
  ghost predicate OlderTaken(first: RecordsId, a: Record, second: RecordsId, b: Record) {
    && ApplyAll([PutRecord(first, a), PutRecord(second, b)]).records == map[first := a, second := b]
    && !ContractWouldInsert(ApplyAll([PutRecord(first, a)]).records, second, b)
  }

  lemma BlockedOnlyByContract(first: RecordsId, a: Record, second: RecordsId, b: Record)
    requires SameReplica(first, second) && first.key <= second.key && |first.key| < |second.key|
    requires !AtMost(a, b) && (IsEmpty(a) || first.key == [])
    ensures OlderTaken(first, a, second, b)
  {
    hide InRecords, AuthorKeyStart, AuthorKeyEnd, Stray, InPrefixBounds, ApplyAll;
    TwoPuts(first, a, second, b);
    var db := ApplyAll([PutRecord(first, a)]);
    assert first in db.records && AtMost(b, a);
    PutPrunes(db, second, b, first);
  }

  /** An entry the store holds still counts as news to it exactly if it is a tombstone or
      sits at the empty key, in every reachable store. */
  lemma HeldIsNews(ws: seq<Write>, id: RecordsId)
    requires id in ApplyAll(ws).records
    ensures var records := ApplyAll(ws).records;
      WouldInsert(records, id, records[id]) <==> IsEmpty(records[id]) || id.key == []
  {
    hide ApplyAll;
    ReachableStore(ws);
    var records := ApplyAll(ws).records;
    if !IsEmpty(records[id]) && id.key != [] {
      assert IsParent(records, id, id);
    }
    if !WouldInsert(records, id, records[id]) {
      var parent :| parent in records && IsParent(records, id, parent) && AtMost(records[id], records[parent]);
    }
  }

  // ---- documents: which may be removed ----

  /** The tables, the documents known to the store, and those that are open. */
  datatype Docs = Docs(db: Db, known: set<Id32>, open: set<Id32>)

  datatype DocOp = Import(ns: Id32) | Load(ns: Id32) | Close(ns: Id32) | Change(w: Write)

  /** Only a known document can be loaded; one that is open cannot be removed. */
  function DocStep(d: Docs, op: DocOp): Docs {
    match op
    case Import(ns) => d.(known := d.known + {ns})
    case Load(ns) => if ns in d.known then d.(open := d.open + {ns}) else d
    case Close(ns) => d.(open := d.open - {ns})
    case Change(w) =>
      if !w.DropReplica? then d.(db := Apply(d.db, w))
      else if w.ns in d.open then d
      else d.(db := Apply(d.db, w), known := d.known - {w.ns})
  }

  const NO_DOCS := Docs(EMPTY_DB, {}, {})

  function DocSteps(ops: seq<DocOp>): Docs {
    if ops == [] then NO_DOCS else DocStep(DocSteps(ops[..|ops| - 1]), ops[|ops| - 1])
  }

  /** The run without its removals of `ns`. */
  function NotDropping(ops: seq<DocOp>, ns: Id32): seq<DocOp> {
    if ops == [] then []
    else
      var rest, last := NotDropping(ops[..|ops| - 1], ns), ops[|ops| - 1];
      if last == Change(DropReplica(ns)) then rest else rest + [last]
  }

  /** From when a replica is loaded until it is closed, whatever else happens in between:
      it stays open and known, and no removal takes effect, as if none had been asked for. */
  lemma {:induction false} OpenReplicaStays(before: seq<DocOp>, after: seq<DocOp>, ns: Id32)
    requires ns in DocSteps(before).open && Close(ns) !in after
    ensures ns in DocSteps(before + after).open && DocSteps(before + after).open <= DocSteps(before + after).known
    ensures DocSteps(before + after) == DocSteps(before + NotDropping(after, ns))
  {
    hide Apply, DocStep, DocSteps;
    OpenIsKnown(before + after);
    if after == [] {
      assert before + after == before;
    } else {
      var init, last := after[..|after| - 1], after[|after| - 1];
      assert after == init + [last];
      OpenReplicaStays(before, init, ns);
      DocSnoc(before + init, last);
      assert before + after == before + init + [last];
      OpenStep(DocSteps(before + init), last, ns);
      var kept := NotDropping(init, ns);
      if last == Change(DropReplica(ns)) {
        assert NotDropping(after, ns) == kept;
      } else {
        DocSnoc(before + kept, last);
        assert before + (kept + [last]) == before + kept + [last];
      }
    }
  }

  lemma OpenStep(d: Docs, op: DocOp, ns: Id32)
    requires ns in d.open && op != Close(ns)
    ensures ns in DocStep(d, op).open
    ensures op == Change(DropReplica(ns)) ==> DocStep(d, op) == d
  {
    hide Apply;
  }

  lemma DocSnoc(ops: seq<DocOp>, op: DocOp)
    ensures DocSteps(ops + [op]) == DocStep(DocSteps(ops), op)
  {
    hide DocStep;
    assert (ops + [op])[..|ops|] == ops;
  }

  /** After any run: an imported document can be loaded, and one that is closed can be
      removed, which leaves nothing of it and everything of the others. */
  lemma LoadAndRemove(ops: seq<DocOp>, ns: Id32)
    ensures ns in DocSteps(ops + [Import(ns)] + [Load(ns)]).open
    ensures var before, after := DocSteps(ops), DocSteps(ops + [Close(ns)] + [Change(DropReplica(ns))]);
      && ns !in after.known && ns !in after.open
      && (forall n | n != ns :: (n in after.known <==> n in before.known) && (n in after.open <==> n in before.open))
      && (forall i :: i in after.db.records <==> i in before.db.records && i.ns != ns)
      && (forall i | i in after.db.records :: after.db.records[i] == before.db.records[i])
      && (forall k :: k in after.db.byKey <==> k in before.db.byKey && k.ns != ns)
  {
    hide DocSteps, InRecords, InByKey;
    DocSnoc(ops, Import(ns));
    DocSnoc(ops + [Import(ns)], Load(ns));
    DocSnoc(ops, Close(ns));
    DocSnoc(ops + [Close(ns)], Change(DropReplica(ns)));
    forall i { NamespaceReach(ns, i); }
    forall k { ByKeyReach(ns, AnyKey, k); }
  }

  /** An open document is always a known one. */
  lemma {:induction false} OpenIsKnown(ops: seq<DocOp>)
    ensures DocSteps(ops).open <= DocSteps(ops).known
  {
    hide Apply;
    if ops != [] { OpenIsKnown(ops[..|ops| - 1]); }
  }

  /** The store as the program runs it, table by table. Capabilities, peers and download
      policies are kept per document; what they hold is of no concern here. */
  class Store {
    var records: Records
    var byKey: set<ByKeyId>
    var capabilities: map<Id32, Bytes>
    var peers: map<Id32, seq<Bytes>>
    var policies: map<Id32, Bytes>
    var openReplicas: set<Id32>

    ghost function State(): Db
      reads this
    {
      Db(records, byKey)
    }

    ghost function Value(): Docs
      reads this
    {
      Docs(State(), capabilities.Keys, openReplicas)
    }

    /** Open a database on its tables. */
    constructor (records: Records, byKey: set<ByKeyId>, capabilities: map<Id32, Bytes>, peers: map<Id32, seq<Bytes>>, policies: map<Id32, Bytes>)
      ensures Value() == Docs(Db(records, byKey), capabilities.Keys, {})
      ensures this.capabilities == capabilities && this.peers == peers && this.policies == policies
    {
      this.records, this.byKey, this.capabilities, this.peers, this.policies := records, byKey, capabilities, peers, policies;
      openReplicas := {};
    }

    /** A step of `DocSteps`. */
    method LoadReplica(ns: Id32) returns (ok: bool)
      modifies this`openReplicas
      ensures Value() == DocStep(old(Value()), Load(ns))
      ensures ok <==> ns in capabilities
    {
      if ns !in capabilities {
        return false;
      }
      openReplicas := openReplicas + {ns};
      return true;
    }

    /** A step of `DocSteps`. */
    method CloseReplica(ns: Id32)
      modifies this`openReplicas
      ensures Value() == DocStep(old(Value()), Close(ns))
    {
      openReplicas := openReplicas - {ns};
    }

    method GetExact(id: RecordsId, includeEmpty: bool) returns (found: bool, value: Record)
      ensures found <==> id in records && (includeEmpty || !IsEmpty(records[id]))
      ensures found ==> value == records[id]
    {
      if id in records && (includeEmpty || !IsEmpty(records[id])) {
        return true, records[id];
      }
      return false, Record(0, 0);
    }

    /** Walk up the key byte by byte; tombstones and the empty key are passed over. */
    method Parents(id: RecordsId) returns (parents: seq<RecordsId>)
      ensures forall parent :: parent in parents <==> IsParent(records, id, parent)
      ensures forall i, j | 0 <= i < j < |parents| :: |parents[i].key| < |parents[j].key|
    {
      var key := id.key;
      parents := [];
      while key != []
        invariant key <= id.key
        invariant forall parent :: parent in parents <==> IsParent(records, id, parent) && |parent.key| > |key|
        invariant forall i, j | 0 <= i < j < |parents| :: |parents[i].key| < |parents[j].key|
        decreases |key|
      {
        var at := RecordsId(id.ns, id.author, key);
        var found, value := GetExact(at, false);
        assert forall parent: RecordsId :: parent.key <= id.key && SameReplica(parent, id) && |parent.key| == |key| ==> parent == at;
        if found {
          parents := [at] + parents;
        }
        key := key[..|key| - 1];
      }
    }

    method WouldTake(id: RecordsId, value: Record) returns (take: bool)
      ensures take == WouldInsert(records, id, value)
    {
      var parents := Parents(id);
      for i := 0 to |parents|
        invariant forall j | 0 <= j < i :: parents[j] in records && !AtMost(value, records[parents[j]])
      {
        assert parents[i] in parents;
        if AtMost(value, records[parents[i]]) {
          return false;
        }
      }
      forall parent | parent in records && IsParent(records, id, parent)
        ensures !AtMost(value, records[parent])
      {
        assert parent in parents;
      }
      return true;
    }

    method PutEntry(id: RecordsId, value: Record) returns (inserted: bool)
      modifies this`records, this`byKey
      ensures State() == Put(old(State()), id, value)
      ensures inserted <==> old(WouldInsert(records, id, value))
      ensures !inserted ==> unchanged(this)
      ensures inserted ==> id in records && records[id] == value && byKey == old(byKey) + {ByKeyId(id.ns, id.key, id.author)}
      ensures forall i | i in records && i != id :: i in old(records) && records[i] == old(records)[i]
    {
      var take := WouldTake(id, value);
      if !take {
        return false;
      }
      records := map i | i in records && !(InPrefixBounds(id, i) && AtMost(records[i], value)) :: records[i];
      records := records[id := value];
      byKey := byKey + {IndexRow(id)};
      return true;
    }

    method RetractEntry(id: RecordsId, upTo: nat) returns (removed: bool)
      modifies this`records, this`byKey
      ensures State() == Retract(old(State()), id, upTo)
      ensures removed <==> old(id in records && records[id].timestamp <= upTo)
      ensures id in records ==> records[id].timestamp > upTo
      ensures forall i | i != id :: i in records <==> i in old(records)
      ensures forall i | i in records :: records[i] == old(records)[i]
      ensures forall k | k != ByKeyId(id.ns, id.key, id.author) :: k in byKey <==> k in old(byKey)
    {
      if id !in records || records[id].timestamp > upTo {
        return false;
      }
      records := records - {id};
      byKey := byKey - {IndexRow(id)};
      return true;
    }

    /** Remove a replica, unless it is open: every table loses exactly its rows. */
    method Remove(ns: Id32) returns (ok: bool)
      modifies this`records, this`byKey, this`capabilities, this`peers, this`policies
      ensures Value() == DocStep(old(Value()), Change(DropReplica(ns)))
      ensures ok <==> ns !in openReplicas
      ensures !ok ==> unchanged(this)
      ensures ok ==> forall i :: i in records <==> i in old(records) && i.ns != ns
      ensures ok ==> forall i | i in records :: records[i] == old(records)[i]
      ensures ok ==> forall k :: k in byKey <==> k in old(byKey) && k.ns != ns
      ensures ok ==> capabilities == old(capabilities) - {ns} && peers == old(peers) - {ns} && policies == old(policies) - {ns}
    {
      if ns in openReplicas {
        return false;
      }
      records := map i | i in records && !InRecords(NamespaceStart(ns), NamespaceEnd(ns), i) :: records[i];
      byKey := set k | k in byKey && !InByKey(ByKeyStart(ns, AnyKey), ByKeyEnd(ns, AnyKey), k);
      capabilities := capabilities - {ns};
      peers := peers - {ns};
      policies := policies - {ns};
      hide InRecords, InByKey;
      forall i { NamespaceReach(ns, i); }
      forall k { ByKeyReach(ns, AnyKey, k); }
      return true;
    }
  }
}
