/** The table-backed store against the contract store: when a put through the tables is
    the put of the ranger store trait, and for which runs the two stay the same. */
module Refinement {
  import opened Bytes
  import opened Bounds
  import opened Entries
  import opened Tables
  import opened FsStore
  import Puts

  lemma FlatInjective()
    ensures forall a, b: RecordsId {:trigger Flat(a), Flat(b)} :: Flat(a) == Flat(b) ==> a == b
  {
    forall a, b: RecordsId
      ensures Flat(a) == Flat(b) ==> a == b
    {
      FlatOrder(a, b);
    }
  }

  /** The records as the contract sees them, under their flat identifiers. */
  ghost function Flattened(records: Records): (m: Puts.Contents)
    ensures forall id: RecordsId {:trigger Flat(id)} :: Flat(id) in m <==> id in records
    ensures forall id | id in records :: m[Flat(id)] == records[id]
    ensures forall k | k in m :: exists id | id in records :: k == Flat(id)
  {
    FlatInjective();
    map id | id in records :: Flat(id) := records[id]
  }

  lemma FlattenedInjective(a: Records, b: Records)
    requires Flattened(a) == Flattened(b)
    ensures a == b
  {
    hide Flat, Flattened;
    forall id: RecordsId
      ensures id in a <==> id in b
      ensures id in a ==> a[id] == b[id]
    {
      assert Flat(id) in Flattened(a) <==> id in a;
    }
  }

  /** Flat identifiers are prefixes of each other within one namespace and author. */
  lemma FlatPrefix(a: RecordsId, b: RecordsId)
    ensures Flat(a) <= Flat(b) <==> SameReplica(a, b) && a.key <= b.key
  {
    var x, y := Flat(a), Flat(b);
    assert a.ns == x[..32] && b.ns == y[..32];
    assert a.author == x[32..64] && b.author == y[32..64];
    assert a.key == x[64..] && b.key == y[64..];
    if x <= y {
      assert y[..|x|] == x;
      assert x[..32] == y[..32] && x[32..64] == y[32..64] && y[64..|x|] == x[64..];
      assert y[64..][..|x| - 64] == x[64..];
    }
    if SameReplica(a, b) && a.key <= b.key {
      assert y == a.ns + a.author + (a.key + b.key[|a.key|..]);
      assert y[..|x|] == x;
    }
  }

  /** What a put does by the contract, on table records. */
  function ContractPut(records: Records, id: RecordsId, value: Record): Records {
    if !ContractWouldInsert(records, id, value) then records
    else (map i | i in records && !(SameReplica(i, id) && id.key <= i.key && AtMost(records[i], value)) :: records[i])[id := value]
  }

  lemma ContractPutIsPut(records: Records, id: RecordsId, value: Record)
    ensures Flattened(ContractPut(records, id, value)) == Puts.Put(Flattened(records), Entry(Flat(id), value))
  {
    hide Flat, Flattened, AtMost, Puts.WouldInsert, ContractWouldInsert;
    FlatInjective();
    ContractWouldInsertIs(records, id, value);
    forall i: RecordsId
      ensures Flat(id) <= Flat(i) <==> SameReplica(i, id) && id.key <= i.key
    {
      FlatPrefix(id, i);
    }
    SameFlat(Puts.Put(Flattened(records), Entry(Flat(id), value)), ContractPut(records, id, value));
  }

  lemma ContractWouldInsertIs(records: Records, id: RecordsId, value: Record)
    ensures Puts.WouldInsert(Flattened(records), Entry(Flat(id), value)) <==> ContractWouldInsert(records, id, value)
  {
    hide Flat, Flattened, AtMost;
    var m := Flattened(records);
    forall i: RecordsId
      ensures Flat(i) <= Flat(id) <==> SameReplica(i, id) && i.key <= id.key
    {
      FlatPrefix(i, id);
    }
    if Puts.WouldInsert(m, Entry(Flat(id), value)) {
      forall parent | parent in records && SameReplica(parent, id) && parent.key <= id.key
        ensures !AtMost(value, records[parent])
      {
        assert Flat(parent) in m && m[Flat(parent)] == records[parent];
      }
    }
  }

  lemma SameFlat(m: Puts.Contents, records: Records)
    requires forall k | k in m :: exists id: RecordsId :: k == Flat(id)
    requires forall id: RecordsId :: Flat(id) in m <==> id in records
    requires forall id | id in records :: m[Flat(id)] == records[id]
    ensures Flattened(records) == m
  {
    hide Flat, Flattened;
    var f := Flattened(records);
    forall k
      ensures k in f <==> k in m
      ensures k in f ==> f[k] == m[k]
    {
      if k in m { var id: RecordsId :| k == Flat(id); }
      if k in f { var id :| id in records && k == Flat(id); }
    }
  }

  /** No stray record of the key's bounds is in reach of the put. */
  predicate NoStrayBelow(records: Records, id: RecordsId, value: Record) {
    forall i | i in records && SameReplica(i, id) && Stray(id.key, i.key) :: !AtMost(records[i], value)
  }

  /** The record is there already, and nothing else the put's bounds reach is not larger. */
  predicate Idempotent(records: Records, id: RecordsId, value: Record) {
    && id in records && records[id] == value
    && forall i | i in records && i != id && SameReplica(i, id) && KeyReached(KeyPrefix(id.key), i.key) :: !AtMost(records[i], value)
  }

  /** One put through the tables is the contract's put exactly if the store refuses it;
      or the contract takes it in too and no stray of its bounds is in reach; or the
      contract, which also looks at tombstones and the empty key, refuses it but the
      store only writes again what it has. */
  lemma PutRefines(db: Db, id: RecordsId, value: Record)
    ensures Flattened(Put(db, id, value).records) == Puts.Put(Flattened(db.records), Entry(Flat(id), value)) <==>
      || !WouldInsert(db.records, id, value)
      || (if ContractWouldInsert(db.records, id, value) then NoStrayBelow(db.records, id, value)
          else Idempotent(db.records, id, value))
  {
    hide Flattened, Stray, InPrefixBounds;
    var records := db.records;
    TakesMoreThanContract(records, id, value);
    ContractPutIsPut(records, id, value);
    if Flattened(Put(db, id, value).records) == Flattened(ContractPut(records, id, value)) {
      FlattenedInjective(Put(db, id, value).records, ContractPut(records, id, value));
    }
    if WouldInsert(records, id, value) {
      TablePut(db, id, value);
    }
  }

  /** The same on table records. */
  lemma TablePut(db: Db, id: RecordsId, value: Record)
    requires WouldInsert(db.records, id, value)
    ensures Put(db, id, value).records == ContractPut(db.records, id, value) <==>
      if ContractWouldInsert(db.records, id, value) then NoStrayBelow(db.records, id, value)
      else Idempotent(db.records, id, value)
  {
    hide *;
    if ContractWouldInsert(db.records, id, value) {
      BothTake(db, id, value);
    } else {
      OnlyTableTakes(db, id, value);
    }
  }

  lemma BothTake(db: Db, id: RecordsId, value: Record)
    requires WouldInsert(db.records, id, value) && ContractWouldInsert(db.records, id, value)
    ensures Put(db, id, value).records == ContractPut(db.records, id, value) <==> NoStrayBelow(db.records, id, value)
  {
    hide Stray, InPrefixBounds, WouldInsert, ContractWouldInsert;
    var records, after, wanted := db.records, Put(db, id, value).records, ContractPut(db.records, id, value);
    forall i | i in records && i != id
      ensures i in wanted && i !in after <==> SameReplica(i, id) && AtMost(records[i], value) && Stray(id.key, i.key)
      ensures i in after ==> i in wanted
    {
      PutPrunes(db, id, value, i);
      if Stray(id.key, i.key) { StrayNotPrefix(id.key, i.key); }
    }
    if Stray(id.key, id.key) { StrayNotPrefix(id.key, id.key); }
    assert forall i | i in after && i != id :: i in records && after[i] == records[i];
    assert forall i | i in wanted && i != id :: i in records && wanted[i] == records[i];
    if NoStrayBelow(records, id, value) {
      assert after.Keys == wanted.Keys;
    }
  }

  lemma OnlyTableTakes(db: Db, id: RecordsId, value: Record)
    requires WouldInsert(db.records, id, value) && !ContractWouldInsert(db.records, id, value)
    ensures Put(db, id, value).records == ContractPut(db.records, id, value) <==> Idempotent(db.records, id, value)
  {
    hide Stray, InPrefixBounds, WouldInsert, ContractWouldInsert;
    var records, after := db.records, Put(db, id, value).records;
    forall i | i in records && i != id
      ensures i !in after <==> SameReplica(i, id) && AtMost(records[i], value) && KeyReached(KeyPrefix(id.key), i.key)
    {
      PutPrunes(db, id, value, i);
    }
    assert forall i | i in after && i != id :: i in records && after[i] == records[i];
    if Idempotent(records, id, value) {
      assert after.Keys == records.Keys;
    }
  }

  // ---- whole runs ----

  /** A put of a live record, below the empty key, whose bounds are exact. */
  predicate PlainPut(id: RecordsId, value: Record) {
    id.key != [] && !IsEmpty(value) && ExactBounds(KeyPrefix(id.key))
  }

  predicate PlainRun(ws: seq<Write>) {
    forall w | w in ws :: w.PutRecord? && PlainPut(w.id, w.value)
  }

  function EntriesPut(ws: seq<Write>): seq<Entry>
    requires forall w | w in ws :: w.PutRecord?
  {
    if ws == [] then [] else EntriesPut(ws[..|ws| - 1]) + [Entry(Flat(ws[|ws| - 1].id), ws[|ws| - 1].value)]
  }

  predicate NoTombstones(records: Records) {
    forall i | i in records :: i.key != [] && !IsEmpty(records[i])
  }

  /** A run of plain puts through the tables is the contract store's run: the tables hold
      exactly the maximal entries of all that was put. */
  lemma {:induction false} PlainRunsRefine(ws: seq<Write>)
    requires PlainRun(ws)
    ensures Flattened(ApplyAll(ws).records) == Puts.PutAll(map[], EntriesPut(ws))
    ensures Puts.EntriesOf(Flattened(ApplyAll(ws).records)) == Maximal(Puts.Elements(EntriesPut(ws)))
  {
    hide Apply, Flattened, Flat, ExactBounds, NoTombstones, Maximal;
    RunRefines(ws);
    assert Puts.EntriesOf(map[]) == {};
    Puts.PutAllIsMaximal(map[], EntriesPut(ws));
    assert {} + Puts.Elements(EntriesPut(ws)) == Puts.Elements(EntriesPut(ws));
  }

  lemma {:induction false} RunRefines(ws: seq<Write>)
    requires PlainRun(ws)
    ensures Flattened(ApplyAll(ws).records) == Puts.PutAll(map[], EntriesPut(ws))
    ensures NoTombstones(ApplyAll(ws).records)
  {
    hide Flattened, Flat, ExactBounds, NoTombstones, Put, Puts.Put;
    if ws == [] {
      NothingFlat();
    } else {
      var init, last := ws[..|ws| - 1], ws[|ws| - 1];
      RunRefines(init);
      PlainStep(ApplyAll(init), last.id, last.value);
      var es := EntriesPut(init);
      assert (es + [Entry(Flat(last.id), last.value)])[..|es|] == es;
    }
  }

  lemma NothingFlat()
    ensures Flattened(EMPTY_DB.records) == map[] && NoTombstones(EMPTY_DB.records)
  {
  }

  lemma PlainStep(db: Db, id: RecordsId, value: Record)
    requires NoTombstones(db.records) && PlainPut(id, value)
    ensures Flattened(Put(db, id, value).records) == Puts.Put(Flattened(db.records), Entry(Flat(id), value))
    ensures NoTombstones(Put(db, id, value).records)
  {
    hide Flattened, Flat, ExactBounds, Stray, InPrefixBounds;
    PutRefines(db, id, value);
    TakesMoreThanContract(db.records, id, value);
    NoStray(KeyPrefix(id.key));
    forall i | i in db.records
      ensures !Stray(id.key, i.key)
    {
      assert KeyReached(KeyPrefix(id.key), i.key) <==> KeyMatches(KeyPrefix(id.key), i.key);
      if Stray(id.key, i.key) { StrayNotPrefix(id.key, i.key); }
    }
  }

  /** So on plain puts order and repetition do not matter for the tables either. */
  lemma PlainPutsOrderIndependent(ws: seq<Write>, vs: seq<Write>)
    requires PlainRun(ws) && PlainRun(vs)
    requires Puts.Elements(EntriesPut(ws)) == Puts.Elements(EntriesPut(vs))
    ensures ApplyAll(ws).records == ApplyAll(vs).records
  {
    hide ApplyAll, Flattened, EntriesPut;
    PlainRunsRefine(ws);
    PlainRunsRefine(vs);
    Puts.EntriesDetermineContents(Flattened(ApplyAll(ws).records), Flattened(ApplyAll(vs).records));
    FlattenedInjective(ApplyAll(ws).records, ApplyAll(vs).records);
  }

  /** After any run of plain puts the record of an identifier is the latest put there, by
      time and then by hash, provided it is also later than every put of that author at a
      prefix of its key; otherwise there is none. */
  lemma LatestRecordWins(ws: seq<Write>, id: RecordsId, value: Record)
    requires PlainRun(ws)
    ensures var records := ApplyAll(ws).records;
      id in records && records[id] == value <==>
        && PutRecord(id, value) in ws
        && forall w | w in ws && w.PutRecord? && SameReplica(w.id, id) && w.id.key <= id.key && w != PutRecord(id, value) ::
             Puts.Older(w.value, value)
  {
    hide ApplyAll, Flattened, Flat, Puts.PutAll, PlainPut, Puts.Older;
    PlainRunsRefine(ws);
    var es, e := EntriesPut(ws), Entry(Flat(id), value);
    Puts.LatestPutWins(es, e);
    forall w | w in ws
      ensures w.PutRecord? && Entry(Flat(w.id), w.value) in es
      ensures Flat(w.id) <= Flat(id) <==> SameReplica(w.id, id) && w.id.key <= id.key
      ensures Entry(Flat(w.id), w.value) == e <==> w == PutRecord(id, value)
    {
      EntriesPutMembers(ws, Entry(Flat(w.id), w.value));
      FlatPrefix(w.id, id);
      FlatOrder(w.id, id);
    }
    forall f | f in es
      ensures exists w | w in ws :: w.PutRecord? && f == Entry(Flat(w.id), w.value)
    {
      EntriesPutMembers(ws, f);
    }
  }

  lemma {:induction false} EntriesPutMembers(ws: seq<Write>, f: Entry)
    requires forall w | w in ws :: w.PutRecord?
    ensures f in EntriesPut(ws) <==> exists w | w in ws :: f == Entry(Flat(w.id), w.value)
  {
    hide Flat;
    if ws != [] {
      var init, last := ws[..|ws| - 1], ws[|ws| - 1];
      assert ws == init + [last];
      EntriesPutMembers(init, f);
    }
  }
}
