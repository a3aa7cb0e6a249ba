/** The batched transaction slot of the table-backed store, against one plain map. */
module Transactions {
  import opened Bytes
  import opened Basics

  /** The contents of all tables. */
  type Data = map<Bytes, Bytes>

  datatype Slot =
    | Idle
    | Reading(tables: Data)
    | Writing(tables: Data, dirty: bool)

  /** `young` says whether an open write transaction is within the commit delay. A
      change is applied as a whole, also when it reports an error afterwards. */
  datatype Op =
    | Modify(change: Data -> Data, young: bool)
    | ReadTables(young: bool)
    | Snapshot
    | SnapshotOwned
    | Flush

  /** The batched store, and the owned snapshots that are still held. */
  datatype State = State(committed: Data, slot: Slot, held: seq<Data>)

  /** Commit a write transaction, or drop it if nothing was written through it. */
  function Finished(s: State): State {
    if s.slot.Writing? && s.slot.dirty then s.(committed := s.slot.tables, slot := Idle) else s.(slot := Idle)
  }

  /** The write transaction to work in. */
  function Opened(s: State, young: bool): (t: State)
    ensures t.slot.Writing?
  {
    if s.slot.Writing? && young then s
    else
      var done := Finished(s);
      done.(slot := Writing(done.committed, false))
  }

  function Step(s: State, op: Op): (State, Option<Data>) {
    match op
    case Modify(change, young) =>
      var t := Opened(s, young);
      (t.(slot := Writing(change(t.slot.tables), true)), None)
    case ReadTables(young) =>
      var t := Opened(s, young);
      (t, Some(t.slot.tables))
    case Snapshot =>
      if s.slot.Reading? then (s, Some(s.slot.tables))
      else
        var t := Finished(s);
        (t.(slot := Reading(t.committed)), Some(t.committed))
    case SnapshotOwned =>
      var t := Finished(s);
      (t.(held := t.held + [t.committed]), Some(t.committed))
    case Flush => (Finished(s), None)
  }

  const INITIAL := State(map[], Idle, [])

  function Run(ops: seq<Op>): State {
    if ops == [] then INITIAL else Step(Run(ops[..|ops| - 1]), ops[|ops| - 1]).0
  }

  // ---- the plain map ----

  function Plain(ops: seq<Op>): Data {
    if ops == [] then map[]
    else
      var before, last := Plain(ops[..|ops| - 1]), ops[|ops| - 1];
      if last.Modify? then last.change(before) else before
  }

  predicate Reads(op: Op) {
    op.ReadTables? || op.Snapshot? || op.SnapshotOwned?
  }

  function PlainSnapshots(ops: seq<Op>): seq<Data> {
    if ops == [] then []
    else
      var before, last := PlainSnapshots(ops[..|ops| - 1]), ops[|ops| - 1];
      if last.SnapshotOwned? then before + [Plain(ops[..|ops| - 1])] else before
  }

  /** The map the slot stands for. */
  function Current(s: State): Data {
    if s.slot.Writing? then s.slot.tables else s.committed
  }

  /** A clean write transaction and a reused read snapshot show the committed data. */
  ghost predicate Consistent(s: State) {
    match s.slot
    case Idle => true
    case Reading(tables) => tables == s.committed
    case Writing(tables, dirty) => !dirty ==> tables == s.committed
  }

  lemma StepRefines(s: State, op: Op)
    requires Consistent(s)
    ensures var (t, seen) := Step(s, op);
      && Consistent(t)
      && Current(t) == (if op.Modify? then op.change(Current(s)) else Current(s))
      && (Reads(op) ==> seen == Some(Current(s)))
      && (op.Snapshot? || op.SnapshotOwned? || op.Flush? ==> t.committed == Current(s))
      && (t.committed == s.committed || t.committed == Current(s))
      && t.held == (if op.SnapshotOwned? then s.held + [Current(s)] else s.held)
  {
  }

  /** The batched store is one map over every run: what it shows is the plain map, the
      owned snapshots hold every write made before they were taken and never change
      after, and what is committed is the map as it was at some earlier point. */
  lemma {:induction false} BatchingRefines(ops: seq<Op>) returns (persisted: nat)
    ensures Consistent(Run(ops)) && Current(Run(ops)) == Plain(ops)
    ensures Run(ops).held == PlainSnapshots(ops)
    ensures persisted <= |ops| && Run(ops).committed == Plain(ops[..persisted])
    ensures ops != [] && (ops[|ops| - 1].Snapshot? || ops[|ops| - 1].SnapshotOwned? || ops[|ops| - 1].Flush?) ==> Run(ops).committed == Plain(ops)
  {
    hide Step;
    if ops == [] {
      persisted := 0;
    } else {
      var before := ops[..|ops| - 1];
      persisted := BatchingRefines(before);
      StepRefines(Run(before), ops[|ops| - 1]);
      if Run(ops).committed == Run(before).committed {
        assert before[..persisted] == ops[..persisted];
      } else {
        persisted := |before|;
      }
    }
  }

  /** Each read sees all earlier writes. */
  lemma ReadsSeeWrites(ops: seq<Op>, read: Op)
    requires Reads(read)
    ensures Step(Run(ops), read).1 == Some(Plain(ops))
  {
    var persisted := BatchingRefines(ops);
    StepRefines(Run(ops), read);
  }

  /** A read or write through an old transaction first commits everything written before
      it; through a young one it commits nothing. */
  lemma AgeCommits(ops: seq<Op>, op: Op)
    requires op.Modify? || op.ReadTables?
    ensures var s, t := Run(ops), Step(Run(ops), op).0;
      && (!op.young ==> t.committed == Plain(ops))
      && (op.young && s.slot.Writing? ==> t.committed == s.committed)
      && (op.young && !s.slot.Writing? ==> t.committed == s.committed == Plain(ops))
  {
    hide Run, Plain;
    var persisted := BatchingRefines(ops);
  }

  /** A transaction that was only read through is dropped without a commit, and a write is
      lost by nothing but a crash: dropping clean transactions loses nothing. */
  lemma CleanCommitsNothing(s: State, op: Op)
    requires Consistent(s) && (s.slot.Writing? ==> !s.slot.dirty)
    ensures Step(s, op).0.committed == s.committed && Current(s) == s.committed
    ensures !op.Modify? ==> (Step(s, op).0.slot.Writing? ==> !Step(s, op).0.slot.dirty)
  {
  }

  /** The store, with the transaction slot taken and replaced as the program does it. */
  class Store {
    var committed: Data
    var slot: Slot
    ghost var held: seq<Data>

    ghost function Value(): State
      reads this
    {
      State(committed, slot, held)
    }

    constructor ()
      ensures Value() == INITIAL
    {
      committed, slot, held := map[], Idle, [];
    }

    method FinishWrite(w: Slot)
      requires w.Writing?
      modifies this`committed
      ensures committed == if w.dirty then w.tables else old(committed)
    {
      if !w.dirty {
        return;
      }
      committed := w.tables;
    }

    method FlushStore()
      modifies this`slot, this`committed
      ensures (Value(), None) == Step(old(Value()), Flush)
    {
      var taken := slot;
      slot := Idle;
      if taken.Writing? {
        FinishWrite(taken);
      }
    }

    method TakeSnapshot() returns (tables: Data)
      modifies this`slot, this`committed
      ensures (Value(), Some(tables)) == Step(old(Value()), Snapshot)
    {
      var taken := slot;
      slot := Idle;
      match taken {
        case Idle =>
          tables := committed;
        case Writing(_, _) =>
          FinishWrite(taken);
          tables := committed;
        case Reading(reused) =>
          tables := reused;
      }
      slot := Reading(tables);
    }

    method TakeSnapshotOwned() returns (tables: Data)
      modifies this
      ensures (Value(), Some(tables)) == Step(old(Value()), SnapshotOwned)
    {
      FlushStore();
      assert slot.Idle?;
      tables := committed;
      held := held + [tables];
    }

    method CurrentWriteTransaction(young: bool) returns (w: Slot)
      modifies this`slot, this`committed
      ensures w.Writing? && slot.Idle?
      ensures Value().(slot := w) == Opened(old(Value()), young)
    {
      var taken := slot;
      slot := Idle;
      if taken.Writing? && young {
        return taken;
      }
      if taken.Writing? {
        FinishWrite(taken);
      }
      w := Writing(committed, false);
    }

    method Tables(young: bool) returns (tables: Data)
      modifies this`slot, this`committed
      ensures (Value(), Some(tables)) == Step(old(Value()), ReadTables(young))
    {
      slot := CurrentWriteTransaction(young);
      tables := slot.tables;
    }

    method ModifyTables(change: Data -> Data, young: bool)
      modifies this`slot, this`committed
      ensures (Value(), None) == Step(old(Value()), Modify(change, young))
    {
      var w := CurrentWriteTransaction(young);
      slot := Writing(change(w.tables), true);
    }
  }
}