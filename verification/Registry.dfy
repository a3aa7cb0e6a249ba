/** The actor's registry of open replicas and of the snapshots its sync sessions read. */
module Registry {
  import opened Bytes
  import Transactions
  import opened Basics

  type NamespaceId = Bytes

  type Data = Transactions.Data

  datatype OpenReplica = OpenReplica(handles: nat, sync: bool)

  datatype Snapshot = Snapshot(ns: NamespaceId, tables: Data)

  type Open = map<NamespaceId, OpenReplica>

  datatype SessionId = SessionId(actor: nat, seqNo: nat)

  /** Sessions by their full id, the issuing actor included. */
  type Sessions = map<SessionId, Snapshot>

  /** The actor, and what keeps a session's registration referenced: its handle (the
      `handles` set), or its release message while that is queued. `frozen` records what
      the store held when each session was started; `data` is what it holds now. */
  datatype World = World(
    actor: nat, open: Open, sessions: Sessions, next: nat,
    handles: set<SessionId>, queued: set<SessionId>,
    data: Data, frozen: map<SessionId, Snapshot>)

  /** A handle's release goes to the actor that issued it; a release of another actor's
      session, should one arrive, may arrive at any time. */
  datatype Action =
    | OpenReplicaAt(ns: NamespaceId, sync: bool, loads: bool)
    | CloseReplica(ns: NamespaceId)
    | SetSync(ns: NamespaceId, sync: bool)
    | StartSession(ns: NamespaceId, delivered: bool)
    | DropHandle(session: SessionId, queueFull: bool)
    | Release(session: SessionId)
    | Sweep
    | WriteData(data: Data)
    | Shutdown

  const USIZE: nat := 0x1_0000_0000_0000_0000

  /** `wrapping_sub(1)` on the handle count. */
  function WrappingPred(n: nat): nat {
    if n == 0 then USIZE - 1 else n - 1
  }

  function Opened(open: Open, ns: NamespaceId, sync: bool, loads: bool): Open {
    if ns in open then open[ns := OpenReplica(open[ns].handles + 1, open[ns].sync || sync)]
    else if loads then open[ns := OpenReplica(1, sync)]
    else open
  }

  /** The replicas after one close, and whether the replica is closed now. */
  function Closed(open: Open, ns: NamespaceId): (Open, bool) {
    if ns !in open then (open, true)
    else
      var left := WrappingPred(open[ns].handles);
      if left == 0 then (open - {ns}, true) else (open[ns := open[ns].(handles := left)], false)
  }

  function Without(sessions: Sessions, ns: NamespaceId): Sessions {
    map id | id in sessions && sessions[id].ns != ns :: sessions[id]
  }

  predicate Syncing(open: Open, ns: NamespaceId) {
    ns in open && open[ns].sync
  }

  function Act(w: World, a: Action): World {
    match a
    case OpenReplicaAt(ns, sync, loads) => w.(open := Opened(w.open, ns, sync, loads))
    case CloseReplica(ns) =>
      var (open, closed) := Closed(w.open, ns);
      if closed then w.(open := open, sessions := Without(w.sessions, ns)) else w.(open := open)
    case SetSync(ns, sync) => if ns in w.open then w.(open := w.open[ns := w.open[ns].(sync := sync)]) else w
    case StartSession(ns, delivered) =>
      if !Syncing(w.open, ns) then w
      else
        var id, snapshot := NextId(w), Snapshot(ns, w.data);
        w.(sessions := w.sessions[id := snapshot], next := w.next + 1, frozen := w.frozen[id := snapshot],
           handles := if delivered then w.handles + {id} else w.handles)
    case DropHandle(session, queueFull) =>
      if session !in w.handles then w
      else w.(handles := w.handles - {session}, queued := if queueFull then w.queued else w.queued + {session})
    case Release(session) =>
      if Arrives(w, session) then w.(sessions := w.sessions - {session}, queued := w.queued - {session}) else w
    case Sweep => w.(sessions := map id | id in w.sessions && Referenced(w, id) :: w.sessions[id])
    case WriteData(data) => w.(data := data)
    case Shutdown => w.(sessions := map[], open := map[])
  }

  /** The id the next session gets. */
  function NextId(w: World): SessionId {
    SessionId(w.actor, w.next)
  }

  predicate Arrives(w: World, session: SessionId) {
    session in w.queued || session.actor != w.actor
  }

  predicate Referenced(w: World, id: SessionId) {
    id in w.handles || id in w.queued
  }

  function Fresh(actor: nat): World {
    World(actor, map[], map[], 0, {}, {}, map[], map[])
  }

  function ActAll(actor: nat, actions: seq<Action>): World {
    if actions == [] then Fresh(actor) else Act(ActAll(actor, actions[..|actions| - 1]), actions[|actions| - 1])
  }

  /** An id that this actor has issued. */
  predicate Issued(w: World, id: SessionId) {
    id.actor == w.actor && id.seqNo < w.next
  }

  ghost predicate Safe(w: World) {
    && (forall ns | ns in w.open :: w.open[ns].handles >= 1)
    && (forall id | id in w.sessions :: w.sessions[id].ns in w.open && id in w.frozen && w.sessions[id] == w.frozen[id])
    && (forall id | id in w.frozen :: Issued(w, id))
    && (forall id | id in w.handles :: Issued(w, id) && id !in w.queued)
    && (forall id | id in w.queued :: Issued(w, id))
  }

  lemma ActKeepsSafe(w: World, a: Action)
    requires Safe(w)
    ensures Safe(Act(w, a))
    ensures forall id | id in w.frozen :: id in Act(w, a).frozen && Act(w, a).frozen[id] == w.frozen[id]
  {
    hide Act, Safe;
    match a
    case OpenReplicaAt(ns, sync, loads) => OpenKeepsSafe(w, ns, sync, loads);
    case CloseReplica(ns) => CloseKeepsSafe(w, ns);
    case SetSync(ns, sync) => OthersKeepSafe(w, a);
    case StartSession(ns, delivered) => StartKeepsSafe(w, ns, delivered);
    case DropHandle(session, queueFull) => DropKeepsSafe(w, session, queueFull);
    case Release(session) => OthersKeepSafe(w, a);
    case Sweep => OthersKeepSafe(w, a);
    case WriteData(data) => OthersKeepSafe(w, a);
    case Shutdown => OthersKeepSafe(w, a);
  }

  lemma OthersKeepSafe(w: World, a: Action)
    requires Safe(w) && (a.SetSync? || a.Release? || a.Sweep? || a.WriteData? || a.Shutdown?)
    ensures Safe(Act(w, a)) && Act(w, a).frozen == w.frozen
  {
  }

  lemma DropKeepsSafe(w: World, session: SessionId, queueFull: bool)
    requires Safe(w)
    ensures Safe(Act(w, DropHandle(session, queueFull))) && Act(w, DropHandle(session, queueFull)).frozen == w.frozen
  {
  }

  lemma OpenKeepsSafe(w: World, ns: NamespaceId, sync: bool, loads: bool)
    requires Safe(w)
    ensures Safe(Act(w, OpenReplicaAt(ns, sync, loads))) && Act(w, OpenReplicaAt(ns, sync, loads)).frozen == w.frozen
  {
  }

  lemma CloseKeepsSafe(w: World, ns: NamespaceId)
    requires Safe(w)
    ensures Safe(Act(w, CloseReplica(ns))) && Act(w, CloseReplica(ns)).frozen == w.frozen
  {
  }

  lemma StartKeepsSafe(w: World, ns: NamespaceId, delivered: bool)
    requires Safe(w)
    ensures var t := Act(w, StartSession(ns, delivered));
      Safe(t) && forall id | id in w.frozen :: id in t.frozen && t.frozen[id] == w.frozen[id]
  {
  }

  /** Over every run: each open replica has a handle, each session's namespace is open,
      an id stands for the snapshot frozen at its own start, and ids are not reused. */
  lemma {:induction false} RegistrySafe(actor: nat, actions: seq<Action>)
    ensures Safe(ActAll(actor, actions)) && ActAll(actor, actions).actor == actor
  {
    hide Safe;
    if actions == [] {
      FreshSafe(actor);
    } else {
      RegistrySafe(actor, actions[..|actions| - 1]);
      ActKeepsSafe(ActAll(actor, actions[..|actions| - 1]), actions[|actions| - 1]);
    }
  }

  lemma FreshSafe(actor: nat)
    ensures Safe(Fresh(actor))
  {
  }

  /** The count never wraps: a close takes exactly one handle away. */
  lemma CloseNeverWraps(actor: nat, actions: seq<Action>, ns: NamespaceId)
    ensures var w := ActAll(actor, actions);
      ns in w.open ==> WrappingPred(w.open[ns].handles) == w.open[ns].handles - 1
  {
    RegistrySafe(actor, actions);
  }

  /** Nor does it overflow: there are never more handles than there were opens, so the
      next open of a run shorter than the range of the count stays in that range. */
  lemma {:induction false} OpenNeverOverflows(actor: nat, actions: seq<Action>, ns: NamespaceId)
    ensures var w := ActAll(actor, actions);
      && (ns in w.open ==> w.open[ns].handles <= |actions|)
      && (ns in w.open && |actions| < USIZE - 1 ==> w.open[ns].handles + 1 < USIZE)
  {
    hide Act;
    if actions != [] {
      var init := actions[..|actions| - 1];
      OpenNeverOverflows(actor, init, ns);
      RegistrySafe(actor, init);
      OneMoreHandle(ActAll(actor, init), actions[|actions| - 1], ns);
    }
  }

  lemma OneMoreHandle(w: World, a: Action, ns: NamespaceId)
    requires Safe(w)
    ensures ns in Act(w, a).open ==> Act(w, a).open[ns].handles <= 1 + if ns in w.open then w.open[ns].handles else 0
  {
  }

  /** In every run the sync flag of a replica falls exactly by being set so, by the last
      close or by a shutdown, and rises exactly by an open with sync or by being set so: an
      open without sync leaves it. */
  lemma SyncFlagChanges(actor: nat, actions: seq<Action>, a: Action, ns: NamespaceId)
    ensures var w := ActAll(actor, actions); var t := Act(w, a);
      && (Syncing(w.open, ns) && !Syncing(t.open, ns) <==>
            && Syncing(w.open, ns)
            && (a == SetSync(ns, false) || (a == CloseReplica(ns) && w.open[ns].handles == 1) || a.Shutdown?))
      && (!Syncing(w.open, ns) && Syncing(t.open, ns) <==>
            && !Syncing(w.open, ns)
            && ((a.OpenReplicaAt? && a.ns == ns && a.sync && (ns in w.open || a.loads)) || (a == SetSync(ns, true) && ns in w.open)))
  {
    hide ActAll;
    RegistrySafe(actor, actions);
  }

  /** In every run the handles of a replica are one more after an open of it, one fewer
      after a close, and otherwise as they were; it is open exactly while it has some. */
  lemma HandlesCount(actor: nat, actions: seq<Action>, a: Action, ns: NamespaceId)
    ensures var w := ActAll(actor, actions);
      Handles(Act(w, a), ns) ==
        if a.Shutdown? then 0
        else if a == CloseReplica(ns) && Handles(w, ns) > 0 then Handles(w, ns) - 1
        else if a.OpenReplicaAt? && a.ns == ns && (Handles(w, ns) > 0 || a.loads) then Handles(w, ns) + 1
        else Handles(w, ns)
    ensures ns in ActAll(actor, actions).open <==> Handles(ActAll(actor, actions), ns) > 0
  {
    hide ActAll;
    RegistrySafe(actor, actions);
  }

  function Handles(w: World, ns: NamespaceId): nat {
    if ns in w.open then w.open[ns].handles else 0
  }

  /** In every run a session with a live handle goes away only by the last close of its
      replica or by shutdown; and a session goes away at all only so, by its own release,
      or by a sweep that finds it unreferenced. */
  lemma SessionRemoval(actor: nat, actions: seq<Action>, a: Action, id: SessionId)
    ensures var w := ActAll(actor, actions);
      id in w.sessions && id !in Act(w, a).sessions ==>
        || a.Shutdown?
        || (a == CloseReplica(w.sessions[id].ns) && w.sessions[id].ns in w.open && w.open[w.sessions[id].ns].handles == 1)
        || (id !in w.handles && (a == Release(id) || (a.Sweep? && id !in w.queued)))
  {
    RegistrySafe(actor, actions);
  }

  /** A session that nothing references any more, because its handle was never delivered
      or its release was lost to a full queue, is gone for good from the next sweep on,
      whatever else happens before and after. */
  lemma {:induction false} AbandonedIsReclaimed(actor: nat, before: seq<Action>, after: seq<Action>, id: SessionId)
    requires Issued(ActAll(actor, before), id) && !Referenced(ActAll(actor, before), id)
    ensures var w := ActAll(actor, before + after);
      && Issued(w, id) && !Referenced(w, id)
      && (Sweep in after ==> id !in w.sessions)
  {
    hide Act, Issued, Referenced;
    if after == [] {
      assert before + after == before;
    } else {
      var init, last := after[..|after| - 1], after[|after| - 1];
      assert (before + after)[..|before + after| - 1] == before + init;
      assert after == init + [last];
      AbandonedIsReclaimed(actor, before, init, id);
      StaysAbandoned(ActAll(actor, before + init), last, id);
    }
  }

  lemma StaysAbandoned(w: World, a: Action, id: SessionId)
    requires Issued(w, id) && !Referenced(w, id)
    ensures Issued(Act(w, a), id) && !Referenced(Act(w, a), id)
    ensures a.Sweep? || id !in w.sessions ==> id !in Act(w, a).sessions
  {
  }

  /** For instance a session whose reply never reached the caller. */
  lemma UndeliveredIsReclaimed(actor: nat, before: seq<Action>, ns: NamespaceId, after: seq<Action>)
    requires Syncing(ActAll(actor, before).open, ns)
    ensures var id := NextId(ActAll(actor, before));
      && id in ActAll(actor, before + [StartSession(ns, false)]).sessions
      && (Sweep in after ==> id !in ActAll(actor, before + [StartSession(ns, false)] + after).sessions)
  {
    var start := before + [StartSession(ns, false)];
    assert start[..|start| - 1] == before;
    RegistrySafe(actor, before);
    AbandonedIsReclaimed(actor, start, after, NextId(ActAll(actor, before)));
  }

  datatype Resolved = Found(tables: Data) | OtherActor | NotRegistered | OtherNamespace

  function Resolve(sessions: Sessions, actor: nat, id: SessionId, ns: NamespaceId): Resolved {
    if id.actor != actor then OtherActor
    else if id !in sessions then NotRegistered
    else if sessions[id].ns != ns then OtherNamespace
    else Found(sessions[id].tables)
  }

  /** Later data, whatever happens, never shows through a session id: a session started
      at some point resolves, from then on, to the data of that point or not at all. */
  lemma {:induction false} ResolvesToOwnStart(actor: nat, before: seq<Action>, after: seq<Action>, ns: NamespaceId, delivered: bool)
    requires Syncing(ActAll(actor, before).open, ns)
    ensures var w := ActAll(actor, before); var later := ActAll(actor, before + [StartSession(ns, delivered)] + after);
      && NextId(w) in later.frozen && later.frozen[NextId(w)] == Snapshot(ns, w.data)
      && (forall name :: Resolve(later.sessions, actor, NextId(w), name).Found? ==>
            name == ns && Resolve(later.sessions, actor, NextId(w), name).tables == w.data)
  {
    hide Act;
    var w, start := ActAll(actor, before), before + [StartSession(ns, delivered)];
    RegistrySafe(actor, start + after);
    if after == [] {
      assert start + after == start && start[..|start| - 1] == before;
      StartFreezes(w, ns, delivered);
    } else {
      var init := after[..|after| - 1];
      assert (start + after)[..|start + after| - 1] == start + init;
      ResolvesToOwnStart(actor, before, init, ns, delivered);
      RegistrySafe(actor, start + init);
      ActKeepsSafe(ActAll(actor, start + init), after[|after| - 1]);
    }
  }

  lemma StartFreezes(w: World, ns: NamespaceId, delivered: bool)
    requires Syncing(w.open, ns)
    ensures var t := Act(w, StartSession(ns, delivered)); NextId(w) in t.frozen && t.frozen[NextId(w)] == Snapshot(ns, w.data)
  {
  }

  lemma ActSnoc(actor: nat, actions: seq<Action>, a: Action)
    ensures ActAll(actor, actions + [a]) == Act(ActAll(actor, actions), a)
  {
    assert (actions + [a])[..|actions|] == actions;
  }

  /** The registry as the program runs it. `open`, `sessions` and `next` are the actor's
      own; `data` is its store; `handles` and `queued` stand for the references that the
      runtime counts. Every method is one action of the run recorded in `history`. */
  class Actor {
    const actor: nat
    var open: Open
    var sessions: Sessions
    var next: nat
    var data: Data
    var handles: set<SessionId>
    var queued: set<SessionId>
    ghost var frozen: map<SessionId, Snapshot>
    ghost var history: seq<Action>

    ghost function Value(): World
      reads this
    {
      World(actor, open, sessions, next, handles, queued, data, frozen)
    }

    /** The actor is where the recorded run leads, hence safe. */
    ghost predicate Valid()
      reads this
    {
      Value() == ActAll(actor, history) && Safe(Value())
    }

    constructor (actor: nat)
      ensures Valid() && this.actor == actor && history == []
    {
      this.actor := actor;
      open, sessions, next, data, handles, queued, frozen, history := map[], map[], 0, map[], {}, {}, map[], [];
    }

    method OpenAt(ns: NamespaceId, sync: bool, loads: bool) returns (ok: bool)
      requires Valid()
      modifies this
      ensures Valid() && history == old(history) + [OpenReplicaAt(ns, sync, loads)]
      ensures ok <==> ns in open
      ensures ok ==> open[ns].handles == if old(ns in open) then old(open)[ns].handles + 1 else 1
      ensures sync && ok ==> Syncing(open, ns)
      ensures forall n | n != ns :: n in open <==> n in old(open)
    {
      hide ActAll, Safe;
      Next(OpenReplicaAt(ns, sync, loads));
      if ns !in open {
        if !loads {
          return false;
        }
        open := open[ns := OpenReplica(1, sync)];
      } else {
        var state := open[ns];
        state := state.(handles := state.handles + 1);
        state := state.(sync := state.sync || sync);
        open := open[ns := state];
      }
      return true;
    }

    /** Records an action; where it leads is known to be safe. */
    ghost method Next(a: Action)
      requires Valid()
      modifies this`history
      ensures history == old(history) + [a]
      ensures ActAll(actor, history) == Act(old(Value()), a) && Safe(Act(old(Value()), a))
    {
      ActSnoc(actor, history, a);
      ActKeepsSafe(Value(), a);
      history := history + [a];
    }

    method Close(ns: NamespaceId) returns (closed: bool)
      requires Valid()
      modifies this
      ensures Valid() && history == old(history) + [CloseReplica(ns)]
      ensures closed <==> ns !in open
      ensures !closed ==> open[ns].handles == old(open)[ns].handles - 1 && sessions == old(sessions)
      ensures closed ==> forall id | id in old(sessions) :: id in sessions <==> old(sessions)[id].ns != ns
    {
      hide ActAll, Safe;
      SafeHandles(Value());
      Next(CloseReplica(ns));
      closed := true;
      if ns in open {
        open := open[ns := open[ns].(handles := WrappingPred(open[ns].handles))];
        if open[ns].handles == 0 {
          open := open - {ns};
          assert open == old(open) - {ns};
        } else {
          closed := false;
        }
      }
      if closed {
        sessions := map id | id in sessions && sessions[id].ns != ns :: sessions[id];
      }
    }

    /** Registers a session over the data as it is now; `delivered` says whether the reply
        with its handle reaches the caller. */
    method Start(ns: NamespaceId, delivered: bool) returns (id: Option<SessionId>)
      requires Valid()
      modifies this
      ensures Valid() && history == old(history) + [StartSession(ns, delivered)]
      ensures id.Some? <==> Syncing(open, ns)
      ensures id.None? ==> sessions == old(sessions)
      ensures id.Some? ==> id.value !in old(sessions) && Resolve(sessions, actor, id.value, ns) == Found(data)
      ensures id.Some? ==> forall other, n | other != id.value ::
        Resolve(sessions, actor, other, n) == Resolve(old(sessions), actor, other, n)
    {
      hide ActAll, Safe, Act, Resolve;
      OwnIds(Value());
      NewIdResolves(sessions, NextId(Value()), Snapshot(ns, data));
      StartIs(Value(), ns, delivered);
      Next(StartSession(ns, delivered));
      if !Syncing(open, ns) {
        return None;
      }
      var number := SessionId(actor, next);
      next := next + 1;
      sessions := sessions[number := Snapshot(ns, data)];
      frozen := frozen[number := Snapshot(ns, data)];
      if delivered {
        handles := handles + {number};
      }
      return Some(number);
    }

    /** A release message: that id no longer resolves, every other resolves as before. */
    method End(id: SessionId)
      requires Valid() && (id.actor == actor ==> id in queued)
      modifies this
      ensures Valid() && history == old(history) + [Release(id)]
      ensures forall n :: Resolve(sessions, actor, id, n) == if id.actor == actor then NotRegistered else OtherActor
      ensures forall other, n | other != id :: Resolve(sessions, actor, other, n) == Resolve(old(sessions), actor, other, n)
      ensures id.actor != actor ==> sessions == old(sessions)
    {
      hide ActAll, Safe;
      OwnIds(Value());
      Next(Release(id));
      sessions := sessions - {id};
      queued := queued - {id};
    }

    /** The tick: what nothing references stops resolving, the rest resolves as before. */
    method Reclaim()
      requires Valid()
      modifies this
      ensures Valid() && history == old(history) + [Sweep]
      ensures forall id | !Referenced(Value(), id) && id.actor == actor :: forall n :: Resolve(sessions, actor, id, n) == NotRegistered
      ensures forall id, n | Referenced(Value(), id) :: Resolve(sessions, actor, id, n) == Resolve(old(sessions), actor, id, n)
    {
      hide ActAll, Safe;
      Next(Sweep);
      sessions := map id | id in sessions && (id in handles || id in queued) :: sessions[id];
    }

    method CloseAll()
      requires Valid()
      modifies this
      ensures Valid() && history == old(history) + [Shutdown]
      ensures open == map[] && sessions == map[]
    {
      hide ActAll, Safe;
      Next(Shutdown);
      sessions, open := map[], map[];
    }

    /** A handle is dropped: its release is queued unless the queue is full. */
    method DropSession(id: SessionId, queueFull: bool)
      requires Valid() && id in handles
      modifies this
      ensures Valid() && history == old(history) + [DropHandle(id, queueFull)]
      ensures sessions == old(sessions) && (Referenced(Value(), id) <==> !queueFull)
    {
      hide ActAll;
      Next(DropHandle(id, queueFull));
      handles := handles - {id};
      if !queueFull {
        queued := queued + {id};
      }
    }

    method Write(data: Data)
      requires Valid()
      modifies this
      ensures Valid() && history == old(history) + [WriteData(data)]
      ensures this.data == data && sessions == old(sessions)
    {
      hide ActAll, Safe;
      Next(WriteData(data));
      this.data := data;
    }

    method AllowSync(ns: NamespaceId, sync: bool) returns (ok: bool)
      requires Valid()
      modifies this
      ensures Valid() && history == old(history) + [SetSync(ns, sync)]
      ensures ok <==> ns in old(open)
      ensures ok ==> (Syncing(open, ns) <==> sync)
    {
      hide ActAll, Safe;
      Next(SetSync(ns, sync));
      ok := ns in open;
      if ok {
        open := open[ns := open[ns].(sync := sync)];
      }
    }
  }

  lemma NewIdResolves(sessions: Sessions, id: SessionId, snapshot: Snapshot)
    ensures Resolve(sessions[id := snapshot], id.actor, id, snapshot.ns) == Found(snapshot.tables)
    ensures forall other, n | other != id ::
      Resolve(sessions[id := snapshot], id.actor, other, n) == Resolve(sessions, id.actor, other, n)
  {
  }

  lemma StartIs(w: World, ns: NamespaceId, delivered: bool)
    ensures Act(w, StartSession(ns, delivered)) ==
      if !Syncing(w.open, ns) then w
      else w.(sessions := w.sessions[NextId(w) := Snapshot(ns, w.data)], next := w.next + 1,
              frozen := w.frozen[NextId(w) := Snapshot(ns, w.data)],
              handles := if delivered then w.handles + {NextId(w)} else w.handles)
  {
  }

  lemma OwnIds(w: World)
    requires Safe(w)
    ensures forall id | id in w.sessions :: id.actor == w.actor && id.seqNo < w.next
  {
  }

  lemma SafeHandles(w: World)
    requires Safe(w)
    ensures forall ns | ns in w.open :: w.open[ns].handles >= 1
  {
  }
}
