/** Bookkeeping of pending content downloads, and the events derived from it. */
module Downloads {
  import opened Bytes

  type Hash = Bytes
  type NamespaceId = Bytes

  /** The queued hashes, indexed both ways. */
  datatype Queue = Queue(byHash: map<Hash, set<NamespaceId>>, byNamespace: map<NamespaceId, set<Hash>>)

  const NO_QUEUE := Queue(map[], map[])

  predicate Queued(q: Queue, ns: NamespaceId, h: Hash) {
    h in q.byHash && ns in q.byHash[h]
  }

  /** The indexes are inverse to each other and hold no empty set. */
  ghost predicate Inverse(q: Queue) {
    && (forall h, ns :: Queued(q, ns, h) <==> ns in q.byNamespace && h in q.byNamespace[ns])
    && (forall h | h in q.byHash :: q.byHash[h] != {})
    && (forall ns | ns in q.byNamespace :: q.byNamespace[ns] != {})
  }

  function Inserted(q: Queue, h: Hash, ns: NamespaceId): Queue {
    var namespaces := if h in q.byHash then q.byHash[h] else {};
    var hashes := if ns in q.byNamespace then q.byNamespace[ns] else {};
    Queue(q.byHash[h := namespaces + {ns}], q.byNamespace[ns := hashes + {h}])
  }

  /** The namespaces for which `h` is the last queued hash. */
  function Completed(q: Queue, h: Hash): set<NamespaceId> {
    if h !in q.byHash then {} else set ns | ns in q.byHash[h] && ns in q.byNamespace && q.byNamespace[ns] - {h} == {}
  }

  function Removed(q: Queue, h: Hash): Queue {
    if h !in q.byHash then q
    else Queue(q.byHash - {h},
               map ns | ns in q.byNamespace && ns !in Completed(q, h) ::
                 if ns in q.byHash[h] then q.byNamespace[ns] - {h} else q.byNamespace[ns])
  }

  /** Inserting queues exactly one more pair. */
  lemma InsertedMeans(q: Queue, h: Hash, ns: NamespaceId)
    requires Inverse(q)
    ensures Inverse(Inserted(q, h, ns))
    ensures forall n, g :: Queued(Inserted(q, h, ns), n, g) <==> Queued(q, n, g) || (n == ns && g == h)
  {
    var r := Inserted(q, h, ns);
    forall g, n
      ensures Queued(r, n, g) <==> Queued(q, n, g) || (n == ns && g == h)
      ensures Queued(r, n, g) <==> n in r.byNamespace && g in r.byNamespace[n]
    {
      assert Queued(q, n, g) <==> n in q.byNamespace && g in q.byNamespace[n];
    }
  }

  /** Removing unqueues exactly the pairs of that hash, and completes exactly the
      namespaces that have nothing queued afterwards but had before. */
  lemma RemovedMeans(q: Queue, h: Hash)
    requires Inverse(q)
    ensures Inverse(Removed(q, h))
    ensures forall n, g :: Queued(Removed(q, h), n, g) <==> Queued(q, n, g) && g != h
    ensures forall n :: n in Completed(q, h) <==> n in q.byNamespace && n !in Removed(q, h).byNamespace
  {
    if h in q.byHash {
      var r := Removed(q, h);
      forall g, ns
        ensures Queued(r, ns, g) <==> Queued(q, ns, g) && g != h
        ensures Queued(r, ns, g) <==> ns in r.byNamespace && g in r.byNamespace[ns]
      {
        assert Queued(q, ns, g) <==> ns in q.byNamespace && g in q.byNamespace[ns];
        assert Queued(q, ns, h) <==> ns in q.byHash[h];
        assert g != h && ns in q.byNamespace && g in q.byNamespace[ns] ==> g in q.byNamespace[ns] - {h};
      }
      forall ns | ns in r.byNamespace
        ensures r.byNamespace[ns] != {}
      {
        assert Queued(q, ns, h) <==> ns in q.byHash[h];
      }
    }
  }

  class QueuedHashes {
    var byHash: map<Hash, set<NamespaceId>>
    var byNamespace: map<NamespaceId, set<Hash>>

    ghost function Value(): Queue
      reads this
    {
      Queue(byHash, byNamespace)
    }

    constructor ()
      ensures Value() == NO_QUEUE && Inverse(Value())
    {
      byHash, byNamespace := map[], map[];
    }

    method Insert(h: Hash, ns: NamespaceId)
      requires Inverse(Value())
      modifies this
      ensures Value() == Inserted(old(Value()), h, ns) && Inverse(Value())
    {
      InsertedMeans(Value(), h, ns);
      byHash := byHash[h := (if h in byHash then byHash[h] else {}) + {ns}];
      byNamespace := byNamespace[ns := (if ns in byNamespace then byNamespace[ns] else {}) + {h}];
    }

    /** Returns the namespaces that have no queued hash any more. */
    method RemoveHash(h: Hash) returns (removed: seq<NamespaceId>)
      requires Inverse(Value())
      modifies this
      ensures Value() == Removed(old(Value()), h) && Inverse(Value())
      ensures forall ns :: ns in removed <==> ns in Completed(old(Value()), h)
      ensures forall i, j | 0 <= i < j < |removed| :: removed[i] != removed[j]
    {
      hide Inverse, Removed, Completed;
      RemovedMeans(Value(), h);
      ghost var q := Value();
      removed := [];
      if h !in byHash {
        NothingRemoved(q, h);
        return;
      }
      var namespaces := byHash[h];
      byHash := byHash - {h};
      var todo := namespaces;
      StartRemoving(q, h);
      while todo != {}
        invariant todo <= namespaces && byHash == q.byHash - {h}
        invariant byNamespace == PartlyRemoved(q, h, namespaces - todo)
        invariant forall ns :: ns in removed <==> ns in Completed(q, h) && ns in namespaces - todo
        invariant forall i, j | 0 <= i < j < |removed| :: removed[i] != removed[j]
        decreases todo
      {
        var ns :| ns in todo;
        RemovingOne(q, h, namespaces - todo, ns);
        assert namespaces - (todo - {ns}) == (namespaces - todo) + {ns};
        todo := todo - {ns};
        if ns in byNamespace {
          var hashes := byNamespace[ns] - {h};
          if hashes == {} {
            byNamespace := byNamespace - {ns};
            removed := removed + [ns];
          } else {
            byNamespace := byNamespace[ns := hashes];
          }
        }
      }
      assert namespaces - todo == q.byHash[h];
      AllRemoved(q, h);
    }
  }

  /** The namespace index with the namespaces `done` taken care of. */
  ghost function PartlyRemoved(q: Queue, h: Hash, done: set<NamespaceId>): map<NamespaceId, set<Hash>> {
    map ns | ns in q.byNamespace && !(ns in done && q.byNamespace[ns] - {h} == {}) ::
      if ns in done then q.byNamespace[ns] - {h} else q.byNamespace[ns]
  }

  lemma NothingRemoved(q: Queue, h: Hash)
    requires h !in q.byHash
    ensures Removed(q, h) == q && Completed(q, h) == {}
  {
  }

  lemma StartRemoving(q: Queue, h: Hash)
    ensures PartlyRemoved(q, h, {}) == q.byNamespace
  {
  }

  lemma RemovingOne(q: Queue, h: Hash, done: set<NamespaceId>, ns: NamespaceId)
    requires h in q.byHash && ns in q.byHash[h] && ns !in done
    ensures var before := PartlyRemoved(q, h, done);
      PartlyRemoved(q, h, done + {ns}) ==
        if ns !in before then before
        else if before[ns] - {h} == {} then before - {ns}
        else before[ns := before[ns] - {h}]
    ensures ns in Completed(q, h) <==> ns in PartlyRemoved(q, h, done) && PartlyRemoved(q, h, done)[ns] - {h} == {}
  {
  }

  lemma AllRemoved(q: Queue, h: Hash)
    requires h in q.byHash
    ensures Removed(q, h) == Queue(q.byHash - {h}, PartlyRemoved(q, h, q.byHash[h]))
    ensures Completed(q, h) <= q.byHash[h]
  {
  }

  // ---- the handlers ----

  datatype Event = SyncFinished(ns: NamespaceId) | PendingContentReady(ns: NamespaceId) | ContentReady(ns: NamespaceId, hash: Hash)

  /** `ready` is the may-emit flag of each syncing namespace; `missing` the hashes waiting
      for a provider; `retry` the ones to try again if the running download fails. */
  datatype Live = Live(
    queue: Queue, missing: set<(NamespaceId, Hash)>, retry: set<(NamespaceId, Hash)>,
    ready: map<NamespaceId, bool>, events: seq<Event>)

  const NEW_LIVE := Live(NO_QUEUE, {}, {}, map[], [])

  function QueueDownload(s: Live, ns: NamespaceId, h: Hash, complete: bool, onlyIfMissing: bool): Live {
    if complete then s.(missing := s.missing - {(ns, h)})
    else if h in s.queue.byHash then s.(queue := Inserted(s.queue, h, ns))
    else if !onlyIfMissing || (ns, h) in s.missing then
      s.(queue := Inserted(s.queue, h, ns), missing := s.missing - {(ns, h)})
    else s
  }

  /** Start downloads for a list of hashes, marking them for a retry if asked to. */
  function StartAll(s: Live, ns: NamespaceId, hs: seq<Hash>, complete: Hash -> bool, retry: bool): Live {
    if hs == [] then s
    else
      var before, h := StartAll(s, ns, hs[..|hs| - 1], complete, retry), hs[|hs| - 1];
      QueueDownload(if retry then before.(retry := before.retry + {(ns, h)}) else before, ns, h, complete(h), true)
  }

  function SetReady(s: Live, ns: NamespaceId, value: bool): Live {
    if ns in s.ready then s.(ready := s.ready[ns := value]) else s
  }

  /** A sync of `ns` finished; `running` says that its slot expected that. `parked` and
      `queued` list the namespace's missing and queued hashes, in whatever order. */
  function OnSyncFinished(s: Live, ns: NamespaceId, ok: bool, running: bool, parked: seq<Hash>, queued: seq<Hash>, complete: Hash -> bool): Live {
    var t := if ok then StartAll(StartAll(s, ns, parked, complete, false), ns, queued, complete, true) else s;
    if !running || ns !in t.ready then t
    else
      var u := t.(events := t.events + [SyncFinished(ns)]);
      if ns in u.queue.byNamespace then SetReady(u, ns, true)
      else SetReady(u.(events := u.events + [PendingContentReady(ns)]), ns, false)
  }

  function EmitReady(s: Live, nss: seq<NamespaceId>): Live {
    if nss == [] then s
    else
      var before, ns := EmitReady(s, nss[..|nss| - 1]), nss[|nss| - 1];
      if ns in before.ready && before.ready[ns] then
        SetReady(before, ns, false).(events := before.events + [PendingContentReady(ns)])
      else before
  }

  /** The download of `h` for `ns` ended, before events for completed namespaces. */
  function Settled(s: Live, ns: NamespaceId, h: Hash, ok: bool, complete: bool): Live {
    var t := s.(queue := Removed(s.queue, h));
    if ok then
      t.(retry := (set p | p in t.retry && p.1 != h), events := t.events + [ContentReady(ns, h)])
    else
      var u := t.(missing := t.missing + {(ns, h)});
      if (ns, h) in u.retry then QueueDownload(u.(retry := u.retry - {(ns, h)}), ns, h, complete, true) else u
  }

  /** `completed` lists the namespaces the removal of the hash completed. */
  function OnDownloadReady(s: Live, ns: NamespaceId, h: Hash, ok: bool, complete: bool, completed: seq<NamespaceId>): Live {
    EmitReady(Settled(s, ns, h, ok, complete), completed)
  }

  datatype Op =
    | Sync(ns: NamespaceId)
    | Leave(ns: NamespaceId)
    | Wanted(ns: NamespaceId, hash: Hash)
    | Download(ns: NamespaceId, hash: Hash, complete: bool, onlyIfMissing: bool)
    | SyncDone(ns: NamespaceId, ok: bool, running: bool, parked: seq<Hash>, queued: seq<Hash>, statusOf: Hash -> bool)
    | DownloadDone(ns: NamespaceId, hash: Hash, ok: bool, complete: bool, completed: seq<NamespaceId>)

  ghost predicate Legal(s: Live, op: Op) {
    op.DownloadDone? ==> forall ns :: ns in op.completed <==> ns in Completed(s.queue, op.hash)
  }

  ghost function Handle(s: Live, op: Op): Live {
    if !Legal(s, op) then s
    else
      match op
      case Sync(ns) => if ns in s.ready then s else s.(ready := s.ready[ns := false])
      case Leave(ns) => s.(ready := s.ready - {ns})
      case Wanted(ns, h) => s.(missing := s.missing + {(ns, h)})
      case Download(ns, h, complete, onlyIfMissing) => QueueDownload(s, ns, h, complete, onlyIfMissing)
      case SyncDone(ns, ok, running, parked, queued, statusOf) => OnSyncFinished(s, ns, ok, running, parked, queued, statusOf)
      case DownloadDone(ns, h, ok, complete, completed) => OnDownloadReady(s, ns, h, ok, complete, completed)
  }

  ghost function HandleAll(ops: seq<Op>): Live {
    if ops == [] then NEW_LIVE else Handle(HandleAll(ops[..|ops| - 1]), ops[|ops| - 1])
  }

  function Count(events: seq<Event>, e: Event): nat {
    if events == [] then 0 else Count(events[..|events| - 1], e) + if events[|events| - 1] == e then 1 else 0
  }

  predicate Raised(s: Live, ns: NamespaceId) {
    ns in s.ready && s.ready[ns]
  }

  /** Each raised flag has its sync, not yet answered by an event. */
  ghost predicate Accounted(s: Live, ns: NamespaceId) {
    Count(s.events, PendingContentReady(ns)) + (if Raised(s, ns) then 1 else 0) <= Count(s.events, SyncFinished(ns))
  }

  ghost predicate LiveInv(s: Live) {
    && Inverse(s.queue)
    && (forall ns :: Raised(s, ns) ==> ns in s.queue.byNamespace)
    && (forall ns :: Accounted(s, ns))
  }

  lemma CountSnoc(events: seq<Event>, f: Event, e: Event)
    ensures Count(events + [f], e) == Count(events, e) + if f == e then 1 else 0
  {
    assert (events + [f])[..|events|] == events;
  }

  /** Queueing only adds to the queue and leaves flags and events alone. */
  ghost predicate Grows(s: Live, t: Live) {
    && t.ready == s.ready && t.events == s.events && Inverse(t.queue)
    && forall ns | ns in s.queue.byNamespace :: ns in t.queue.byNamespace
  }

  lemma QueueDownloadGrows(s: Live, ns: NamespaceId, h: Hash, complete: bool, onlyIfMissing: bool)
    requires Inverse(s.queue)
    ensures Grows(s, QueueDownload(s, ns, h, complete, onlyIfMissing))
  {
    hide Inverse;
    InsertedMeans(s.queue, h, ns);
  }

  lemma {:induction false} StartAllGrows(s: Live, ns: NamespaceId, hs: seq<Hash>, complete: Hash -> bool, retry: bool)
    requires Inverse(s.queue)
    ensures Grows(s, StartAll(s, ns, hs, complete, retry))
  {
    hide Inverse, QueueDownload;
    if hs != [] {
      StartAllGrows(s, ns, hs[..|hs| - 1], complete, retry);
      var before, h := StartAll(s, ns, hs[..|hs| - 1], complete, retry), hs[|hs| - 1];
      QueueDownloadGrows(if retry then before.(retry := before.retry + {(ns, h)}) else before, ns, h, complete(h), true);
    }
  }

  lemma SameAccounts(s: Live, t: Live)
    requires (forall ns :: Accounted(s, ns)) && t.events == s.events && forall ns :: Raised(t, ns) ==> Raised(s, ns)
    ensures forall ns :: Accounted(t, ns)
  {
    hide Count;
    forall ns
      ensures Accounted(t, ns)
    {
      assert Accounted(s, ns);
    }
  }

  lemma GrowsKeepsInv(s: Live, t: Live)
    requires LiveInv(s) && Grows(s, t)
    ensures LiveInv(t)
  {
    hide Inverse, Count;
    SameAccounts(s, t);
  }

  lemma SyncFinishedKeepsInv(s: Live, ns: NamespaceId, ok: bool, running: bool, parked: seq<Hash>, queued: seq<Hash>, complete: Hash -> bool)
    requires LiveInv(s)
    ensures LiveInv(OnSyncFinished(s, ns, ok, running, parked, queued, complete))
  {
    hide Inverse, Count, StartAll, LiveInv;
    InvQueue(s);
    StartAllGrows(s, ns, parked, complete, false);
    var t1 := StartAll(s, ns, parked, complete, false);
    StartAllGrows(t1, ns, queued, complete, true);
    GrowsKeepsInv(s, t1);
    var t := if ok then StartAll(t1, ns, queued, complete, true) else s;
    if ok { GrowsKeepsInv(t1, t); }
    if running && ns in t.ready {
      FinishEvent(t, ns);
    }
  }

  lemma InvQueue(s: Live)
    requires LiveInv(s)
    ensures Inverse(s.queue)
  {
  }

  lemma FinishEvent(t: Live, ns: NamespaceId)
    requires LiveInv(t) && ns in t.ready
    ensures var u := t.(events := t.events + [SyncFinished(ns)]);
      LiveInv(if ns in u.queue.byNamespace then SetReady(u, ns, true)
              else SetReady(u.(events := u.events + [PendingContentReady(ns)]), ns, false))
  {
    hide Inverse, Count;
    var u := t.(events := t.events + [SyncFinished(ns)]);
    forall n
      ensures Count(u.events, SyncFinished(n)) == Count(t.events, SyncFinished(n)) + if n == ns then 1 else 0
      ensures Count(u.events, PendingContentReady(n)) == Count(t.events, PendingContentReady(n))
      ensures Count(u.events + [PendingContentReady(ns)], SyncFinished(n)) == Count(u.events, SyncFinished(n))
      ensures Count(u.events + [PendingContentReady(ns)], PendingContentReady(n)) ==
        Count(u.events, PendingContentReady(n)) + if n == ns then 1 else 0
      ensures Accounted(t, n)
    {
      CountSnoc(t.events, SyncFinished(ns), SyncFinished(n));
      CountSnoc(t.events, SyncFinished(ns), PendingContentReady(n));
      CountSnoc(u.events, PendingContentReady(ns), SyncFinished(n));
      CountSnoc(u.events, PendingContentReady(ns), PendingContentReady(n));
    }
  }

  /** The invariant without the flags of the namespaces in `pending`. */
  ghost predicate InvExcept(s: Live, pending: set<NamespaceId>) {
    && Inverse(s.queue)
    && (forall ns :: Raised(s, ns) && ns !in pending ==> ns in s.queue.byNamespace)
    && (forall ns :: Accounted(s, ns))
  }

  lemma {:induction false} EmitReadyKeepsInv(s: Live, nss: seq<NamespaceId>)
    requires InvExcept(s, set ns | ns in nss)
    ensures InvExcept(EmitReady(s, nss), {}) && EmitReady(s, nss).queue == s.queue
  {
    EmitReadySteps(s, nss, set ns | ns in nss);
    assert (set ns | ns in nss) - (set ns | ns in nss) == {};
  }

  lemma {:induction false} EmitReadySteps(s: Live, nss: seq<NamespaceId>, pending: set<NamespaceId>)
    requires InvExcept(s, pending)
    ensures InvExcept(EmitReady(s, nss), pending - set ns | ns in nss) && EmitReady(s, nss).queue == s.queue
  {
    hide Inverse, Count;
    if nss != [] {
      var init, ns := nss[..|nss| - 1], nss[|nss| - 1];
      EmitReadySteps(s, init, pending);
      var before := EmitReady(s, init);
      forall n
        ensures Count(before.events + [PendingContentReady(ns)], PendingContentReady(n)) ==
          Count(before.events, PendingContentReady(n)) + if n == ns then 1 else 0
        ensures Count(before.events + [PendingContentReady(ns)], SyncFinished(n)) == Count(before.events, SyncFinished(n))
        ensures Accounted(before, n)
      {
        CountSnoc(before.events, PendingContentReady(ns), PendingContentReady(n));
        CountSnoc(before.events, PendingContentReady(ns), SyncFinished(n));
      }
    }
  }

  lemma SettledKeepsInv(s: Live, ns: NamespaceId, h: Hash, ok: bool, complete: bool)
    requires LiveInv(s)
    ensures InvExcept(Settled(s, ns, h, ok, complete), Completed(s.queue, h))
  {
    hide Inverse, Count, Removed, Completed, QueueDownload;
    RemovedMeans(s.queue, h);
    var t := s.(queue := Removed(s.queue, h));
    SameAccounts(s, t);
    if ok {
      forall n
        ensures Accounted(Settled(s, ns, h, ok, complete), n)
      {
        assert Accounted(t, n);
        CountSnoc(t.events, ContentReady(ns, h), PendingContentReady(n));
        CountSnoc(t.events, ContentReady(ns, h), SyncFinished(n));
      }
    } else {
      var u := t.(missing := t.missing + {(ns, h)});
      if (ns, h) in u.retry {
        QueueDownloadGrows(u.(retry := u.retry - {(ns, h)}), ns, h, complete, true);
      }
      forall n
        ensures Accounted(Settled(s, ns, h, ok, complete), n)
      {
        assert Accounted(t, n);
      }
    }
  }

  lemma HandleKeepsInv(s: Live, op: Op)
    requires LiveInv(s)
    ensures LiveInv(Handle(s, op))
  {
    hide Inverse, Count, OnSyncFinished, Settled, QueueDownload, Completed, EmitReady;
    match op
    case Sync(ns) =>
      SameAccounts(s, Handle(s, op));
    case Leave(ns) =>
      SameAccounts(s, Handle(s, op));
    case Wanted(ns, h) =>
      SameAccounts(s, Handle(s, op));
    case Download(ns, h, complete, onlyIfMissing) =>
      QueueDownloadGrows(s, ns, h, complete, onlyIfMissing);
      GrowsKeepsInv(s, QueueDownload(s, ns, h, complete, onlyIfMissing));
    case SyncDone(ns, ok, running, parked, queued, statusOf) =>
      SyncFinishedKeepsInv(s, ns, ok, running, parked, queued, statusOf);
    case DownloadDone(ns, h, ok, complete, completed) =>
      if Legal(s, op) {
        SettledKeepsInv(s, ns, h, ok, complete);
        assert (set n | n in completed) == Completed(s.queue, h);
        EmitReadyKeepsInv(Settled(s, ns, h, ok, complete), completed);
      }
  }

  /** Over every run: the two indexes stay inverse, a raised flag means that the namespace
      has queued hashes, and no namespace has more ready events than finished syncs. */
  lemma {:induction false} DownloadsAccounted(ops: seq<Op>)
    ensures LiveInv(HandleAll(ops))
    ensures forall ns :: Count(HandleAll(ops).events, PendingContentReady(ns)) <= Count(HandleAll(ops).events, SyncFinished(ns))
  {
    hide Handle, Count, Inverse;
    if ops == [] {
      EmptyCount();
    } else {
      DownloadsAccounted(ops[..|ops| - 1]);
      HandleKeepsInv(HandleAll(ops[..|ops| - 1]), ops[|ops| - 1]);
    }
    forall ns
      ensures Count(HandleAll(ops).events, PendingContentReady(ns)) <= Count(HandleAll(ops).events, SyncFinished(ns))
    {
      assert Accounted(HandleAll(ops), ns);
    }
  }

  lemma EmptyCount()
    ensures LiveInv(NEW_LIVE)
  {
  }

  /** The events that handling `op` adds. */
  ghost function Emitted(s: Live, op: Op): seq<Event>
    requires LiveInv(s)
  {
    EventsGrow(s, op);
    Handle(s, op).events[|s.events|..]
  }

  lemma EventsGrow(s: Live, op: Op)
    requires LiveInv(s)
    ensures s.events <= Handle(s, op).events
  {
    hide Count, Inverse, StartAll, EmitReady;
    match op
    case SyncDone(ns, ok, running, parked, queued, statusOf) =>
      StartAllGrows(s, ns, parked, statusOf, false);
      StartAllGrows(StartAll(s, ns, parked, statusOf, false), ns, queued, statusOf, true);
    case DownloadDone(ns, h, ok, complete, completed) =>
      EmitReadyEvents(Settled(s, ns, h, ok, complete), completed, ns);
    case _ =>
  }

  lemma {:induction false} EmitReadyEvents(s: Live, nss: seq<NamespaceId>, n: NamespaceId)
    ensures var t := EmitReady(s, nss);
      && t.queue == s.queue && s.events <= t.events
      && (Raised(t, n) <==> Raised(s, n) && n !in nss)
      && (PendingContentReady(n) in t.events[|s.events|..] <==> n in nss && Raised(s, n))
  {
    if nss != [] {
      var init, ns := nss[..|nss| - 1], nss[|nss| - 1];
      EmitReadyEvents(s, init, n);
      EmitReadyEvents(s, init, ns);
      assert nss == init + [ns];
      var before := EmitReady(s, init);
      assert (before.events + [PendingContentReady(ns)])[|s.events|..] == before.events[|s.events|..] + [PendingContentReady(ns)];
    }
  }

  /** What is queued for a namespace that the removal of `h` completed. */
  lemma SettledQueue(s: Live, ns: NamespaceId, h: Hash, ok: bool, complete: bool, n: NamespaceId)
    requires LiveInv(s) && n in Completed(s.queue, h)
    ensures n in Settled(s, ns, h, ok, complete).queue.byNamespace <==> n == ns && !ok && (ns, h) in s.retry && !complete
  {
    hide Count;
    RemovedMeans(s.queue, h);
    var q := Removed(s.queue, h);
    assert h !in q.byHash;
  }

  lemma DownloadReadyEvents(s: Live, op: Op, n: NamespaceId)
    requires LiveInv(s) && op.DownloadDone? && Legal(s, op)
    ensures PendingContentReady(n) in Emitted(s, op) <==> n in Completed(s.queue, op.hash) && Raised(s, n)
    ensures n in Completed(s.queue, op.hash) ==>
      (n in Handle(s, op).queue.byNamespace <==> n == op.ns && !op.ok && (op.ns, op.hash) in s.retry && !op.complete)
  {
    hide LiveInv, Completed, EmitReady, QueueDownload, Removed;
    var t := Settled(s, op.ns, op.hash, op.ok, op.complete);
    SettledEvents(s, op.ns, op.hash, op.ok, op.complete, n);
    if n in Completed(s.queue, op.hash) {
      SettledQueue(s, op.ns, op.hash, op.ok, op.complete, n);
    }
    EmitReadyEvents(t, op.completed, n);
    var after := Handle(s, op).events;
    assert after[|s.events|..] == t.events[|s.events|..] + after[|t.events|..];
  }

  lemma SettledEvents(s: Live, ns: NamespaceId, h: Hash, ok: bool, complete: bool, n: NamespaceId)
    ensures var t := Settled(s, ns, h, ok, complete);
      t.ready == s.ready && s.events <= t.events && PendingContentReady(n) !in t.events[|s.events|..]
  {
  }

  lemma SyncReadyEvents(s: Live, op: Op, n: NamespaceId)
    requires LiveInv(s) && op.SyncDone?
    ensures PendingContentReady(n) in Emitted(s, op) ==> n !in Handle(s, op).queue.byNamespace
  {
    hide Inverse, Count, StartAll;
    StartAllGrows(s, op.ns, op.parked, op.statusOf, false);
    var t1 := StartAll(s, op.ns, op.parked, op.statusOf, false);
    StartAllGrows(t1, op.ns, op.queued, op.statusOf, true);
    var t := if op.ok then StartAll(t1, op.ns, op.queued, op.statusOf, true) else s;
    assert t.events == s.events && t.ready == s.ready;
  }

  /** In every run, whatever is handled next: a ready event for a namespace finds nothing
      queued for it, except exactly if it comes out of a failed download of that very
      namespace that is queued again at once, to try providers registered in the
      meantime. */
  lemma ReadyWhileQueued(ops: seq<Op>, op: Op, n: NamespaceId)
    ensures var s := HandleAll(ops);
      && LiveInv(s)
      && (PendingContentReady(n) in Emitted(s, op) ==>
           (n in Handle(s, op).queue.byNamespace <==>
              op.DownloadDone? && n == op.ns && !op.ok && (op.ns, op.hash) in s.retry && !op.complete))
  {
    hide HandleAll, LiveInv, Completed;
    DownloadsAccounted(ops);
    var s := HandleAll(ops);
    match op
    case SyncDone(_, _, _, _, _, _) =>
      SyncReadyEvents(s, op, n);
    case DownloadDone(_, _, _, _, _) =>
      if Legal(s, op) {
        DownloadReadyEvents(s, op, n);
      }
    case _ =>
  }

  /** Such a run: a sync finishes while a hash of the namespace is being downloaded, the
      download fails and is queued again, and the namespace is reported ready. */
  lemma ReadyWhileQueuedRun(ns: NamespaceId, h: Hash)
    ensures var ops := [
        Sync(ns), Download(ns, h, false, false), SyncDone(ns, true, true, [], [h], _ => false),
        DownloadDone(ns, h, false, false, [ns])];
      HandleAll(ops).events == [SyncFinished(ns), PendingContentReady(ns)] && Queued(HandleAll(ops).queue, ns, h)
  {
    hide HandleAll, Handle;
    var ops := [
      Sync(ns), Download(ns, h, false, false), SyncDone(ns, true, true, [], [h], _ => false),
      DownloadDone(ns, h, false, false, [ns])];
    var queue := Queue(map[h := {ns}], map[ns := {h}]);
    HandleSteps(ops);
    var s2 := Live(queue, {}, {}, map[ns := false], []);
    assert Handle(Handle(NEW_LIVE, ops[0]), ops[1]) == s2 by { FirstTwo(ns, h); }
    var s3 := Live(queue, {}, {(ns, h)}, map[ns := true], [SyncFinished(ns)]);
    assert Handle(s2, ops[2]) == s3 by { ThenSyncDone(ns, h, ops[2].statusOf); }
    ThenFails(ns, h);
  }

  lemma HandleSteps(ops: seq<Op>)
    requires |ops| == 4
    ensures HandleAll(ops) == Handle(Handle(Handle(Handle(NEW_LIVE, ops[0]), ops[1]), ops[2]), ops[3])
  {
    hide Handle;
    assert ops[..3][..2] == ops[..2] && ops[..2][..1] == ops[..1] && ops[..1][..0] == [];
    assert HandleAll([]) == NEW_LIVE;
    assert HandleAll(ops[..1]) == Handle(NEW_LIVE, ops[0]);
    assert HandleAll(ops[..2]) == Handle(HandleAll(ops[..1]), ops[1]);
    assert HandleAll(ops[..3]) == Handle(HandleAll(ops[..2]), ops[2]);
  }

  lemma FirstTwo(ns: NamespaceId, h: Hash)
    ensures Handle(Handle(NEW_LIVE, Sync(ns)), Download(ns, h, false, false)) ==
      Live(Queue(map[h := {ns}], map[ns := {h}]), {}, {}, map[ns := false], [])
  {
    assert {} + {ns} == {ns} && {} + {h} == {h};
  }

  lemma ThenSyncDone(ns: NamespaceId, h: Hash, status: Hash -> bool)
    requires !status(h)
    ensures var queue := Queue(map[h := {ns}], map[ns := {h}]);
      Handle(Live(queue, {}, {}, map[ns := false], []), SyncDone(ns, true, true, [], [h], status)) ==
        Live(queue, {}, {(ns, h)}, map[ns := true], [SyncFinished(ns)])
  {
    var queue := Queue(map[h := {ns}], map[ns := {h}]);
    var s := Live(queue, {}, {}, map[ns := false], []);
    assert StartAll(s, ns, [], status, false) == s && StartAll(s, ns, [], status, true) == s;
    assert [h][..0] == [];
    var t := s.(retry := {(ns, h)});
    assert StartAll(s, ns, [h], status, true) == QueueDownload(t, ns, h, false, true);
    assert {ns} + {ns} == {ns} && {h} + {h} == {h};
    assert queue.byHash[h := {ns}] == queue.byHash && queue.byNamespace[ns := {h}] == queue.byNamespace;
  }

  lemma ThenFails(ns: NamespaceId, h: Hash)
    ensures var queue := Queue(map[h := {ns}], map[ns := {h}]);
      var t := Handle(Live(queue, {}, {(ns, h)}, map[ns := true], [SyncFinished(ns)]), DownloadDone(ns, h, false, false, [ns]));
      t.events == [SyncFinished(ns), PendingContentReady(ns)] && Queued(t.queue, ns, h)
  {
    var queue := Queue(map[h := {ns}], map[ns := {h}]);
    var s := Live(queue, {}, {(ns, h)}, map[ns := true], [SyncFinished(ns)]);
    assert Completed(queue, h) == {ns};
    var u := Settled(s, ns, h, false, false);
    assert u.events == s.events && u.ready == s.ready && Queued(u.queue, ns, h);
    assert [ns][..0] == [];
    assert EmitReady(u, []) == u;
  }

  // ---- every event, exactly ----

  /** A finished sync that is reported: its slot expected it and the namespace is syncing. */
  predicate ReportsFinish(s: Live, op: Op, n: NamespaceId) {
    op.SyncDone? && op.ns == n && op.running && n in s.ready
  }

  /** The end of a download of the only hash still queued for the namespace. */
  ghost predicate Drains(s: Live, op: Op, n: NamespaceId) {
    op.DownloadDone? && Legal(s, op) && n in s.queue.byNamespace && s.queue.byNamespace[n] == {op.hash}
  }

  /** In every run, whatever is handled next, exactly these events are emitted. A finished
      sync is reported once, and with it a ready event if nothing is queued for the
      namespace then. A ready event comes once more when the last queued hash of a
      namespace whose flag is raised ends. The content event comes with each completed
      download. */
  lemma EventsExactly(ops: seq<Op>, op: Op, n: NamespaceId, h: Hash)
    ensures var s := HandleAll(ops); var t := Handle(s, op);
      && LiveInv(s)
      && Count(Emitted(s, op), SyncFinished(n)) == (if ReportsFinish(s, op, n) then 1 else 0)
      && Count(Emitted(s, op), PendingContentReady(n)) ==
           (if (ReportsFinish(s, op, n) && n !in t.queue.byNamespace) || (Raised(s, n) && Drains(s, op, n)) then 1 else 0)
      && Count(Emitted(s, op), ContentReady(n, h)) ==
           (if op.DownloadDone? && Legal(s, op) && op.ok && op.ns == n && op.hash == h then 1 else 0)
  {
    hide HandleAll, LiveInv, Handle, Drains;
    DownloadsAccounted(ops);
    var s := HandleAll(ops);
    if op.SyncDone? {
      SyncEvents(s, op, n, h);
    } else if op.DownloadDone? && Legal(s, op) {
      DownloadEvents(s, op, n, h);
    } else {
      OtherEvents(s, op, n, h);
    }
  }

  /** And the flag of a namespace is raised by a reported finish that leaves something
      queued, and stays raised until the namespace leaves or its queue drains. */
  lemma FlagExactly(ops: seq<Op>, op: Op, n: NamespaceId)
    ensures var s := HandleAll(ops); var t := Handle(s, op);
      Raised(t, n) <==>
        if ReportsFinish(s, op, n) then n in t.queue.byNamespace
        else Raised(s, n) && op != Leave(n) && !Drains(s, op, n)
  {
    hide HandleAll, LiveInv, Handle, Drains;
    DownloadsAccounted(ops);
    var s := HandleAll(ops);
    if op.SyncDone? {
      SyncEvents(s, op, n, []);
    } else if op.DownloadDone? && Legal(s, op) {
      DownloadEvents(s, op, n, []);
    } else {
      OtherEvents(s, op, n, []);
    }
  }

  /** A namespace is syncing from when it is joined until it is left; and a hash that is
      wanted is parked for its namespace, to be there when a provider turns up. */
  lemma SyncingAndWanted(ops: seq<Op>, op: Op, n: NamespaceId, h: Hash)
    ensures var s := HandleAll(ops); var t := Handle(s, op);
      && (n in t.ready <==> op == Sync(n) || (n in s.ready && op != Leave(n)))
      && (op.Wanted? ==> ((n, h) in t.missing <==> (n, h) in s.missing || op == Wanted(n, h)) && t.queue == s.queue)
      && (op.Sync? || op.Leave? ==> t.queue == s.queue && t.missing == s.missing && t.retry == s.retry)
  {
    hide HandleAll, LiveInv, StartAll, QueueDownload, EmitReady, Settled;
    DownloadsAccounted(ops);
    var s := HandleAll(ops);
    InvQueue(s);
    match op
    case SyncDone(ns, ok, running, parked, queued, statusOf) =>
      StartAllGrows(s, ns, parked, statusOf, false);
      StartAllGrows(StartAll(s, ns, parked, statusOf, false), ns, queued, statusOf, true);
    case Download(ns, g, complete, onlyIfMissing) =>
      QueueDownloadGrows(s, ns, g, complete, onlyIfMissing);
    case DownloadDone(ns, g, ok, complete, completed) =>
      SettledAdds(s, ns, g, ok, complete);
      EmitReadyFlags(Settled(s, ns, g, ok, complete), completed);
    case _ =>
  }

  lemma {:induction false} EmitReadyFlags(s: Live, nss: seq<NamespaceId>)
    ensures EmitReady(s, nss).ready.Keys == s.ready.Keys
  {
    if nss != [] { EmitReadyFlags(s, nss[..|nss| - 1]); }
  }

  lemma OtherEvents(s: Live, op: Op, n: NamespaceId, h: Hash)
    requires LiveInv(s) && !op.SyncDone? && !(op.DownloadDone? && Legal(s, op))
    ensures Emitted(s, op) == [] && Count([], SyncFinished(n)) == Count([], PendingContentReady(n)) == Count([], ContentReady(n, h)) == 0
    ensures !Drains(s, op, n) && (Raised(Handle(s, op), n) <==> Raised(s, n) && op != Leave(n))
  {
    hide LiveInv, Inserted;
  }

  lemma SyncEvents(s: Live, op: Op, n: NamespaceId, h: Hash)
    requires LiveInv(s) && op.SyncDone?
    ensures var t := Handle(s, op);
      && Count(Emitted(s, op), SyncFinished(n)) == (if ReportsFinish(s, op, n) then 1 else 0)
      && Count(Emitted(s, op), PendingContentReady(n)) == (if ReportsFinish(s, op, n) && n !in t.queue.byNamespace then 1 else 0)
      && Count(Emitted(s, op), ContentReady(n, h)) == 0
      && !Drains(s, op, n)
      && (Raised(t, n) <==> if ReportsFinish(s, op, n) then n in t.queue.byNamespace else Raised(s, n))
  {
    hide Inverse, StartAll, Count, LiveInv;
    InvQueue(s);
    StartAllGrows(s, op.ns, op.parked, op.statusOf, false);
    StartAllGrows(StartAll(s, op.ns, op.parked, op.statusOf, false), op.ns, op.queued, op.statusOf, true);
    var t := Handle(s, op);
    var added: seq<Event> :=
      if !ReportsFinish(s, op, op.ns) then []
      else if op.ns in t.queue.byNamespace then [SyncFinished(op.ns)]
      else [SyncFinished(op.ns), PendingContentReady(op.ns)];
    assert t.events == s.events + added;
    assert Emitted(s, op) == added;
    ShortCounts(SyncFinished(op.ns), PendingContentReady(op.ns), SyncFinished(n));
    ShortCounts(SyncFinished(op.ns), PendingContentReady(op.ns), PendingContentReady(n));
    ShortCounts(SyncFinished(op.ns), PendingContentReady(op.ns), ContentReady(n, h));
  }

  lemma ShortCounts(e: Event, f: Event, g: Event)
    ensures Count([], g) == 0 && Count([e], g) == (if e == g then 1 else 0)
    ensures Count([e, f], g) == Count([e], g) + if f == g then 1 else 0
  {
    assert [e][..0] == [] && [e, f][..1] == [e];
  }

  lemma {:induction false} CountConcat(a: seq<Event>, b: seq<Event>, e: Event)
    ensures Count(a + b, e) == Count(a, e) + Count(b, e)
  {
    if b == [] {
      assert a + b == a;
    } else {
      assert (a + b)[..|a + b| - 1] == a + b[..|b| - 1];
      CountConcat(a, b[..|b| - 1], e);
    }
  }

  lemma {:induction false} EmitReadyCounts(s: Live, nss: seq<NamespaceId>, n: NamespaceId, h: Hash)
    ensures var t := EmitReady(s, nss);
      && s.events <= t.events && t.queue == s.queue
      && (Raised(t, n) <==> Raised(s, n) && n !in nss)
      && Count(t.events[|s.events|..], SyncFinished(n)) == 0 == Count(t.events[|s.events|..], ContentReady(n, h))
      && Count(t.events[|s.events|..], PendingContentReady(n)) == if n in nss && Raised(s, n) then 1 else 0
  {
    hide Count;
    if nss == [] {
      assert s.events[|s.events|..] == [];
      ShortCounts(SyncFinished(n), SyncFinished(n), SyncFinished(n));
      ShortCounts(SyncFinished(n), SyncFinished(n), PendingContentReady(n));
      ShortCounts(SyncFinished(n), SyncFinished(n), ContentReady(n, h));
    } else {
      var init, ns := nss[..|nss| - 1], nss[|nss| - 1];
      EmitReadyCounts(s, init, n, h);
      EmitReadyEvents(s, init, ns);
      assert nss == init + [ns];
      var before := EmitReady(s, init);
      var added := before.events[|s.events|..];
      assert (before.events + [PendingContentReady(ns)])[|s.events|..] == added + [PendingContentReady(ns)];
      CountSnoc(added, PendingContentReady(ns), SyncFinished(n));
      CountSnoc(added, PendingContentReady(ns), PendingContentReady(n));
      CountSnoc(added, PendingContentReady(ns), ContentReady(n, h));
    }
  }

  lemma DrainsMeans(s: Live, op: Op, n: NamespaceId)
    requires LiveInv(s) && op.DownloadDone? && Legal(s, op)
    ensures Drains(s, op, n) <==> n in op.completed
  {
    hide Count;
    var h := op.hash;
    assert n in op.completed <==> n in Completed(s.queue, h);
    if n in s.queue.byNamespace {
      assert Queued(s.queue, n, h) <==> h in s.queue.byNamespace[n];
      assert s.queue.byNamespace[n] - {h} == {} <==> s.queue.byNamespace[n] <= {h};
    }
  }

  lemma DownloadEvents(s: Live, op: Op, n: NamespaceId, h: Hash)
    requires LiveInv(s) && op.DownloadDone? && Legal(s, op)
    ensures var t := Handle(s, op);
      && Count(Emitted(s, op), SyncFinished(n)) == 0
      && Count(Emitted(s, op), PendingContentReady(n)) == (if Raised(s, n) && Drains(s, op, n) then 1 else 0)
      && Count(Emitted(s, op), ContentReady(n, h)) == (if op.ok && op.ns == n && op.hash == h then 1 else 0)
      && (Raised(t, n) <==> Raised(s, n) && !Drains(s, op, n))
  {
    hide LiveInv, Count, EmitReady, Removed, QueueDownload, Drains, Legal;
    DrainsMeans(s, op, n);
    var u := Settled(s, op.ns, op.hash, op.ok, op.complete);
    EmitReadyCounts(u, op.completed, n, h);
    var t := Handle(s, op);
    var content: seq<Event> := if op.ok then [ContentReady(op.ns, op.hash)] else [];
    SettledAdds(s, op.ns, op.hash, op.ok, op.complete);
    var ready := t.events[|u.events|..];
    assert Emitted(s, op) == content + ready;
    CountConcat(content, ready, SyncFinished(n));
    CountConcat(content, ready, PendingContentReady(n));
    CountConcat(content, ready, ContentReady(n, h));
    ShortCounts(ContentReady(op.ns, op.hash), SyncFinished(n), SyncFinished(n));
    ShortCounts(ContentReady(op.ns, op.hash), SyncFinished(n), PendingContentReady(n));
    ShortCounts(ContentReady(op.ns, op.hash), SyncFinished(n), ContentReady(n, h));
  }

  lemma SettledAdds(s: Live, ns: NamespaceId, h: Hash, ok: bool, complete: bool)
    ensures var t := Settled(s, ns, h, ok, complete);
      t.ready == s.ready && t.events == s.events + if ok then [ContentReady(ns, h)] else []
  {
    hide Removed;
  }

  // ---- every queueing, exactly ----

  /** Queueing a hash for a namespace queues it unless its content is complete: if it is
      being downloaded already, or is parked for the namespace, or is to be downloaded in
      any case. It is no longer parked then, unless it only joined a download. */
  lemma QueueDownloadMeans(s: Live, ns: NamespaceId, h: Hash, complete: bool, onlyIfMissing: bool, n: NamespaceId, g: Hash)
    requires Inverse(s.queue)
    ensures var t := QueueDownload(s, ns, h, complete, onlyIfMissing);
      && (Queued(t.queue, n, g) <==>
            || Queued(s.queue, n, g)
            || (n == ns && g == h && !complete && (h in s.queue.byHash || !onlyIfMissing || (ns, h) in s.missing)))
      && ((n, g) in t.missing <==> (n, g) in s.missing && !(n == ns && g == h && (complete || h !in s.queue.byHash)))
      && t.retry == s.retry
      && (g in t.queue.byHash <==> exists m :: Queued(t.queue, m, g))
  {
    QueueDownloadGrows(s, ns, h, complete, onlyIfMissing);
    InsertedMeans(s.queue, h, ns);
    var t := QueueDownload(s, ns, h, complete, onlyIfMissing);
    SomeNamespace(t.queue, g);
  }

  lemma SomeNamespace(q: Queue, g: Hash)
    requires Inverse(q)
    ensures g in q.byHash <==> exists m :: Queued(q, m, g)
  {
    if g in q.byHash {
      var m :| m in q.byHash[g];
      assert Queued(q, m, g);
    }
  }

  /** Starting a list of hashes queues exactly those of them that are not complete and are
      parked for the namespace or being downloaded, and marks all for a retry if asked to. */
  lemma {:induction false} StartAllMeans(s: Live, ns: NamespaceId, hs: seq<Hash>, complete: Hash -> bool, retry: bool, n: NamespaceId, g: Hash)
    requires Inverse(s.queue)
    ensures var t := StartAll(s, ns, hs, complete, retry);
      && Inverse(t.queue)
      && (Queued(t.queue, n, g) <==>
            || Queued(s.queue, n, g)
            || (n == ns && g in hs && !complete(g) && (g in s.queue.byHash || (ns, g) in s.missing)))
      && ((n, g) in t.missing <==> (n, g) in s.missing && !(n == ns && g in hs && (complete(g) || g !in s.queue.byHash)))
      && ((n, g) in t.retry <==> (n, g) in s.retry || (retry && n == ns && g in hs))
      && (g in t.queue.byHash <==> g in s.queue.byHash || (g in hs && !complete(g) && (ns, g) in s.missing))
  {
    hide Inverse, QueueDownload;
    if hs != [] {
      var init, h := hs[..|hs| - 1], hs[|hs| - 1];
      assert hs == init + [h];
      StartAllMeans(s, ns, init, complete, retry, n, g);
      var before := StartAll(s, ns, init, complete, retry);
      var marked := if retry then before.(retry := before.retry + {(ns, h)}) else before;
      QueueDownloadMeans(marked, ns, h, complete(h), true, n, g);
      QueueDownloadGrows(marked, ns, h, complete(h), true);
      QueueDownloadHashes(marked, ns, h, complete(h), g);
      if g == h && n != ns { StartAllMeans(s, ns, init, complete, retry, ns, g); }
    }
  }

  lemma QueueDownloadHashes(s: Live, ns: NamespaceId, h: Hash, complete: bool, g: Hash)
    ensures var t := QueueDownload(s, ns, h, complete, true);
      g in t.queue.byHash <==> g in s.queue.byHash || (g == h && !complete && (ns, h) in s.missing)
  {
  }

  /** The lists a finished sync works on are those of its namespace. */
  ghost predicate ListsOwn(s: Live, op: Op) {
    && op.SyncDone?
    && (forall h :: h in op.parked <==> (op.ns, h) in s.missing)
    && (forall h :: h in op.queued <==> Queued(s.queue, op.ns, h))
  }

  /** In every run a successful sync queues again exactly what is parked for its namespace
      and not complete, beside what is queued for it already, and marks what is queued for
      it to be tried once more if it fails; a failed one does neither. */
  lemma SyncRetries(ops: seq<Op>, op: Op, n: NamespaceId, h: Hash)
    requires ListsOwn(HandleAll(ops), op)
    ensures var s := HandleAll(ops); var t := Handle(s, op);
      && (Queued(t.queue, n, h) <==> Queued(s.queue, n, h) || (op.ok && n == op.ns && (n, h) in s.missing && !op.statusOf(h)))
      && ((n, h) in t.retry <==> (n, h) in s.retry || (op.ok && n == op.ns && Queued(s.queue, n, h)))
      && ((n, h) in t.missing <==> (n, h) in s.missing && !(op.ok && n == op.ns && (op.statusOf(h) || h !in s.queue.byHash)))
  {
    hide HandleAll, Inverse, StartAll, Count;
    DownloadsAccounted(ops);
    var s := HandleAll(ops);
    InvQueue(s);
    StartAllMeans(s, op.ns, op.parked, op.statusOf, false, n, h);
    var t1 := StartAll(s, op.ns, op.parked, op.statusOf, false);
    StartAllMeans(t1, op.ns, op.queued, op.statusOf, true, n, h);
  }

  /** The end of a download takes its hash off the queue for every namespace. After a
      success nothing is left to retry; after a failure the hash is parked for the
      namespace of the download, or queued once more if it was marked. */
  lemma SettledMeans(s: Live, ns: NamespaceId, h: Hash, ok: bool, complete: bool, n: NamespaceId, g: Hash)
    requires Inverse(s.queue)
    ensures var t := Settled(s, ns, h, ok, complete); var again := !ok && n == ns && g == h && (ns, h) in s.retry;
      && (Queued(t.queue, n, g) <==> (Queued(s.queue, n, g) && g != h) || (again && !complete))
      && ((n, g) in t.missing <==> ((n, g) in s.missing || (!ok && n == ns && g == h)) && !again)
      && ((n, g) in t.retry <==> (n, g) in s.retry && (if ok then g != h else !(n == ns && g == h)))
  {
    hide Inverse, Removed, QueueDownload;
    RemovedMeans(s.queue, h);
    var t := s.(queue := Removed(s.queue, h));
    NotQueued(s.queue, h);
    if !ok {
      var u := t.(missing := t.missing + {(ns, h)}, retry := t.retry - {(ns, h)});
      QueueDownloadMeans(u, ns, h, complete, true, n, g);
    }
  }

  lemma NotQueued(q: Queue, h: Hash)
    ensures h !in Removed(q, h).byHash
  {
  }

  // ---- what is wanted and not there yet ----

  /** The hash is being downloaded for the namespace, or parked until a provider turns up. */
  predicate Pending(s: Live, n: NamespaceId, h: Hash) {
    Queued(s.queue, n, h) || (n, h) in s.missing
  }

  /** Handling `op` finds the content of `h` complete. */
  predicate SeesComplete(op: Op, h: Hash) {
    match op
    case Download(_, hash, complete, _) => hash == h && complete
    case SyncDone(_, _, _, _, _, statusOf) => statusOf(h)
    case DownloadDone(_, hash, ok, complete, _) => hash == h && (ok || complete)
    case _ => false
  }

  /** A failed download of `h` that the namespace had only joined: it was started for
      another namespace, and the hash was not parked for this one. */
  ghost predicate FailsForOther(s: Live, op: Op, n: NamespaceId, h: Hash) {
    && op.DownloadDone? && Legal(s, op) && op.hash == h && !op.ok && !op.complete
    && op.ns != n && Queued(s.queue, n, h) && (n, h) !in s.missing
  }

  lemma QueueDownloadKeeps(s: Live, ns: NamespaceId, g: Hash, complete: bool, onlyIfMissing: bool, n: NamespaceId, h: Hash)
    requires Inverse(s.queue) && (g == h ==> !complete)
    ensures Pending(s, n, h) ==> Pending(QueueDownload(s, ns, g, complete, onlyIfMissing), n, h)
  {
    hide Inverse;
    InsertedMeans(s.queue, g, ns);
  }

  lemma {:induction false} StartAllKeeps(s: Live, ns: NamespaceId, hs: seq<Hash>, complete: Hash -> bool, retry: bool, n: NamespaceId, h: Hash)
    requires Inverse(s.queue) && !complete(h)
    ensures Pending(s, n, h) ==> Pending(StartAll(s, ns, hs, complete, retry), n, h)
  {
    hide Inverse, QueueDownload;
    if hs != [] {
      var init, g := hs[..|hs| - 1], hs[|hs| - 1];
      StartAllKeeps(s, ns, init, complete, retry, n, h);
      StartAllGrows(s, ns, init, complete, retry);
      var before := StartAll(s, ns, init, complete, retry);
      QueueDownloadKeeps(if retry then before.(retry := before.retry + {(ns, g)}) else before, ns, g, complete(g), true, n, h);
    }
  }

  lemma SyncDoneKeeps(s: Live, op: Op, n: NamespaceId, h: Hash)
    requires LiveInv(s) && op.SyncDone? && !op.statusOf(h)
    ensures Pending(s, n, h) ==> Pending(Handle(s, op), n, h)
  {
    hide Inverse, Count, StartAll;
    StartAllKeeps(s, op.ns, op.parked, op.statusOf, false, n, h);
    StartAllGrows(s, op.ns, op.parked, op.statusOf, false);
    StartAllKeeps(StartAll(s, op.ns, op.parked, op.statusOf, false), op.ns, op.queued, op.statusOf, true, n, h);
  }

  lemma {:induction false} EmitReadyKeepsPending(s: Live, nss: seq<NamespaceId>)
    ensures EmitReady(s, nss).queue == s.queue && EmitReady(s, nss).missing == s.missing
  {
    if nss != [] { EmitReadyKeepsPending(s, nss[..|nss| - 1]); }
  }

  lemma DownloadDoneLoses(s: Live, op: Op, n: NamespaceId, h: Hash)
    requires LiveInv(s) && op.DownloadDone? && Legal(s, op) && Pending(s, n, h) && !SeesComplete(op, h)
    ensures !Pending(Handle(s, op), n, h) <==> FailsForOther(s, op, n, h)
  {
    hide Inverse, Count, Removed, Completed, EmitReady, Legal;
    RemovedMeans(s.queue, op.hash);
    var t := s.(queue := Removed(s.queue, op.hash));
    EmitReadyKeepsPending(Settled(s, op.ns, op.hash, op.ok, op.complete), op.completed);
    if !op.ok {
      InsertedMeans(t.queue, op.hash, op.ns);
    }
  }

  /** In every run a wanted hash stays queued or parked for its namespace until its content
      is found complete, except exactly if the download it waits for fails and was
      started for another namespace: only that one is parked again. */
  lemma WantedIsDropped(ops: seq<Op>, op: Op, n: NamespaceId, h: Hash)
    ensures var s := HandleAll(ops);
      Pending(s, n, h) && !Pending(Handle(s, op), n, h) && !SeesComplete(op, h) <==> FailsForOther(s, op, n, h)
  {
    hide HandleAll, LiveInv;
    DownloadsAccounted(ops);
    var s := HandleAll(ops);
    InvQueue(s);
    if Pending(s, n, h) && !SeesComplete(op, h) {
      PendingStep(s, op, n, h);
    }
  }

  lemma PendingStep(s: Live, op: Op, n: NamespaceId, h: Hash)
    requires LiveInv(s) && Pending(s, n, h) && !SeesComplete(op, h)
    ensures !Pending(Handle(s, op), n, h) <==> FailsForOther(s, op, n, h)
  {
    hide LiveInv, QueueDownload, OnSyncFinished, OnDownloadReady, Legal;
    InvQueue(s);
    match op
    case Download(ns, g, complete, onlyIfMissing) =>
      QueueDownloadKeeps(s, ns, g, complete, onlyIfMissing, n, h);
    case SyncDone(_, _, _, _, _, _) =>
      SyncDoneKeeps(s, op, n, h);
    case DownloadDone(_, _, _, _, _) =>
      if Legal(s, op) { DownloadDoneLoses(s, op, n, h); }
    case _ =>
  }

  /** Such a run: a second namespace joins a running download, which then fails. The hash
      is parked for the first namespace and forgotten for the second. */
  lemma WantedIsDroppedRun(first: NamespaceId, second: NamespaceId, h: Hash)
    requires first != second
    ensures var ops := [Download(first, h, false, false), Download(second, h, false, false)];
      var op := DownloadDone(first, h, false, false, [first, second]);
      && Pending(HandleAll(ops), second, h)
      && Pending(HandleAll(ops + [op]), first, h) && !Pending(HandleAll(ops + [op]), second, h)
  {
    hide HandleAll, Handle;
    var one, two := [Download(first, h, false, false)], [Download(first, h, false, false), Download(second, h, false, false)];
    var op := DownloadDone(first, h, false, false, [first, second]);
    var s := NEW_LIVE.(queue := Queue(map[h := {first, second}], map[first := {h}, second := {h}]));
    assert HandleAll(two) == s by {
      HandleSnoc([], two[0]);
      HandleSnoc(one, two[1]);
      assert [] + [two[0]] == one && one + [two[1]] == two;
      BothJoin(first, second, h);
    }
    HandleSnoc(two, op);
    FailsForFirst(first, second, h);
  }

  lemma HandleSnoc(ops: seq<Op>, op: Op)
    ensures HandleAll(ops + [op]) == Handle(HandleAll(ops), op) && HandleAll([]) == NEW_LIVE
  {
    hide Handle;
    assert (ops + [op])[..|ops|] == ops;
  }

  lemma BothJoin(first: NamespaceId, second: NamespaceId, h: Hash)
    requires first != second
    ensures Handle(Handle(NEW_LIVE, Download(first, h, false, false)), Download(second, h, false, false)) ==
      NEW_LIVE.(queue := Queue(map[h := {first, second}], map[first := {h}, second := {h}]))
  {
    assert {} + {first} == {first} && {first} + {second} == {first, second} && {} + {h} == {h};
  }

  lemma FailsForFirst(first: NamespaceId, second: NamespaceId, h: Hash)
    requires first != second
    ensures var s := NEW_LIVE.(queue := Queue(map[h := {first, second}], map[first := {h}, second := {h}]));
      var t := Handle(s, DownloadDone(first, h, false, false, [first, second]));
      Pending(s, second, h) && Pending(t, first, h) && !Pending(t, second, h)
  {
    hide EmitReady;
    var s := NEW_LIVE.(queue := Queue(map[h := {first, second}], map[first := {h}, second := {h}]));
    assert {h} - {h} == {};
    assert Completed(s.queue, h) == {first, second};
    EmitReadyKeepsPending(Settled(s, first, h, false, false), [first, second]);
  }
}
