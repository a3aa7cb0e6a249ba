/** The sync slot a node keeps per namespace and peer, and what two nodes' slots do
    together when both dial. */
module PeerSync {
  import opened Bytes
  import opened Basics

  datatype Reason = DirectJoin | NewNeighbor | SyncReport | Resync

  datatype Origin = Connect(reason: Reason) | Accepted

  datatype SyncState = Idle | Running(start: nat, origin: Origin)

  /** The slot of one peer; `resync` is the queued request to sync again. */
  datatype Slot = Slot(state: SyncState, resync: bool)

  const FRESH := Slot(Idle, false)

  datatype AcceptOutcome = Allow | AlreadySyncing

  function Started(origin: Origin, now: nat): Slot {
    Slot(Running(now, origin), false)
  }

  /** With both ends dialing, the end with the larger id gives way to the other's dial. */
  predicate ExpectsAccept(me: Bytes, peer: Bytes) {
    Less(peer, me)
  }

  function StartConnect(s: Slot, reason: Reason, now: nat): (Slot, bool) {
    if s.state.Idle? then (Started(Connect(reason), now), true)
    else (if reason.SyncReport? then s.(resync := true) else s, false)
  }

  function AbortConnect(s: Slot, reason: Reason): (Slot, bool) {
    if s.state.Running? && s.state.origin == Connect(reason) then (s.(state := Idle), true) else (s, false)
  }

  function AcceptRequest(s: Slot, me: Bytes, peer: Bytes, now: nat): (Slot, AcceptOutcome) {
    if s.state.Idle? || (s.state.origin.Connect? && ExpectsAccept(me, peer)) then (Started(Accepted, now), Allow)
    else (s, AlreadySyncing)
  }

  /** A finish that does not match the running origin is only logged: it ends the slot too. */
  function Finish(s: Slot): (Slot, Option<(nat, bool)>) {
    (s.(state := Idle), if s.state.Running? then Some((s.state.start, s.resync)) else None)
  }

  // ---- one slot over time: resync is exact ----

  datatype Event =
    | Trigger(reason: Reason, now: nat)
    | Aborted(reason: Reason)
    | Request(now: nat)
    | Finished

  function After(s: Slot, e: Event, me: Bytes, peer: Bytes): Slot {
    match e
    case Trigger(reason, now) => StartConnect(s, reason, now).0
    case Aborted(reason) => AbortConnect(s, reason).0
    case Request(now) => AcceptRequest(s, me, peer, now).0
    case Finished => Finish(s).0
  }

  function History(es: seq<Event>, me: Bytes, peer: Bytes): Slot {
    if es == [] then FRESH else After(History(es[..|es| - 1], me, peer), es[|es| - 1], me, peer)
  }

  /** The event makes the slot enter Running (again). */
  predicate Enters(s: Slot, e: Event, me: Bytes, peer: Bytes) {
    || (e.Trigger? && s.state.Idle?)
    || (e.Request? && (s.state.Idle? || (s.state.origin.Connect? && Less(peer, me))))
  }

  /** The report at `i` is one that the slot has not entered Running since. */
  ghost predicate FreshReport(es: seq<Event>, i: nat, me: Bytes, peer: Bytes) {
    && i < |es| && es[i].Trigger? && es[i].reason.SyncReport?
    && forall j | i <= j < |es| :: !Enters(History(es[..j], me, peer), es[j], me, peer)
  }

  /** A sync report arrived, and the slot has not entered Running since. */
  ghost predicate ReportedSinceStart(es: seq<Event>, me: Bytes, peer: Bytes) {
    exists i: nat :: FreshReport(es, i, me, peer)
  }

  lemma FreshReportSnoc(before: seq<Event>, e: Event, i: nat, me: Bytes, peer: Bytes)
    requires i < |before|
    ensures FreshReport(before + [e], i, me, peer) <==>
      FreshReport(before, i, me, peer) && !Enters(History(before, me, peer), e, me, peer)
  {
    hide Enters, History;
    var es := before + [e];
    assert es[..|before|] == before && es[|before|] == e;
    assert forall j | 0 <= j < |before| :: es[..j] == before[..j] && es[j] == before[j];
    if FreshReport(es, i, me, peer) {
      assert !Enters(History(es[..|before|], me, peer), es[|before|], me, peer);
      forall j | i <= j < |before|
        ensures !Enters(History(before[..j], me, peer), before[j], me, peer)
      {
        assert !Enters(History(es[..j], me, peer), es[j], me, peer);
      }
    }
  }

  lemma ReportedStep(es: seq<Event>, me: Bytes, peer: Bytes)
    requires es != []
    ensures var before, e := es[..|es| - 1], es[|es| - 1];
      ReportedSinceStart(es, me, peer) <==>
        !Enters(History(before, me, peer), e, me, peer) &&
        ((e.Trigger? && e.reason.SyncReport?) || ReportedSinceStart(before, me, peer))
  {
    hide Enters, History, FreshReport;
    var before, e := es[..|es| - 1], es[|es| - 1];
    assert es == before + [e];
    forall i: nat | i < |before|
      ensures FreshReport(es, i, me, peer) <==>
        FreshReport(before, i, me, peer) && !Enters(History(before, me, peer), e, me, peer)
    {
      FreshReportSnoc(before, e, i, me, peer);
    }
    LastReport(before, e, me, peer);
    OnlyInside(es, me, peer);
    OnlyInside(before, me, peer);
    if ReportedSinceStart(es, me, peer) {
      var i: nat :| FreshReport(es, i, me, peer);
      assert i == |before| || i < |before|;
    }
    if ReportedSinceStart(before, me, peer) {
      var i: nat :| FreshReport(before, i, me, peer);
      assert i < |before|;
    }
  }

  lemma OnlyInside(es: seq<Event>, me: Bytes, peer: Bytes)
    ensures forall i: nat | FreshReport(es, i, me, peer) :: i < |es|
  {
    hide Enters, History;
  }

  lemma LastReport(before: seq<Event>, e: Event, me: Bytes, peer: Bytes)
    ensures FreshReport(before + [e], |before|, me, peer) <==>
      e.Trigger? && e.reason.SyncReport? && !Enters(History(before, me, peer), e, me, peer)
  {
    hide Enters, History;
    var es := before + [e];
    assert es[..|before|] == before && es[|before|] == e;
  }

  /** Over every history, a running slot finishes with a resync exactly if a sync report
      arrived since it last entered Running, across takeovers and aborts. */
  lemma {:induction false} ResyncExact(es: seq<Event>, me: Bytes, peer: Bytes)
    ensures var s := History(es, me, peer);
      Finish(s).1 == if s.state.Idle? then None else Some((s.state.start, ReportedSinceStart(es, me, peer)))
  {
    hide Less, ReportedSinceStart;
    if es != [] {
      ResyncExact(es[..|es| - 1], me, peer);
      ReportedStep(es, me, peer);
    }
  }

  /** The slot runs what it entered at `i`: it did not enter Running again since, did not
      finish, and the dial it entered with was not aborted. */
  ghost predicate RunsSince(es: seq<Event>, i: nat, me: Bytes, peer: Bytes) {
    && i < |es| && Enters(History(es[..i], me, peer), es[i], me, peer)
    && forall j | i < j < |es| ::
         !Enters(History(es[..j], me, peer), es[j], me, peer) && !es[j].Finished? &&
         !(es[i].Trigger? && es[j] == Aborted(es[i].reason))
  }

  function RunningFrom(e: Event): SyncState
    requires e.Trigger? || e.Request?
  {
    if e.Trigger? then Running(e.now, Connect(e.reason)) else Running(e.now, Accepted)
  }

  lemma RunsSinceSnoc(before: seq<Event>, e: Event, i: nat, me: Bytes, peer: Bytes)
    requires i < |before|
    ensures RunsSince(before + [e], i, me, peer) <==>
      && RunsSince(before, i, me, peer)
      && !Enters(History(before, me, peer), e, me, peer) && !e.Finished?
      && !(before[i].Trigger? && e == Aborted(before[i].reason))
  {
    hide Enters, History;
    var es := before + [e];
    assert es[..|before|] == before && es[|before|] == e;
    assert forall j | 0 <= j < |before| :: es[..j] == before[..j] && es[j] == before[j];
    if RunsSince(es, i, me, peer) {
      forall j | i < j < |before|
        ensures !Enters(History(before[..j], me, peer), before[j], me, peer) && !before[j].Finished?
        ensures !(before[i].Trigger? && before[j] == Aborted(before[i].reason))
      {
        assert !Enters(History(es[..j], me, peer), es[j], me, peer) && !es[j].Finished?;
      }
      assert !Enters(History(es[..|before|], me, peer), es[|before|], me, peer);
    }
  }

  lemma RunsSinceLast(before: seq<Event>, e: Event, me: Bytes, peer: Bytes)
    ensures RunsSince(before + [e], |before|, me, peer) <==> Enters(History(before, me, peer), e, me, peer)
  {
    hide Enters, History;
    var es := before + [e];
    assert es[..|before|] == before && es[|before|] == e;
  }

  lemma EntersMeans(s: Slot, e: Event, me: Bytes, peer: Bytes)
    ensures Enters(s, e, me, peer) ==> (e.Trigger? || e.Request?) && After(s, e, me, peer) == Slot(RunningFrom(e), false)
    ensures !Enters(s, e, me, peer) ==>
      After(s, e, me, peer).state ==
        if e.Finished? || (e.Aborted? && s.state.Running? && s.state.origin == Connect(e.reason)) then Idle else s.state
  {
    hide Less;
  }

  /** Over every history: the slot runs exactly what it last entered, with the time and the
      origin of that event, until it finishes or that very dial is aborted; an abort that
      comes late, for a dial that was taken over, spares it. Else it is idle. */
  lemma {:induction false} SlotRunsLastEntered(es: seq<Event>, me: Bytes, peer: Bytes)
    ensures var s := History(es, me, peer);
      && (s.state.Idle? <==> forall i: nat :: !RunsSince(es, i, me, peer))
      && (forall i: nat | RunsSince(es, i, me, peer) :: (es[i].Trigger? || es[i].Request?) && s.state == RunningFrom(es[i]))
  {
    hide Less, Enters, RunsSince, After, RunningFrom;
    if es == [] {
      NeverEntered(me, peer);
    } else {
      var before, e := es[..|es| - 1], es[|es| - 1];
      assert es == before + [e];
      SlotRunsLastEntered(before, me, peer);
      var s := History(before, me, peer);
      EntersMeans(s, e, me, peer);
      RunsSinceLast(before, e, me, peer);
      forall i: nat
        ensures RunsSince(es, i, me, peer) ==> i < |es| && (i < |before| ==> es[i] == before[i])
        ensures i < |before| ==> (RunsSince(es, i, me, peer) <==>
          RunsSince(before, i, me, peer) && !Enters(s, e, me, peer) && !e.Finished? && !(before[i].Trigger? && e == Aborted(before[i].reason)))
        ensures RunsSince(before, i, me, peer) ==> i < |before|
      {
        InsideOnly(es, i, me, peer);
        InsideOnly(before, i, me, peer);
        if i < |before| { RunsSinceSnoc(before, e, i, me, peer); }
      }
      RunningOrigins();
      if !Enters(s, e, me, peer) && s.state.Running? {
        var i: nat :| RunsSince(before, i, me, peer);
        assert RunsSince(es, i, me, peer) <==> !e.Finished? && !(before[i].Trigger? && e == Aborted(before[i].reason));
      }
    }
  }

  lemma NeverEntered(me: Bytes, peer: Bytes)
    ensures History([], me, peer) == FRESH && forall i: nat :: !RunsSince([], i, me, peer)
  {
  }

  lemma InsideOnly(es: seq<Event>, i: nat, me: Bytes, peer: Bytes)
    ensures RunsSince(es, i, me, peer) ==> i < |es|
  {
    hide Enters;
  }

  lemma RunningOrigins()
    ensures forall e: Event | e.Trigger? :: RunningFrom(e) == Running(e.now, Connect(e.reason))
    ensures forall e: Event | e.Request? :: RunningFrom(e) == Running(e.now, Accepted)
  {
  }

  // ---- two slots: at most one exchange ----

  datatype Side = Low | High

  datatype Net = Dial(from: Side, reason: Reason) | Refusal(to: Side, reason: Reason)

  /** Two nodes with ids `lowId < highId`. Beside the slots and the wire, what happened is
      recorded: `allowed` lists the dialers whose request was allowed, `dialed` the sides
      that dialed, `running` the ends of the last allowed exchange that have not finished
      it, and `overlaps` how often a request was allowed while an end was still running. */
  datatype Pair = Pair(
    lowId: Bytes, highId: Bytes, low: Slot, high: Slot, net: multiset<Net>,
    allowed: seq<Side>, dialed: set<Side>, running: set<Side>, overlaps: nat)

  /** A dial can fail on its way, or at the other end before that end has decided on it;
      the error then ends the slot there, whatever it was running, and reaches the dialer
      as a dial that failed. */
  datatype Move =
    | TriggerAt(side: Side, reason: Reason, now: nat)
    | DeliverDial(dialer: Side, reason: Reason, now: nat)
    | DeliverRefusal(dialer: Side, reason: Reason)
    | DialFails(dialer: Side, reason: Reason)
    | RequestFails(dialer: Side, reason: Reason)
    | FinishAt(side: Side)

  function SlotAt(p: Pair, side: Side): Slot {
    if side.Low? then p.low else p.high
  }

  function WithSlot(p: Pair, side: Side, s: Slot): Pair {
    if side.Low? then p.(low := s) else p.(high := s)
  }

  function Other(side: Side): Side {
    if side.Low? then High else Low
  }

  function IdAt(p: Pair, side: Side): Bytes {
    if side.Low? then p.lowId else p.highId
  }

  function Play(p: Pair, m: Move): Pair {
    match m
    case TriggerAt(side, reason, now) =>
      var (s, dial) := StartConnect(SlotAt(p, side), reason, now);
      var p' := WithSlot(p, side, s);
      if dial then p'.(net := p'.net + multiset{Dial(side, reason)}, dialed := p'.dialed + {side}) else p'
    case DeliverDial(dialer, reason, now) =>
      if Dial(dialer, reason) !in p.net then p
      else
        var side := Other(dialer);
        var (s, outcome) := AcceptRequest(SlotAt(p, side), IdAt(p, side), IdAt(p, dialer), now);
        var p' := WithSlot(p, side, s).(net := p.net - multiset{Dial(dialer, reason)});
        if outcome.Allow? then
          p'.(allowed := p'.allowed + [dialer], running := {Low, High},
              overlaps := if p'.running == {} then p'.overlaps else p'.overlaps + 1)
        else p'.(net := p'.net + multiset{Refusal(dialer, reason)})
    case DeliverRefusal(dialer, reason) =>
      if Refusal(dialer, reason) !in p.net then p
      else WithSlot(p, dialer, AbortConnect(SlotAt(p, dialer), reason).0).(net := p.net - multiset{Refusal(dialer, reason)})
    case DialFails(dialer, reason) =>
      if Dial(dialer, reason) !in p.net then p
      else WithSlot(p, dialer, Finish(SlotAt(p, dialer)).0).(net := p.net - multiset{Dial(dialer, reason)})
    case RequestFails(dialer, reason) =>
      if Dial(dialer, reason) !in p.net then p
      else WithSlot(p, Other(dialer), Finish(SlotAt(p, Other(dialer))).0)
    case FinishAt(side) => WithSlot(p, side, Finish(SlotAt(p, side)).0).(running := p.running - {side})
  }

  /** The move finishes a slot. */
  predicate Ends(m: Move) {
    m.DialFails? || m.RequestFails? || m.FinishAt?
  }

  function PlayAll(p: Pair, ms: seq<Move>): Pair {
    if ms == [] then p else Play(PlayAll(p, ms[..|ms| - 1]), ms[|ms| - 1])
  }

  function Quiet(lowId: Bytes, highId: Bytes): Pair {
    Pair(lowId, highId, FRESH, FRESH, multiset{}, [], {}, {}, 0)
  }

  predicate Dialing(s: Slot) {
    s.state.Running? && s.state.origin.Connect?
  }

  predicate Accepting(s: Slot) {
    s.state.Running? && s.state.origin.Accepted?
  }

  /** Nothing of the low side is on the wire. */
  ghost predicate LowSilent(p: Pair) {
    forall r: Reason :: p.net[Dial(Low, r)] == 0 && p.net[Refusal(Low, r)] == 0
  }

  /** Exactly the high side's own dial is on the wire if it is dialing, else nothing of it. */
  ghost predicate HighPending(p: Pair, pending: bool) {
    && (pending ==> Dialing(p.high))
    && forall r: Reason :: p.net[Refusal(High, r)] == 0 &&
         p.net[Dial(High, r)] == if pending && p.high.state.origin.reason == r then 1 else 0
  }

  /** Nobody below accepted or dialed yet: only the high side may be dialing. */
  ghost predicate Before(p: Pair) {
    && p.low.state.Idle? && p.allowed == [] && Low !in p.dialed && LowSilent(p)
    && HighPending(p, p.high.state.Running?) && (High in p.dialed <==> p.high.state.Running?)
  }

  /** The low side accepted the high side's dial. */
  ghost predicate HighWon(p: Pair) {
    && Accepting(p.low) && Dialing(p.high) && p.allowed == [High] && p.dialed == {High}
    && LowSilent(p) && HighPending(p, false)
  }

  /** The low side dialed: its request is on the wire, or was the one allowed. */
  ghost predicate LowDialed(p: Pair) {
    && Dialing(p.low) && Low in p.dialed
    && (forall r: Reason :: p.net[Refusal(Low, r)] == 0)
    && (if p.allowed == [] then
          && !Accepting(p.high)
          && (forall r: Reason :: p.net[Dial(Low, r)] == if p.low.state.origin.reason == r then 1 else 0)
        else
          && p.allowed == [Low] && Accepting(p.high)
          && (forall r: Reason :: p.net[Dial(Low, r)] == 0))
  }

  ghost predicate PairInv(p: Pair) {
    Less(p.lowId, p.highId) && (Before(p) || HighWon(p) || LowDialed(p))
  }

  lemma PlayKeepsInv(p: Pair, m: Move)
    requires PairInv(p) && !Ends(m)
    ensures PairInv(Play(p, m))
  {
    hide Less;
    LessIsTotalOrder(p.lowId, p.highId, p.lowId);
    if Before(p) {
      BeforeMove(p, m);
    } else if HighWon(p) {
      HighWonMove(p, m);
    } else {
      LowDialedMove(p, m);
    }
  }

  lemma BeforeMove(p: Pair, m: Move)
    requires Before(p) && !Ends(m)
    ensures Before(Play(p, m)) || HighWon(Play(p, m)) || LowDialed(Play(p, m))
  {
    hide Less, Before, HighWon, LowDialed;
    match m
    case TriggerAt(side, reason, now) =>
      if side.Low? { FirstLowDial(p, reason, now); } else { FirstHighDial(p, reason, now); }
    case DeliverDial(dialer, reason, now) =>
      NothingElse(p, reason);
      if dialer.High? && Dial(High, reason) in p.net { HighDialAllowed(p, reason, now); }
    case DeliverRefusal(dialer, reason) =>
      NothingElse(p, reason);
  }

  lemma NothingElse(p: Pair, reason: Reason)
    requires Before(p)
    ensures Dial(Low, reason) !in p.net && Refusal(Low, reason) !in p.net && Refusal(High, reason) !in p.net
  {
    assert p.net[Dial(Low, reason)] == 0 && p.net[Refusal(Low, reason)] == 0 && p.net[Refusal(High, reason)] == 0;
  }

  lemma FirstLowDial(p: Pair, reason: Reason, now: nat)
    requires Before(p)
    ensures LowDialed(Play(p, TriggerAt(Low, reason, now)))
  {
    hide Less;
  }

  lemma FirstHighDial(p: Pair, reason: Reason, now: nat)
    requires Before(p)
    ensures Before(Play(p, TriggerAt(High, reason, now)))
  {
    hide Less;
  }

  lemma HighDialAllowed(p: Pair, reason: Reason, now: nat)
    requires Before(p) && Dial(High, reason) in p.net
    ensures HighWon(Play(p, DeliverDial(High, reason, now)))
  {
    hide Less;
    assert p.net[Dial(High, reason)] == 1 && p.high.state.origin.reason == reason;
    OnlySides(p.dialed);
  }

  lemma HighWonMove(p: Pair, m: Move)
    requires HighWon(p) && !Ends(m)
    ensures HighWon(Play(p, m))
  {
    hide Less, HighWon;
    match m
    case TriggerAt(side, reason, now) =>
      TriggerAfterHighWon(p, side, reason, now);
    case DeliverDial(dialer, reason, now) =>
      WireQuiet(p, reason);
    case DeliverRefusal(dialer, reason) =>
      WireQuiet(p, reason);
  }

  lemma WireQuiet(p: Pair, reason: Reason)
    requires HighWon(p)
    ensures Dial(Low, reason) !in p.net && Dial(High, reason) !in p.net
    ensures Refusal(Low, reason) !in p.net && Refusal(High, reason) !in p.net
  {
    assert p.net[Dial(Low, reason)] == 0 && p.net[Dial(High, reason)] == 0;
    assert p.net[Refusal(Low, reason)] == 0 && p.net[Refusal(High, reason)] == 0;
  }

  lemma TriggerAfterHighWon(p: Pair, side: Side, reason: Reason, now: nat)
    requires HighWon(p)
    ensures HighWon(Play(p, TriggerAt(side, reason, now)))
  {
  }

  lemma LowDialedMove(p: Pair, m: Move)
    requires LowDialed(p) && !Ends(m) && Less(p.lowId, p.highId) && !Less(p.highId, p.lowId)
    ensures LowDialed(Play(p, m))
  {
    hide Less, LowDialed;
    match m
    case TriggerAt(side, reason, now) =>
      LowDialedTrigger(p, side, reason, now);
    case DeliverDial(dialer, reason, now) =>
      if dialer.Low? {
        LowDialArrives(p, reason, now);
      } else {
        HighDialArrives(p, reason, now);
      }
    case DeliverRefusal(dialer, reason) =>
      RefusalArrives(p, dialer, reason);
  }

  lemma RefusalArrives(p: Pair, dialer: Side, reason: Reason)
    requires LowDialed(p)
    ensures LowDialed(Play(p, DeliverRefusal(dialer, reason)))
  {
    hide Less;
    assert p.net[Refusal(Low, reason)] == 0;
  }

  lemma LowDialedTrigger(p: Pair, side: Side, reason: Reason, now: nat)
    requires LowDialed(p)
    ensures LowDialed(Play(p, TriggerAt(side, reason, now)))
  {
  }

  lemma LowDialArrives(p: Pair, reason: Reason, now: nat)
    requires LowDialed(p) && Less(p.lowId, p.highId)
    ensures LowDialed(Play(p, DeliverDial(Low, reason, now)))
  {
    hide Less;
    if Dial(Low, reason) in p.net {
      assert p.net[Dial(Low, reason)] == 1 && p.low.state.origin.reason == reason;
    }
  }

  lemma HighDialArrives(p: Pair, reason: Reason, now: nat)
    requires LowDialed(p) && !Less(p.highId, p.lowId)
    ensures LowDialed(Play(p, DeliverDial(High, reason, now)))
  {
    hide Less;
  }

  /** No exchange is running, no end is dialing, and nothing is on the wire. */
  predicate AtRest(p: Pair) {
    Less(p.lowId, p.highId) && p.low.state.Idle? && p.high.state.Idle? && p.net == multiset{} && p.running == {}
  }

  /** The pair with its record of requests and dials started afresh. */
  function NewRound(p: Pair): Pair {
    p.(allowed := [], dialed := {})
  }

  /** From any pair at rest, over every run of triggers, crossing dials, deliveries and
      refusals, in any order and until something finishes: at most one request is allowed;
      if the low side dialed, it is the low side's and no other; and once the wire is quiet
      after some dial, exactly one was allowed and the two slots agree on it. */
  lemma {:induction false} AtMostOneExchange(p0: Pair, ms: seq<Move>)
    requires AtRest(p0) && forall m | m in ms :: !Ends(m)
    ensures var p := PlayAll(NewRound(p0), ms);
      && PairInv(p)
      && |p.allowed| <= 1
      && (Low in p.dialed ==> High !in p.allowed && Dialing(p.low))
      && (p.net == multiset{} && p.dialed != {} ==>
            if Low in p.dialed then p.allowed == [Low] && Dialing(p.low) && Accepting(p.high)
            else p.allowed == [High] && Dialing(p.high) && Accepting(p.low))
  {
    hide Less, Play, PairInv;
    if ms == [] {
      RestInv(p0);
    } else {
      assert ms[|ms| - 1] in ms;
      AtMostOneExchange(p0, ms[..|ms| - 1]);
      PlayKeepsInv(PlayAll(NewRound(p0), ms[..|ms| - 1]), ms[|ms| - 1]);
    }
    InvMeaning(PlayAll(NewRound(p0), ms));
  }

  lemma RestInv(p0: Pair)
    requires AtRest(p0)
    ensures PairInv(NewRound(p0))
  {
  }

  lemma InvMeaning(p: Pair)
    requires PairInv(p)
    ensures |p.allowed| <= 1
    ensures Low in p.dialed ==> High !in p.allowed && Dialing(p.low)
    ensures p.net == multiset{} && p.dialed != {} ==>
      if Low in p.dialed then p.allowed == [Low] && Dialing(p.low) && Accepting(p.high)
      else p.allowed == [High] && Dialing(p.high) && Accepting(p.low)
  {
    hide Less;
    if p.net == multiset{} && p.dialed != {} {
      if Before(p) {
        OnlySides(p.dialed);
        var onWire := p.net[Dial(High, p.high.state.origin.reason)];
        assert false;
      } else if LowDialed(p) {
        assert p.allowed == [] ==> p.net[Dial(Low, p.low.state.origin.reason)] == 1;
      }
    }
  }

  lemma OnlySides(s: set<Side>)
    ensures Low in s || s == {High} || s == {}
  {
    assert forall x | x in s :: x == Low || x == High;
    if Low !in s && High in s { assert s == {High}; }
  }

  // ---- two slots over many exchanges ----

  /** None of the high side's dials is on the wire. */
  ghost predicate NoHighDial(p: Pair) {
    forall r: Reason :: p.net[Dial(High, r)] == 0
  }

  /** The low side may finish while the high side still runs the exchange. */
  ghost predicate LowMayFinishFirst(p: Pair) {
    Accepting(p.high) && NoHighDial(p)
  }

  /** A request may fail undecided at the end: the high end, unless it runs an exchange; the
      low end, if it is idle. */
  predicate MayFailUndecided(p: Pair, side: Side) {
    if side.High? then High !in p.running else p.low.state.Idle?
  }

  /** An end finishes only an exchange it runs, and the low end not before the high end
      unless the high end accepted it and has no dial of its own left on the wire. A
      request does not fail undecided at an end whose slot stands for something. */
  ghost predicate Legal(p: Pair, m: Move) {
    match m
    case FinishAt(side) => side in p.running && (side.Low? && High in p.running ==> LowMayFinishFirst(p))
    case RequestFails(dialer, reason) => Dial(dialer, reason) in p.net ==> MayFailUndecided(p, Other(dialer))
    case _ => true
  }

  ghost predicate LegalRun(p: Pair, ms: seq<Move>) {
    ms == [] || (LegalRun(p, ms[..|ms| - 1]) && Legal(PlayAll(p, ms[..|ms| - 1]), ms[|ms| - 1]))
  }

  /** The low side outside an exchange: idle, or dialing with its dial or the refusal of
      it on the wire. */
  ghost predicate LowFree(p: Pair) {
    if p.low.state.Idle? then LowSilent(p)
    else
      && Dialing(p.low)
      && forall r: Reason :: p.net[Dial(Low, r)] + p.net[Refusal(Low, r)] == if r == p.low.state.origin.reason then 1 else 0
  }

  /** The high side's dial is still to be answered, or its refusal to be delivered. */
  ghost predicate HighAwaits(p: Pair)
    requires Dialing(p.high)
  {
    p.net[Dial(High, p.high.state.origin.reason)] + p.net[Refusal(High, p.high.state.origin.reason)] > 0
  }

  ghost predicate SoloInv(p: Pair) {
    && Less(p.lowId, p.highId) && p.overlaps == 0
    && (if Low in p.running then p.low.state.Running? && LowSilent(p) else LowFree(p))
    && (Low !in p.running && High in p.running ==> LowMayFinishFirst(p))
    && (Accepting(p.high) ==> High in p.running)
    && (Dialing(p.high) ==> High in p.running || HighAwaits(p))
  }

  lemma PlayKeepsSolo(p: Pair, m: Move)
    requires SoloInv(p) && Legal(p, m)
    ensures SoloInv(Play(p, m))
  {
    hide Less, SoloInv;
    match m
    case TriggerAt(side, reason, now) => SoloTrigger(p, side, reason, now);
    case DeliverDial(dialer, reason, now) =>
      if Dial(dialer, reason) in p.net {
        if dialer.Low? { SoloLowDial(p, reason, now); } else { SoloHighDial(p, reason, now); }
      }
    case DeliverRefusal(dialer, reason) =>
      if Refusal(dialer, reason) in p.net {
        if dialer.Low? { SoloLowRefusal(p, reason); } else { SoloHighRefusal(p, reason); }
      }
    case DialFails(dialer, reason) =>
      if Dial(dialer, reason) in p.net {
        if dialer.Low? { SoloLowFails(p, reason); } else { SoloHighFails(p, reason); }
      }
    case RequestFails(dialer, reason) =>
      if Dial(dialer, reason) in p.net {
        if dialer.Low? { SoloLowRequestFails(p, reason); } else { SoloHighRequestFails(p, reason); }
      }
    case FinishAt(side) => SoloFinish(p, side);
  }

  lemma SoloTrigger(p: Pair, side: Side, reason: Reason, now: nat)
    requires SoloInv(p)
    ensures SoloInv(Play(p, TriggerAt(side, reason, now)))
  {
    hide Less;
  }

  lemma SoloLowDial(p: Pair, reason: Reason, now: nat)
    requires SoloInv(p) && Dial(Low, reason) in p.net
    ensures SoloInv(Play(p, DeliverDial(Low, reason, now)))
  {
    hide Less;
    assert p.net[Dial(Low, reason)] > 0;
    NoSides(p.running);
  }

  lemma SoloHighDial(p: Pair, reason: Reason, now: nat)
    requires SoloInv(p) && Dial(High, reason) in p.net
    ensures SoloInv(Play(p, DeliverDial(High, reason, now)))
  {
    hide Less, Play, SoloInv;
    LessIsTotalOrder(p.lowId, p.highId, p.lowId);
    if p.low.state.Idle? {
      SoloHighTaken(p, reason, now);
    } else {
      SoloHighRefused(p, reason, now);
    }
  }

  lemma SoloHighTaken(p: Pair, reason: Reason, now: nat)
    requires SoloInv(p) && Dial(High, reason) in p.net && p.low.state.Idle?
    ensures SoloInv(Play(p, DeliverDial(High, reason, now)))
  {
    hide Less;
    assert p.net[Dial(High, reason)] > 0;
    NoSides(p.running);
  }

  lemma SoloHighRefused(p: Pair, reason: Reason, now: nat)
    requires SoloInv(p) && Dial(High, reason) in p.net && p.low.state.Running? && (Less(p.lowId, p.highId) ==> !Less(p.highId, p.lowId))
    ensures SoloInv(Play(p, DeliverDial(High, reason, now)))
  {
    hide Less;
    assert p.net[Dial(High, reason)] > 0;
    var q := Play(p, DeliverDial(High, reason, now));
    assert q == p.(net := p.net - multiset{Dial(High, reason)} + multiset{Refusal(High, reason)});
  }

  lemma SoloLowRefusal(p: Pair, reason: Reason)
    requires SoloInv(p) && Refusal(Low, reason) in p.net
    ensures SoloInv(Play(p, DeliverRefusal(Low, reason)))
  {
    hide Less;
    assert p.net[Refusal(Low, reason)] > 0;
  }

  lemma SoloHighRefusal(p: Pair, reason: Reason)
    requires SoloInv(p) && Refusal(High, reason) in p.net
    ensures SoloInv(Play(p, DeliverRefusal(High, reason)))
  {
    hide Less;
    assert p.net[Refusal(High, reason)] > 0;
  }

  lemma SoloLowFails(p: Pair, reason: Reason)
    requires SoloInv(p) && Dial(Low, reason) in p.net
    ensures SoloInv(Play(p, DialFails(Low, reason)))
  {
    hide Less;
    assert p.net[Dial(Low, reason)] > 0;
  }

  lemma SoloHighFails(p: Pair, reason: Reason)
    requires SoloInv(p) && Dial(High, reason) in p.net
    ensures SoloInv(Play(p, DialFails(High, reason)))
  {
    hide Less;
    assert p.net[Dial(High, reason)] > 0;
  }

  lemma SoloLowRequestFails(p: Pair, reason: Reason)
    requires SoloInv(p) && Dial(Low, reason) in p.net && MayFailUndecided(p, High)
    ensures SoloInv(Play(p, RequestFails(Low, reason)))
  {
    hide Less;
  }

  lemma SoloHighRequestFails(p: Pair, reason: Reason)
    requires SoloInv(p) && Dial(High, reason) in p.net && MayFailUndecided(p, Low)
    ensures SoloInv(Play(p, RequestFails(High, reason)))
  {
    hide Less;
  }

  lemma SoloFinish(p: Pair, side: Side)
    requires SoloInv(p) && Legal(p, FinishAt(side))
    ensures SoloInv(Play(p, FinishAt(side)))
  {
    hide Less;
  }

  lemma NoSides(s: set<Side>)
    ensures s == {} <==> Low !in s && High !in s
  {
    assert forall x | x in s :: x == Low || x == High;
  }

  lemma {:induction false} RunKeepsSolo(p: Pair, ms: seq<Move>)
    requires SoloInv(p) && LegalRun(p, ms)
    ensures SoloInv(PlayAll(p, ms))
  {
    hide SoloInv, Legal, Play;
    if ms != [] {
      RunKeepsSolo(p, ms[..|ms| - 1]);
      PlayKeepsSolo(PlayAll(p, ms[..|ms| - 1]), ms[|ms| - 1]);
    }
  }

  /** Over every run, through any number of exchanges that end at their two ends in their
      own time, with dials crossing, refused late or failing: no request is allowed while
      an end still runs the exchange before; and with no exchange running and a quiet wire
      the pair is at rest, ready for the next round. */
  lemma ExchangesNeverOverlap(lowId: Bytes, highId: Bytes, ms: seq<Move>)
    requires Less(lowId, highId) && LegalRun(Quiet(lowId, highId), ms)
    ensures var p := PlayAll(Quiet(lowId, highId), ms);
      p.overlaps == 0 && (p.running == {} && p.net == multiset{} ==> AtRest(p))
  {
    hide Less, LegalRun, PlayAll;
    RunKeepsSolo(Quiet(lowId, highId), ms);
    var p := PlayAll(Quiet(lowId, highId), ms);
    if p.running == {} && p.net == multiset{} {
      assert p.low.state.Running? ==> p.net[Dial(Low, p.low.state.origin.reason)] == 0;
    }
  }

  // ---- the conditions are exact ----

  /** Some continuation has an overlap. */
  ghost predicate CanOverlap(p: Pair) {
    exists ms: seq<Move> :: LegalRun(p, ms) && PlayAll(p, ms).overlaps > 0
  }

  lemma SoloCannotOverlap(p: Pair)
    requires SoloInv(p)
    ensures !CanOverlap(p)
  {
    hide SoloInv;
    forall ms: seq<Move> | LegalRun(p, ms)
      ensures PlayAll(p, ms).overlaps == 0
    {
      RunKeepsSolo(p, ms);
      NoOverlapYet(PlayAll(p, ms));
    }
  }

  lemma NoOverlapYet(p: Pair)
    requires SoloInv(p)
    ensures p.overlaps == 0
  {
  }

  lemma {:induction false} PlayAllCons(p: Pair, m: Move, ms: seq<Move>)
    requires Legal(p, m) && LegalRun(Play(p, m), ms)
    ensures PlayAll(p, [m] + ms) == PlayAll(Play(p, m), ms) && LegalRun(p, [m] + ms)
  {
    hide Play, Legal;
    if ms == [] {
      assert [m] + ms == [m] && [m][..0] == [];
      assert LegalRun(p, []) && PlayAll(p, []) == p;
    } else {
      var all := [m] + ms;
      assert all[..|all| - 1] == [m] + ms[..|ms| - 1] && all[|all| - 1] == ms[|ms| - 1];
      PlayAllCons(p, m, ms[..|ms| - 1]);
    }
  }

  lemma OverlapNow(p: Pair)
    requires p.overlaps > 0
    ensures CanOverlap(p)
  {
    assert LegalRun(p, []) && PlayAll(p, []) == p;
  }

  lemma OverlapAfter(p: Pair, m: Move)
    requires Legal(p, m) && CanOverlap(Play(p, m))
    ensures CanOverlap(p)
  {
    hide Play, Legal, LegalRun, PlayAll;
    var ms: seq<Move> :| LegalRun(Play(p, m), ms) && PlayAll(Play(p, m), ms).overlaps > 0;
    PlayAllCons(p, m, ms);
  }

  /** A dial that meets an end that takes it, while an end is running. */
  lemma TakenDial(p: Pair, dialer: Side, reason: Reason)
    requires Less(p.lowId, p.highId) && Dial(dialer, reason) in p.net && p.running != {}
    requires if dialer.Low? then !Accepting(p.high) else p.low.state.Idle?
    ensures CanOverlap(p)
  {
    hide Less;
    OverlapNow(Play(p, DeliverDial(dialer, reason, 0)));
    OverlapAfter(p, DeliverDial(dialer, reason, 0));
  }

  /** An idle low end dials while an end is running and the high end takes the dial. */
  lemma LowRedials(p: Pair)
    requires Less(p.lowId, p.highId) && p.low.state.Idle? && p.running != {} && !Accepting(p.high)
    ensures CanOverlap(p)
  {
    hide Less, CanOverlap;
    TakenDial(Play(p, TriggerAt(Low, DirectJoin, 0)), Low, DirectJoin);
    OverlapAfter(p, TriggerAt(Low, DirectJoin, 0));
  }

  /** Two idle ends with a dial of the low end left on the wire: the high end dials and is
      allowed, then the old dial arrives. */
  lemma StaleDial(p: Pair, reason: Reason)
    requires Less(p.lowId, p.highId) && p.low.state.Idle? && p.high.state.Idle? && Dial(Low, reason) in p.net
    ensures CanOverlap(p)
  {
    hide Less, CanOverlap;
    var q := Play(p, TriggerAt(High, DirectJoin, 0));
    var t := Play(q, DeliverDial(High, DirectJoin, 0));
    assert Dial(High, DirectJoin) in q.net && Dial(Low, reason) in q.net && Dialing(q.high) && q.low.state.Idle?;
    assert Dial(Low, reason) in t.net && t.high == q.high && t.running == {Low, High} && Low in t.running;
    TakenDial(t, Low, reason);
    OverlapAfter(q, DeliverDial(High, DirectJoin, 0));
    OverlapAfter(p, TriggerAt(High, DirectJoin, 0));
  }

  /** Two idle ends with a refusal for the low end left on the wire: the low end dials
      again, and the refusal idles it with that dial on the wire. */
  lemma StaleRefusal(p: Pair, reason: Reason)
    requires Less(p.lowId, p.highId) && p.low.state.Idle? && p.high.state.Idle? && Refusal(Low, reason) in p.net
    ensures CanOverlap(p)
  {
    hide Less, CanOverlap;
    var q := Play(p, TriggerAt(Low, reason, 0));
    var t := Play(q, DeliverRefusal(Low, reason));
    assert Dial(Low, reason) in q.net && Refusal(Low, reason) in q.net;
    assert t.low.state.Idle? && Dial(Low, reason) in t.net;
    StaleDial(t, reason);
    OverlapAfter(q, DeliverRefusal(Low, reason));
    OverlapAfter(p, TriggerAt(Low, reason, 0));
  }

  /** While both ends run an exchange, the low end can finish it without an overlap in any
      continuation if and only if the high end accepted it and has no dial left on the
      wire. */
  lemma LowFirstExact(p: Pair)
    requires SoloInv(p) && p.running == {Low, High}
    ensures LowMayFinishFirst(p) <==> !CanOverlap(Play(p, FinishAt(Low)))
  {
    hide Less, CanOverlap;
    var q := Play(p, FinishAt(Low));
    if LowMayFinishFirst(p) {
      PlayKeepsSolo(p, FinishAt(Low));
      SoloCannotOverlap(q);
    } else {
      assert High in q.running;
      if !Accepting(p.high) {
        LowRedials(q);
      } else {
        var r: Reason :| p.net[Dial(High, r)] > 0;
        TakenDial(q, High, r);
      }
    }
  }

  /** A request can fail undecided without an overlap in any continuation if and only if
      it fails at the high end while that runs no exchange, or at an idle low end. */
  lemma UndecidedExact(p: Pair, dialer: Side, reason: Reason)
    requires SoloInv(p) && Dial(dialer, reason) in p.net
    ensures MayFailUndecided(p, Other(dialer)) <==> !CanOverlap(Play(p, RequestFails(dialer, reason)))
  {
    hide SoloInv, CanOverlap, Less;
    if MayFailUndecided(p, Other(dialer)) {
      PlayKeepsSolo(p, RequestFails(dialer, reason));
      SoloCannotOverlap(Play(p, RequestFails(dialer, reason)));
    } else if dialer.Low? {
      FailsAtHigh(p, reason);
    } else {
      FailsAtLow(p, reason);
    }
  }

  lemma FailsAtHigh(p: Pair, reason: Reason)
    requires SoloInv(p) && Dial(Low, reason) in p.net && High in p.running
    ensures CanOverlap(Play(p, RequestFails(Low, reason)))
  {
    hide Less, CanOverlap;
    assert p.net[Dial(Low, reason)] > 0;
    var q := Play(p, RequestFails(Low, reason));
    var t := Play(q, DialFails(Low, reason));
    assert t.low.state.Idle? && t.high.state.Idle? && High in t.running;
    LowRedials(t);
    OverlapAfter(q, DialFails(Low, reason));
  }

  lemma FailsAtLow(p: Pair, reason: Reason)
    requires SoloInv(p) && Dial(High, reason) in p.net && p.low.state.Running?
    ensures CanOverlap(Play(p, RequestFails(High, reason)))
  {
    hide Less, CanOverlap;
    assert p.net[Dial(High, reason)] > 0;
    var q := Play(p, RequestFails(High, reason));
    if Low in p.running {
      if Accepting(p.high) {
        assert Low in Play(q, FinishAt(High)).running;
        LowRedials(Play(q, FinishAt(High)));
        OverlapAfter(q, FinishAt(High));
      } else {
        LowRedials(q);
      }
    } else {
      var t := Play(q, DialFails(High, reason));
      var r := p.low.state.origin.reason;
      assert p.net[Dial(Low, r)] + p.net[Refusal(Low, r)] == 1;
      assert t.low.state.Idle? && t.high.state.Idle?;
      if p.net[Dial(Low, r)] > 0 {
        assert t.net[Dial(Low, r)] > 0;
        StaleDial(t, r);
      } else {
        assert t.net[Refusal(Low, r)] > 0;
        StaleRefusal(t, r);
      }
      OverlapAfter(q, DialFails(High, reason));
    }
  }

  /** Each case comes up. First: the high side's dial was allowed and the low end finishes
      first. It dials again and is allowed while the high end still runs the first
      exchange as dialer. */
  lemma OverlapAfterHalfFinish(lowId: Bytes, highId: Bytes)
    requires Less(lowId, highId)
    ensures var p1 := Play(Quiet(lowId, highId), TriggerAt(High, DirectJoin, 0));
      var p2 := Play(p1, DeliverDial(High, DirectJoin, 1));
      var p3 := Play(p2, FinishAt(Low));
      var p4 := Play(p3, TriggerAt(Low, NewNeighbor, 2));
      var p5 := Play(p4, DeliverDial(Low, NewNeighbor, 3));
      && p4.allowed == [High] && Dialing(p4.high) && p4.running == {High}
      && p5.allowed == [High, Low] && Accepting(p5.high) && Dialing(p5.low) && p5.overlaps == 1
  {
    hide Less, Play;
    var start := Quiet(lowId, highId);
    var dialing := Started(Connect(DirectJoin), 0);
    var p1 := start.(high := dialing, net := multiset{Dial(High, DirectJoin)}, dialed := {High});
    assert Play(start, TriggerAt(High, DirectJoin, 0)) == p1 by { HighDials(start); }
    var p2 := p1.(low := Started(Accepted, 1), net := multiset{}, allowed := [High], running := {Low, High});
    assert Play(p1, DeliverDial(High, DirectJoin, 1)) == p2 by { IdleLowTakes(p1); }
    LowDialsAgain(p2);
  }

  lemma HighDials(p: Pair)
    requires p.high == FRESH && p.net == multiset{} && p.dialed == {}
    ensures Play(p, TriggerAt(High, DirectJoin, 0)) ==
      p.(high := Started(Connect(DirectJoin), 0), net := multiset{Dial(High, DirectJoin)}, dialed := {High})
  {
    hide Less;
  }

  lemma IdleLowTakes(p: Pair)
    requires p.low == FRESH && p.net == multiset{Dial(High, DirectJoin)} && p.allowed == [] && p.running == {}
    ensures Play(p, DeliverDial(High, DirectJoin, 1)) ==
      p.(low := Started(Accepted, 1), net := multiset{}, allowed := [High], running := {Low, High})
  {
    hide Less;
  }

  lemma LowDialsAgain(p: Pair)
    requires Less(p.lowId, p.highId) && p.low == Started(Accepted, 1) && Dialing(p.high)
    requires p.net == multiset{} && p.allowed == [High] && p.running == {Low, High} && p.overlaps == 0
    ensures var q := Play(Play(p, FinishAt(Low)), TriggerAt(Low, NewNeighbor, 2));
      var t := Play(q, DeliverDial(Low, NewNeighbor, 3));
      && q.allowed == [High] && Dialing(q.high) && q.running == {High}
      && t.allowed == [High, Low] && Accepting(t.high) && Dialing(t.low) && t.overlaps == 1
  {
    hide Less, Play;
    LowFinishes(p);
    var f := p.(low := Slot(Idle, false), running := {High});
    var q := f.(low := Started(Connect(NewNeighbor), 2), net := multiset{Dial(Low, NewNeighbor)}, dialed := f.dialed + {Low});
    assert Play(f, TriggerAt(Low, NewNeighbor, 2)) == q by { IdleLowDials(f); }
    HighTakesOver(q);
  }

  lemma LowFinishes(p: Pair)
    requires p.low == Started(Accepted, 1) && p.running == {Low, High}
    ensures Play(p, FinishAt(Low)) == p.(low := Slot(Idle, false), running := {High})
  {
    hide Less;
    assert {Low, High} - {Low} == {High};
  }

  lemma IdleLowDials(p: Pair)
    requires p.low == Slot(Idle, false) && p.net == multiset{}
    ensures Play(p, TriggerAt(Low, NewNeighbor, 2)) ==
      p.(low := Started(Connect(NewNeighbor), 2), net := multiset{Dial(Low, NewNeighbor)}, dialed := p.dialed + {Low})
  {
    hide Less;
  }

  lemma HighTakesOver(p: Pair)
    requires Less(p.lowId, p.highId) && Dialing(p.high) && Dial(Low, NewNeighbor) in p.net && High in p.running
    ensures var t := Play(p, DeliverDial(Low, NewNeighbor, 3));
      t.allowed == p.allowed + [Low] && Accepting(t.high) && t.low == p.low && t.overlaps == p.overlaps + 1
  {
    hide Less;
  }

  /** Second: dials cross, the low side's is allowed, and the low end finishes while the
      other dial is on its way. That dial is allowed while the high end still runs the
      first exchange as acceptor. */
  lemma OverlapByLateDial(lowId: Bytes, highId: Bytes)
    requires Less(lowId, highId)
    ensures var p1 := Play(Quiet(lowId, highId), TriggerAt(High, DirectJoin, 0));
      var p2 := Play(p1, TriggerAt(Low, DirectJoin, 0));
      var p3 := Play(p2, DeliverDial(Low, DirectJoin, 1));
      var p4 := Play(p3, FinishAt(Low));
      var p5 := Play(p4, DeliverDial(High, DirectJoin, 2));
      && p4.allowed == [Low] && Accepting(p4.high) && p4.running == {High}
      && p5.allowed == [Low, High] && Accepting(p5.high) && Accepting(p5.low) && p5.overlaps == 1
  {
    hide Less, Play;
    var start, crossed := Quiet(lowId, highId), multiset{Dial(High, DirectJoin), Dial(Low, DirectJoin)};
    var dialing := Started(Connect(DirectJoin), 0);
    var p2 := start.(low := dialing, high := dialing, net := crossed, dialed := {Low, High});
    assert Play(Play(start, TriggerAt(High, DirectJoin, 0)), TriggerAt(Low, DirectJoin, 0)) == p2 by {
      CrossingDials(lowId, highId);
    }
    var p3 := p2.(high := Started(Accepted, 1), net := multiset{Dial(High, DirectJoin)}, allowed := [Low], running := {Low, High});
    assert Play(p2, DeliverDial(Low, DirectJoin, 1)) == p3 by { LowDialTaken(p2); }
    HighDialTaken(p3);
  }

  lemma CrossingDials(lowId: Bytes, highId: Bytes)
    ensures var start, dialing := Quiet(lowId, highId), Started(Connect(DirectJoin), 0);
      Play(Play(start, TriggerAt(High, DirectJoin, 0)), TriggerAt(Low, DirectJoin, 0)) ==
        start.(low := dialing, high := dialing, net := multiset{Dial(High, DirectJoin), Dial(Low, DirectJoin)}, dialed := {Low, High})
  {
    hide Play;
    var start, dialing := Quiet(lowId, highId), Started(Connect(DirectJoin), 0);
    HighDials(start);
    var p := start.(high := dialing, net := multiset{Dial(High, DirectJoin)}, dialed := {High});
    LowDialsToo(p);
  }

  lemma LowDialsToo(p: Pair)
    requires p.low == FRESH && p.net == multiset{Dial(High, DirectJoin)} && p.dialed == {High}
    ensures Play(p, TriggerAt(Low, DirectJoin, 0)) ==
      p.(low := Started(Connect(DirectJoin), 0), net := multiset{Dial(High, DirectJoin), Dial(Low, DirectJoin)}, dialed := {Low, High})
  {
    hide Less;
    assert {High} + {Low} == {Low, High};
  }

  lemma LowDialTaken(p: Pair)
    requires Less(p.lowId, p.highId) && Dialing(p.high) && p.running == {} && p.allowed == []
    requires p.net == multiset{Dial(High, DirectJoin), Dial(Low, DirectJoin)}
    ensures Play(p, DeliverDial(Low, DirectJoin, 1)) ==
      p.(high := Started(Accepted, 1), net := multiset{Dial(High, DirectJoin)}, allowed := [Low], running := {Low, High})
  {
    hide Less;
  }

  lemma HighDialTaken(p: Pair)
    requires p.net == multiset{Dial(High, DirectJoin)} && p.allowed == [Low] && p.running == {Low, High} && p.overlaps == 0
    ensures var q := Play(p, FinishAt(Low));
      var t := Play(q, DeliverDial(High, DirectJoin, 2));
      && q.allowed == [Low] && q.high == p.high && q.running == {High}
      && t.allowed == [Low, High] && t.high == p.high && Accepting(t.low) && t.overlaps == 1
  {
    hide Less;
    assert {Low, High} - {Low} == {High};
    assert High in Play(p, FinishAt(Low)).running;
  }

  /** Third: dials cross, and the high side's fails undecided at the low end. */
  lemma OverlapAfterFailedRequest(lowId: Bytes, highId: Bytes)
    requires Less(lowId, highId)
    ensures var p := Play(Play(Quiet(lowId, highId), TriggerAt(High, DirectJoin, 0)), TriggerAt(Low, DirectJoin, 0));
      p.net == multiset{Dial(High, DirectJoin), Dial(Low, DirectJoin)} && CanOverlap(Play(p, RequestFails(High, DirectJoin)))
  {
    hide Less, CanOverlap, Play;
    var start := Quiet(lowId, highId);
    CrossingDials(lowId, highId);
    PlayKeepsSolo(start, TriggerAt(High, DirectJoin, 0));
    PlayKeepsSolo(Play(start, TriggerAt(High, DirectJoin, 0)), TriggerAt(Low, DirectJoin, 0));
    UndecidedExact(Play(Play(start, TriggerAt(High, DirectJoin, 0)), TriggerAt(Low, DirectJoin, 0)), High, DirectJoin);
  }

  // ---- the slots of all namespaces and peers ----

  type NamespaceId = Bytes
  type EndpointId = Bytes

  datatype Answer = AllowRequest | RejectSyncing | RejectNotFound

  class NamespaceStates {
    var nodes: map<NamespaceId, map<EndpointId, Slot>>

    predicate IsSyncing(ns: NamespaceId)
      reads this
    {
      ns in nodes
    }

    /** The slot of a peer; a peer not seen yet has a fresh one. */
    ghost function SlotOf(ns: NamespaceId, node: EndpointId): Slot
      reads this
    {
      if ns in nodes && node in nodes[ns] then nodes[ns][node] else FRESH
    }

    constructor ()
      ensures nodes == map[]
    {
      nodes := map[];
    }

    method Insert(ns: NamespaceId)
      modifies this
      ensures IsSyncing(ns) && forall n, p :: SlotOf(n, p) == old(SlotOf(n, p))
      ensures forall n | n != ns :: IsSyncing(n) == old(IsSyncing(n))
    {
      if ns !in nodes {
        nodes := nodes[ns := map[]];
      }
    }

    method Remove(ns: NamespaceId) returns (removed: bool)
      modifies this
      ensures removed == old(IsSyncing(ns)) && !IsSyncing(ns)
      ensures forall n, p | n != ns :: SlotOf(n, p) == old(SlotOf(n, p))
      ensures forall n | n != ns :: IsSyncing(n) == old(IsSyncing(n))
    {
      removed := ns in nodes;
      nodes := map n | n in nodes && n != ns :: nodes[n];
    }

    method SetSlot(ns: NamespaceId, node: EndpointId, s: Slot)
      requires IsSyncing(ns)
      modifies this
      ensures SlotOf(ns, node) == s && nodes.Keys == old(nodes.Keys)
      ensures forall n, p | n != ns || p != node :: SlotOf(n, p) == old(SlotOf(n, p))
    {
      nodes := nodes[ns := nodes[ns][node := s]];
    }

    method Start(ns: NamespaceId, node: EndpointId, reason: Reason, now: nat) returns (dial: bool)
      modifies this
      ensures nodes.Keys == old(nodes.Keys)
      ensures forall n, p | n != ns || p != node :: SlotOf(n, p) == old(SlotOf(n, p))
      ensures IsSyncing(ns) ==> (SlotOf(ns, node), dial) == StartConnect(old(SlotOf(ns, node)), reason, now)
      ensures !IsSyncing(ns) ==> !dial
    {
      if ns !in nodes {
        return false;
      }
      var slot := if node in nodes[ns] then nodes[ns][node] else FRESH;
      if slot.state.Running? {
        if reason.SyncReport? {
          slot := slot.(resync := true);
        }
        dial := false;
      } else {
        slot := Slot(Running(now, Connect(reason)), false);
        dial := true;
      }
      SetSlot(ns, node, slot);
    }

    method Abort(ns: NamespaceId, node: EndpointId, reason: Reason) returns (cleared: bool)
      modifies this
      ensures nodes.Keys == old(nodes.Keys)
      ensures forall n, p | n != ns || p != node :: SlotOf(n, p) == old(SlotOf(n, p))
      ensures IsSyncing(ns) ==> (SlotOf(ns, node), cleared) == AbortConnect(old(SlotOf(ns, node)), reason)
      ensures !IsSyncing(ns) ==> !cleared
    {
      if ns !in nodes {
        return false;
      }
      var slot := if node in nodes[ns] then nodes[ns][node] else FRESH;
      cleared := slot.state.Running? && slot.state.origin == Connect(reason);
      if cleared {
        slot := slot.(state := Idle);
      }
      SetSlot(ns, node, slot);
    }

    method Accept(me: EndpointId, ns: NamespaceId, node: EndpointId, now: nat) returns (answer: Answer)
      modifies this
      ensures nodes.Keys == old(nodes.Keys)
      ensures forall n, p | n != ns || p != node :: SlotOf(n, p) == old(SlotOf(n, p))
      ensures answer.RejectNotFound? <==> !IsSyncing(ns)
      ensures IsSyncing(ns) ==>
        (SlotOf(ns, node), if answer.AllowRequest? then Allow else AlreadySyncing) == AcceptRequest(old(SlotOf(ns, node)), me, node, now)
    {
      if ns !in nodes {
        return RejectNotFound;
      }
      var slot := if node in nodes[ns] then nodes[ns][node] else FRESH;
      match slot.state {
        case Idle => answer := AllowRequest;
        case Running(_, Accepted) => answer := RejectSyncing;
        case Running(_, Connect(_)) => answer := if ExpectsAccept(me, node) then AllowRequest else RejectSyncing;
      }
      if answer.AllowRequest? {
        slot := Slot(Running(now, Accepted), false);
      }
      SetSlot(ns, node, slot);
    }

    method End(ns: NamespaceId, node: EndpointId) returns (finished: Option<(nat, bool)>)
      modifies this
      ensures nodes.Keys == old(nodes.Keys)
      ensures forall n, p | n != ns || p != node :: SlotOf(n, p) == old(SlotOf(n, p))
      ensures IsSyncing(ns) ==> (SlotOf(ns, node), finished) == Finish(old(SlotOf(ns, node)))
      ensures !IsSyncing(ns) ==> finished.None?
    {
      if ns !in nodes {
        return None;
      }
      var slot := if node in nodes[ns] then nodes[ns][node] else FRESH;
      finished := None;
      if slot.state.Running? {
        finished := Some((slot.state.start, slot.resync));
      }
      SetSlot(ns, node, slot.(state := Idle));
    }
  }
}
