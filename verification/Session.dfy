/** A reconciliation session between two nodes, as steps of a two-node system.

    Each node reads from the view frozen at session start and writes to its live
    store. Deliveries alternate; other writes to a live store may happen at any
    time in between. */
module Session {
  import opened Basics
  import opened Bytes
  import opened Entries
  import opened Puts
  import opened Ranges
  import opened Split
  import opened Reconcile
  import opened Answers

  datatype Node = Node(
    view: View,                  // the frozen view the session reads from
    verdict: Entry -> Verdict,   // the ingest decision
    base: Contents,              // the live store at session start
    live: Contents,              // the live store now
    writes: seq<Entry>,          // puts by anyone but this session
    received: seq<Entry>,        // entries received in this session, in order
    sent: seq<Entry>)            // entries sent in this session, in order

  /** `message` is on its way to Bob if `toBob`, else to Alice. An empty message
      means that the last answer was none: the session is over. */
  datatype State = State(alice: Node, bob: Node, toBob: bool, message: Message, round: nat)

  datatype Step = Deliver | AliceWrites(e: Entry) | BobWrites(e: Entry)

  function Written(n: Node, e: Entry): Node {
    n.(live := Put(n.live, e), writes := n.writes + [e])
  }

  function AnswerOf(p: Protocol, n: Node, m: Message): Message
    requires p.config.splitFactor >= 2
  {
    Answer(p, n.view, n.verdict, n.live, m)
  }

  /** The node after it took in `m` and answered it. */
  function Answered(p: Protocol, n: Node, m: Message): Node
    requires p.config.splitFactor >= 2
  {
    n.(live := Ingested(n.verdict, n.live, Values(m)),
       received := n.received + Values(m),
       sent := n.sent + Values(AnswerOf(p, n, m)))
  }

  function Take(p: Protocol, s: State, step: Step): State
    requires p.config.splitFactor >= 2
  {
    match step
    case Deliver =>
      if s.message == [] then s
      else if s.toBob then
        s.(bob := Answered(p, s.bob, s.message), message := AnswerOf(p, s.bob, s.message), toBob := false, round := s.round + 1)
      else
        s.(alice := Answered(p, s.alice, s.message), message := AnswerOf(p, s.alice, s.message), toBob := true, round := s.round + 1)
    case AliceWrites(e) => s.(alice := Written(s.alice, e))
    case BobWrites(e) => s.(bob := Written(s.bob, e))
  }

  function Start(p: Protocol, alice: Node, bob: Node): State {
    State(alice, bob, true, Initial(p, alice.view), 0)
  }

  function Run(p: Protocol, s: State, steps: seq<Step>): State
    requires p.config.splitFactor >= 2
  {
    if steps == [] then s else Take(p, Run(p, s, steps[..|steps| - 1]), steps[|steps| - 1])
  }

  /** A node entering a session: its view shows (some of) its live store, which holds
      no superseded entry. */
  ghost predicate Enters(n: Node) {
    && Sorted(n.view) && Elements(n.view) <= EntriesOf(n.base) && Antichain(EntriesOf(n.base))
    && n.live == n.base && n.writes == [] && n.received == [] && n.sent == []
  }

  // ---- the invariant of a link: `a` has sent `m` to `b` ----

  ghost predicate NodeInv(n: Node) {
    && Sorted(n.view) && Elements(n.view) <= EntriesOf(n.base) && Antichain(EntriesOf(n.base))
    && EntriesOf(n.live) == Maximal(EntriesOf(n.base) + Elements(n.writes) + Elements(Accepted(n.verdict, n.received)))
  }

  /** What a part in flight says about the two views. */
  ghost predicate PartInv(p: Protocol, a: View, b: View, q: Part) {
    || q.RejectedPart?
    || States(p, a, q)
    || (q.ItemPart? && q.haveLocal && q.values == Unmatched(InRange(a, q.range), InRange(b, q.range)))
  }

  ghost predicate PartsInv(p: Protocol, a: View, b: View, m: Message) {
    forall q | q in m :: PartInv(p, a, b, q)
  }

  /** a's entry at `t`, if any, was received by b or is no news to b. */
  ghost predicate Reached(a: Node, b: Node, t: Bytes) {
    forall e | e in a.view && e.key == t :: e in b.received || Matched(e, b.view)
  }

  /** Every key is still in flight or settled both ways; a key answered with a
      one-sided item part is settled one way already. */
  ghost predicate Progress(a: Node, b: Node, m: Message) {
    && (forall t :: SomeAbout(m, t) || (Reached(a, b, t) && Reached(b, a, t)))
    && (forall q, t | q in m && q.ItemPart? && q.haveLocal && About(q, t) :: Reached(b, a, t))
  }

  /** Nothing about the range `r` was sent. */
  ghost predicate Unsent(es: seq<Entry>, r: Range) {
    forall e | e in es :: !Contains(r, e.key)
  }

  /** Each side's traffic: nothing is sent twice, what one side has sent is what the
      other has received and what is in flight, and what is asked for was not sent. */
  ghost predicate Ledger(a: Node, b: Node, m: Message) {
    && NoRepeats(a.sent) && NoRepeats(b.sent)
    && a.sent == b.received + Values(m) && b.sent == a.received
    && (forall q | q in m && q.FingerprintPart? :: Unsent(a.sent, q.range) && Unsent(b.sent, q.range))
    && (forall q | q in m && q.ItemPart? && !q.haveLocal :: Unsent(b.sent, q.range))
  }

  /** Range boundaries are keys of one of the two views, unless the range is everything. */
  ghost predicate Bounded(a: View, b: View, m: Message) {
    forall q | q in m && !q.RejectedPart? ::
      IsAll(q.range) || ((IsKey(a, q.range.x) || IsKey(b, q.range.x)) && (IsKey(a, q.range.y) || IsKey(b, q.range.y)))
  }

  /** The part of the invariant that holds whatever the fingerprints are. */
  ghost predicate Link(p: Protocol, a: Node, b: Node, m: Message) {
    && NodeInv(a) && NodeInv(b)
    && PartsInv(p, a.view, b.view, m) && DisjointParts(m) && Bounded(a.view, b.view, m)
    && Ledger(a, b, m)
  }

  ghost predicate Inv(p: Protocol, s: State) {
    if s.toBob then Link(p, s.alice, s.bob, s.message) else Link(p, s.bob, s.alice, s.message)
  }

  ghost predicate Progressing(s: State) {
    if s.toBob then Progress(s.alice, s.bob, s.message) else Progress(s.bob, s.alice, s.message)
  }

  /** Fingerprints tell the two views apart, on every range. */
  ghost predicate NoCollision(p: Protocol, a: View, b: View) {
    forall r: Range {:trigger InRange(a, r)} {:trigger InRange(b, r)} ::
      Fingerprint(p.hash, InRange(a, r)) == Fingerprint(p.hash, InRange(b, r)) ==> InRange(a, r) == InRange(b, r)
  }

  // ---- parts of an answer ----

  /** What every non-refusal part of b's answer is, case by case. */
  lemma AnswerPartKinds(p: Protocol, a: View, b: Node, m: Message, q: Part) returns (i: nat)
    requires p.config.splitFactor == 2 && Sorted(b.view) && PartsInv(p, a, b.view, m)
    requires q in AnswerOf(p, b, m) && !q.RejectedPart?
    ensures i < |m| && m[i] in m
    ensures forall t :: About(q, t) ==> About(m[i], t)
    ensures m[i].FingerprintPart? || (m[i].ItemPart? && !m[i].haveLocal)
    ensures m[i].FingerprintPart? ==>
      q in AnswerFingerprint(p, b.view, m[i].range, m[i].fingerprint) && States(p, b.view, q)
    ensures m[i].ItemPart? ==>
      m[i].values == InRange(a, m[i].range) &&
      q == ItemPart(m[i].range, Unmatched(InRange(b.view, m[i].range), m[i].values), true)
  {
    hide Contains, InRange, Unmatched, AnswerFingerprint, AnswerItems, AnswerFingerprints, Fingerprint;
    AnswersAnswer(p, b.view, b.verdict, b.live, m, q);
    i :| 0 <= i < |m| && q in AnswerPart(p, b.view, m[i]);
    PartAnswer(p, b.view, m[i]);
    forall t | About(q, t)
      ensures About(m[i], t)
    {
      assert SomeAbout(AnswerPart(p, b.view, m[i]), t);
    }
    assert PartInv(p, a, b.view, m[i]);
    if m[i].FingerprintPart? {
      FingerprintAnswer(p, b.view, m[i].range, m[i].fingerprint);
    }
  }

  lemma AnswerPartsInv(p: Protocol, a: Node, b: Node, m: Message)
    requires p.config.splitFactor == 2 && Link(p, a, b, m)
    ensures PartsInv(p, b.view, a.view, AnswerOf(p, b, m))
  {
    hide Contains, InRange, Unmatched, AnswerOf, AnswerFingerprint, Fingerprint, Progress, Ledger, Bounded, DisjointParts;
    forall q | q in AnswerOf(p, b, m)
      ensures PartInv(p, b.view, a.view, q)
    {
      if !q.RejectedPart? {
        var i := AnswerPartKinds(p, a.view, b, m, q);
      }
    }
  }

  lemma AnswerBounded(p: Protocol, a: Node, b: Node, m: Message)
    requires p.config.splitFactor == 2 && Link(p, a, b, m)
    ensures Bounded(b.view, a.view, AnswerOf(p, b, m))
  {
    hide Contains, InRange, Unmatched, AnswerOf, AnswerFingerprint, Fingerprint, Progress, Ledger, DisjointParts, IsKey;
    forall q | q in AnswerOf(p, b, m) && !q.RejectedPart?
      ensures IsAll(q.range) || ((IsKey(a.view, q.range.x) || IsKey(b.view, q.range.x)) && (IsKey(a.view, q.range.y) || IsKey(b.view, q.range.y)))
    {
      var i := AnswerPartKinds(p, a.view, b, m, q);
      if m[i].FingerprintPart? {
        FingerprintBoundaries(p, b.view, m[i].range, m[i].fingerprint, q);
      }
    }
  }

  // ---- the live store ----

  lemma MaximalIsAntichain(s: set<Entry>)
    ensures Antichain(Maximal(s))
  {
  }

  lemma {:induction false} AcceptedMembers(verdict: Entry -> Verdict, values: seq<Entry>, e: Entry)
    ensures e in Accepted(verdict, values) <==> e in values && verdict(e).Accept?
  {
    if values != [] {
      AcceptedMembers(verdict, values[..|values| - 1], e);
      assert values == values[..|values| - 1] + [values[|values| - 1]];
    }
  }

  lemma PutMore(live: Contents, have: set<Entry>, es: seq<Entry>)
    requires EntriesOf(live) == Maximal(have)
    ensures EntriesOf(PutAll(live, es)) == Maximal(have + Elements(es))
  {
    hide Put, PutAll, Maximal, Antichain, EntriesOf;
    MaximalIsAntichain(have);
    PutAllIsMaximal(live, es);
    MaximalAbsorbs(have, Elements(es));
  }

  lemma AnsweredNodeInv(p: Protocol, b: Node, m: Message)
    requires p.config.splitFactor >= 2 && NodeInv(b)
    ensures NodeInv(Answered(p, b, m))
  {
    hide Maximal, Antichain, EntriesOf, PutAll, AnswerOf, Accepted;
    var c := Accepted(b.verdict, Values(m));
    var have := EntriesOf(b.base) + Elements(b.writes) + Elements(Accepted(b.verdict, b.received));
    PutMore(b.live, have, c);
    AcceptedConcat(b.verdict, b.received, Values(m));
    assert have + Elements(c) == EntriesOf(b.base) + Elements(b.writes) + Elements(Accepted(b.verdict, b.received) + c);
  }

  lemma WrittenNodeInv(n: Node, e: Entry)
    requires NodeInv(n)
    ensures NodeInv(Written(n, e))
  {
    hide Maximal, Antichain, EntriesOf, Put, Accepted;
    var have := EntriesOf(n.base) + Elements(n.writes) + Elements(Accepted(n.verdict, n.received));
    PutMore(n.live, have, [e]);
    assert PutAll(n.live, [e]) == Put(n.live, e) by { assert [e][..0] == []; }
    assert have + Elements([e]) == EntriesOf(n.base) + Elements(n.writes + [e]) + Elements(Accepted(n.verdict, n.received));
  }

  // ---- progress ----

  lemma {:induction false} ValuesMembers(m: Message, e: Entry)
    ensures e in Values(m) <==> exists i :: 0 <= i < |m| && m[i].ItemPart? && e in m[i].values
  {
    if m != [] {
      var init, last := m[..|m| - 1], m[|m| - 1];
      ValuesMembers(init, e);
      assert forall i | 0 <= i < |init| :: init[i] == m[i];
    }
  }

  lemma {:induction false} UnmatchedMembers(ours: View, theirs: seq<Entry>, e: Entry)
    ensures e in Unmatched(ours, theirs) <==> e in ours && !Matched(e, theirs)
  {
    hide Matched;
    if ours != [] {
      UnmatchedMembers(ours[..|ours| - 1], theirs, e);
      assert ours == ours[..|ours| - 1] + [ours[|ours| - 1]];
    }
  }

  lemma MatchedInRange(e: Entry, v: View, r: Range)
    requires Contains(r, e.key)
    ensures Matched(e, InRange(v, r)) <==> Matched(e, v)
  {
    hide Contains, InRange;
    forall f: Entry | f.key == e.key
      ensures f in InRange(v, r) <==> f in v
    {
      InRangeMembers(v, r, f);
    }
  }

  lemma ReachedMonotone(a: Node, b: Node, b': Node, t: Bytes)
    requires Reached(a, b, t) && b'.view == b.view && forall e | e in b.received :: e in b'.received
    ensures Reached(a, b', t)
  {
  }

  /** Matching fingerprints settle a range both ways. */
  lemma FingerprintsSettle(p: Protocol, a: Node, b: Node, r: Range, t: Bytes)
    requires NoCollision(p, a.view, b.view) && Contains(r, t)
    requires Fingerprint(p.hash, InRange(a.view, r)) == Fingerprint(p.hash, InRange(b.view, r))
    ensures Reached(a, b, t) && Reached(b, a, t)
  {
    hide Contains, InRange, Fingerprint;
    assert InRange(a.view, r) == InRange(b.view, r);
    forall e | (e in a.view || e in b.view) && e.key == t
      ensures Matched(e, a.view) && Matched(e, b.view)
    {
      InRangeMembers(a.view, r, e);
      InRangeMembers(b.view, r, e);
    }
  }

  /** The values of a full item part settle the range towards the receiver. */
  lemma ItemsReach(a: Node, b: Node, m: Message, q: Part, t: Bytes)
    requires q in m && q.ItemPart? && Contains(q.range, t)
    requires q.values == InRange(a.view, q.range) || q.values == Unmatched(InRange(a.view, q.range), InRange(b.view, q.range))
    requires forall e | e in Values(m) :: e in b.received
    ensures Reached(a, b, t)
  {
    hide Contains, InRange, Unmatched, Matched, Values;
    forall e | e in a.view && e.key == t
      ensures e in b.received || Matched(e, b.view)
    {
      InRangeMembers(a.view, q.range, e);
      UnmatchedMembers(InRange(a.view, q.range), InRange(b.view, q.range), e);
      MatchedInRange(e, b.view, q.range);
      ValuesMembers(m, e);
    }
  }

  /** A key in flight is passed on in the answer or settled by it. */
  lemma KeyProgress(p: Protocol, a: Node, b: Node, m: Message, q: Part, t: Bytes)
    requires p.config.splitFactor == 2 && Link(p, a, b, m) && Progress(a, b, m) && NoCollision(p, a.view, b.view)
    requires q in m && About(q, t)
    ensures var b' := Answered(p, b, m);
      SomeAbout(AnswerOf(p, b, m), t) || (Reached(a, b', t) && Reached(b', a, t))
  {
    hide Contains, InRange, Unmatched, Matched, AnswerItems, AnswerFingerprints, AnswerFingerprint, Fingerprint,
         Ledger, Bounded, DisjointParts, NodeInv, Values, NoCollision, Reached;
    var b' := Answered(p, b, m);
    assert PartInv(p, a.view, b.view, q);
    if q.FingerprintPart? {
      if q.fingerprint == Fingerprint(p.hash, InRange(b.view, q.range)) {
        FingerprintsSettle(p, a, b', q.range, t);
      } else {
        SortedView(b);
        FingerprintAnswer(p, b.view, q.range, q.fingerprint);
        var q' :| q' in AnswerPart(p, b.view, q) && About(q', t);
        AnswerIncludes(p, b, m, q, q');
      }
    } else {
      ItemsReach(a, b', m, q, t);
      if q.haveLocal {
        ReachedSame(b, b', a, t);
      } else if !Reached(b', a, t) {
        ItemAnswered(a, b', q.range, t);
        var q' := ItemPart(q.range, Unmatched(InRange(b.view, q.range), q.values), true);
        AnswerIncludes(p, b, m, q, q');
        assert About(q', t);
      }
    }
  }

  lemma SortedView(n: Node)
    requires NodeInv(n)
    ensures Sorted(n.view)
  {
  }

  lemma ReachedSame(b: Node, b': Node, a: Node, t: Bytes)
    requires Reached(b, a, t) && b'.view == b.view
    ensures Reached(b', a, t)
  {
  }

  /** If something at `t` has not reached a, then b's difference is not empty. */
  lemma ItemAnswered(a: Node, b: Node, r: Range, t: Bytes)
    requires Contains(r, t) && !Reached(b, a, t)
    ensures Unmatched(InRange(b.view, r), InRange(a.view, r)) != []
  {
    hide Contains, InRange, Unmatched, Matched;
    var e :| e in b.view && e.key == t && e !in a.received && !Matched(e, a.view);
    InRangeMembers(b.view, r, e);
    MatchedInRange(e, a.view, r);
    UnmatchedMembers(InRange(b.view, r), InRange(a.view, r), e);
  }

  lemma AnswerIncludes(p: Protocol, b: Node, m: Message, q: Part, q': Part)
    requires p.config.splitFactor >= 2 && q in m && q' in AnswerPart(p, b.view, q) && !q'.RejectedPart?
    ensures q' in AnswerOf(p, b, m)
  {
    hide AnswerItems, AnswerFingerprints, AnswerFingerprint, AnswerItem;
    AnswersAnswer(p, b.view, b.verdict, b.live, m, q');
    var i :| 0 <= i < |m| && m[i] == q;
  }

  lemma AnswerProgress(p: Protocol, a: Node, b: Node, m: Message)
    requires p.config.splitFactor == 2 && Link(p, a, b, m) && Progress(a, b, m) && NoCollision(p, a.view, b.view)
    ensures Progress(Answered(p, b, m), a, AnswerOf(p, b, m))
  {
    hide Contains, InRange, Unmatched, Matched, AnswerOf, AnswerFingerprint, Fingerprint, Ledger, Bounded,
         DisjointParts, NodeInv, Values, NoCollision, Reached, About, PartInv;
    var b' := Answered(p, b, m);
    forall t
      ensures SomeAbout(AnswerOf(p, b, m), t) || (Reached(b', a, t) && Reached(a, b', t))
    {
      if SomeAbout(m, t) {
        var q :| q in m && About(q, t);
        KeyProgress(p, a, b, m, q, t);
      } else {
        ReachedMonotone(a, b, b', t);
        ReachedSame(b, b', a, t);
      }
    }
    forall q, t | q in AnswerOf(p, b, m) && q.ItemPart? && q.haveLocal && About(q, t)
      ensures Reached(a, b', t)
    {
      SortedView(b);
      var i := AnswerPartKinds(p, a.view, b, m, q);
      OneSided(p, b.view, q);
      AboutRange(m[i], t);
      ItemsReach(a, b', m, m[i], t);
    }
  }

  lemma AboutRange(q: Part, t: Bytes)
    requires About(q, t)
    ensures !q.RejectedPart? && Contains(q.range, t)
  {
  }

  lemma OneSided(p: Protocol, v: View, q: Part)
    requires q.ItemPart? && q.haveLocal
    ensures !States(p, v, q)
  {
  }

  // ---- the ledger ----

  /** Item parts carry distinct entries of their own range. */
  ghost predicate TidyItems(m: Message) {
    forall q | q in m && q.ItemPart? :: NoRepeats(q.values) && forall e | e in q.values :: Contains(q.range, e.key)
  }

  lemma {:induction false} TidyValues(m: Message)
    requires TidyItems(m) && DisjointParts(m)
    ensures NoRepeats(Values(m))
  {
    hide Contains;
    if m != [] {
      hide NoRepeats;
      var init, last := m[..|m| - 1], m[|m| - 1];
      PrefixDisjoint(m);
      TidyValues(init);
      if last.ItemPart? {
        forall e | e in Values(init)
          ensures e !in last.values
        {
          ValuesMembers(init, e);
          var i :| 0 <= i < |init| && init[i].ItemPart? && e in init[i].values;
          assert m[i] == init[i] && m[i] in m && About(m[i], e.key);
        }
        NoRepeatsConcat(Values(init), last.values);
      } else {
        assert Values(init) + [] == Values(init);
      }
    }
  }

  lemma NoRepeatsConcat(es: seq<Entry>, fs: seq<Entry>)
    requires NoRepeats(es) && NoRepeats(fs) && forall e | e in es :: e !in fs
    ensures NoRepeats(es + fs)
  {
    forall i, j | 0 <= i < j < |es + fs|
      ensures (es + fs)[i] != (es + fs)[j]
    {
      if i < |es| <= j {
        assert es[i] in es && fs[j - |es|] in fs;
      }
    }
  }

  lemma SortedNoRepeats(v: View)
    requires Sorted(v)
    ensures NoRepeats(v)
  {
    hide Less, Rank;
    OrderFacts();
  }

  lemma {:induction false} UnmatchedSorted(ours: View, theirs: seq<Entry>)
    requires Sorted(ours)
    ensures Sorted(Unmatched(ours, theirs))
  {
    hide Less, Matched;
    if ours != [] {
      var init := ours[..|ours| - 1];
      UnmatchedSorted(init, theirs);
      forall i | 0 <= i < |Unmatched(init, theirs)|
        ensures Less(Unmatched(init, theirs)[i].key, ours[|ours| - 1].key)
      {
        UnmatchedMembers(init, theirs, Unmatched(init, theirs)[i]);
        var j :| 0 <= j < |init| && init[j] == Unmatched(init, theirs)[i];
        assert ours[j] == init[j];
      }
    }
  }

  /** Honest parts are tidy. */
  lemma PartsTidy(p: Protocol, a: View, b: View, m: Message)
    requires Sorted(a) && PartsInv(p, a, b, m)
    ensures TidyItems(m)
  {
    hide Contains, InRange, Unmatched, Sorted, Fingerprint, NoRepeats;
    forall q | q in m && q.ItemPart?
      ensures NoRepeats(q.values) && forall e | e in q.values :: Contains(q.range, e.key)
    {
      assert PartInv(p, a, b, q);
      var l := InRange(a, q.range);
      InRangeSorted(a, q.range);
      UnmatchedSorted(l, InRange(b, q.range));
      SortedNoRepeats(q.values);
      forall e | e in q.values
        ensures Contains(q.range, e.key)
      {
        UnmatchedMembers(l, InRange(b, q.range), e);
        InRangeMembers(a, q.range, e);
      }
    }
  }

  /** What the answer sends about a key was asked for, and not sent before. */
  lemma AnswerValuesUnsent(p: Protocol, a: Node, b: Node, m: Message, q: Part, e: Entry)
    requires p.config.splitFactor == 2 && Link(p, a, b, m)
    requires q in AnswerOf(p, b, m) && !q.RejectedPart? && Contains(q.range, e.key)
    ensures e !in b.sent
    ensures States(p, b.view, q) ==> e !in a.sent
  {
    hide Contains, InRange, Unmatched, AnswerOf, AnswerFingerprint, Fingerprint, Progress, Bounded, DisjointParts, NodeInv;
    SortedView(b);
    var i := AnswerPartKinds(p, a.view, b, m, q);
    assert About(q, e.key) && About(m[i], e.key);
  }

  lemma AnswerLedger(p: Protocol, a: Node, b: Node, m: Message)
    requires p.config.splitFactor == 2 && Link(p, a, b, m)
    requires DisjointParts(AnswerOf(p, b, m)) && PartsInv(p, b.view, a.view, AnswerOf(p, b, m))
    ensures Ledger(Answered(p, b, m), a, AnswerOf(p, b, m))
  {
    hide Contains, InRange, Unmatched, AnswerOf, Fingerprint, Progress, Bounded, NodeInv, Values, PartInv, NoRepeats, DisjointParts;
    var reply, b' := AnswerOf(p, b, m), Answered(p, b, m);
    SortedView(b);
    PartsTidy(p, b.view, a.view, reply);
    TidyValues(reply);
    forall e | e in b.sent
      ensures e !in Values(reply)
    {
      ValuesMembers(reply, e);
      if e in Values(reply) {
        var i :| 0 <= i < |reply| && reply[i].ItemPart? && e in reply[i].values;
        assert reply[i] in reply;
        AnswerValuesUnsent(p, a, b, m, reply[i], e);
        assert false;
      }
    }
    NoRepeatsConcat(b.sent, Values(reply));
    forall q | q in reply && (q.FingerprintPart? || (q.ItemPart? && !q.haveLocal))
      ensures Unsent(a.sent, q.range)
      ensures q.FingerprintPart? ==> Unsent(b'.sent, q.range)
    {
      PartStates(p, b.view, a.view, q);
      forall e: Entry | Contains(q.range, e.key)
        ensures e !in a.sent
        ensures q.FingerprintPart? ==> e !in b'.sent
      {
        AnswerValuesUnsent(p, a, b, m, q, e);
        if q.FingerprintPart? && e in Values(reply) {
          ValuesMembers(reply, e);
          OnePartPerKey(reply, q, e);
          assert false;
        }
      }
    }
  }

  lemma PartStates(p: Protocol, a: View, b: View, q: Part)
    requires PartInv(p, a, b, q) && (q.FingerprintPart? || (q.ItemPart? && !q.haveLocal))
    ensures States(p, a, q)
  {
  }

  lemma OnePartPerKey(m: Message, q: Part, e: Entry)
    requires DisjointParts(m) && TidyItems(m) && q in m && q.FingerprintPart? && Contains(q.range, e.key)
    ensures e !in Values(m)
  {
    hide Contains, Values;
    ValuesMembers(m, e);
    var j :| 0 <= j < |m| && m[j] == q;
    assert About(m[j], e.key);
    forall i | 0 <= i < |m| && m[i].ItemPart?
      ensures e !in m[i].values
    {
      assert m[i] in m && !About(m[i], e.key);
    }
  }

  // ---- every step keeps the invariant ----

  /** Answering a message turns a link into the link of the reverse direction. */
  lemma AnswerKeepsLink(p: Protocol, a: Node, b: Node, m: Message)
    requires p.config.splitFactor == 2 && Link(p, a, b, m)
    ensures Link(p, Answered(p, b, m), a, AnswerOf(p, b, m))
  {
    hide PartsInv, DisjointParts, Bounded, Ledger, Answer, Values;
    AnsweredNodeInv(p, b, m);
    AnswerPartsInv(p, a, b, m);
    AnswerDisjoint(p, b.view, b.verdict, b.live, m);
    AnswerBounded(p, a, b, m);
    AnswerLedger(p, a, b, m);
  }

  lemma WriteKeepsLink(p: Protocol, a: Node, b: Node, m: Message, e: Entry)
    requires Link(p, a, b, m)
    ensures Link(p, Written(a, e), b, m) && Link(p, a, Written(b, e), m)
  {
    hide PartsInv, DisjointParts, Bounded, Values, NodeInv, Put;
    WrittenNodeInv(a, e);
    WrittenNodeInv(b, e);
  }

  lemma WriteKeepsProgress(a: Node, b: Node, m: Message, e: Entry)
    requires Progress(a, b, m)
    ensures Progress(Written(a, e), b, m) && Progress(a, Written(b, e), m)
  {
    hide SomeAbout, About, Matched, Put;
    var a', b' := Written(a, e), Written(b, e);
    assert forall t :: (Reached(a', b, t) <==> Reached(a, b, t)) && (Reached(b, a', t) <==> Reached(b, a, t));
    assert forall t :: (Reached(a, b', t) <==> Reached(a, b, t)) && (Reached(b', a, t) <==> Reached(b, a, t));
  }

  lemma StartInv(p: Protocol, alice: Node, bob: Node)
    requires Enters(alice) && Enters(bob)
    ensures Inv(p, Start(p, alice, bob)) && Progressing(Start(p, alice, bob))
  {
    hide InRange, Fingerprint, First, Less;
    var m := Initial(p, alice.view);
    assert m[0] in m;
    AllContains(m[0].range);
    assert forall t :: About(m[0], t);
    assert Values(m) == [] by { assert m[..0] == []; }
    EnterNodeInv(alice);
    EnterNodeInv(bob);
  }

  lemma EnterNodeInv(n: Node)
    requires Enters(n)
    ensures NodeInv(n)
  {
    var all := EntriesOf(n.base) + Elements([]) + Elements(Accepted(n.verdict, []));
    assert all == EntriesOf(n.base);
  }

  /** The fixed points of a session. */
  ghost predicate SameSession(s: State, t: State) {
    && s.alice.view == t.alice.view && s.alice.base == t.alice.base && s.alice.verdict == t.alice.verdict
    && s.bob.view == t.bob.view && s.bob.base == t.bob.base && s.bob.verdict == t.bob.verdict
  }

  /** The session invariant holds after every run, whatever the fingerprints are:
      ranges in flight are pairwise disjoint, boundaries are keys of the two views,
      each part states the truth about its sender's view, and neither side sends an
      entry twice. */
  lemma {:induction false} RunInv(p: Protocol, alice: Node, bob: Node, steps: seq<Step>)
    requires p.config.splitFactor == 2 && Enters(alice) && Enters(bob)
    ensures var s := Run(p, Start(p, alice, bob), steps);
      Inv(p, s) && SameSession(Start(p, alice, bob), s)
  {
    hide Link, Enters, Answer, Put, Values, Ingested, Initial, Progressing;
    if steps == [] {
      StartInv(p, alice, bob);
    } else {
      RunInv(p, alice, bob, steps[..|steps| - 1]);
      var s := Run(p, Start(p, alice, bob), steps[..|steps| - 1]);
      match steps[|steps| - 1]
      case Deliver =>
        if s.message != [] {
          if s.toBob { AnswerKeepsLink(p, s.alice, s.bob, s.message); } else { AnswerKeepsLink(p, s.bob, s.alice, s.message); }
        }
      case AliceWrites(e) =>
        if s.toBob { WriteKeepsLink(p, s.alice, s.bob, s.message, e); } else { WriteKeepsLink(p, s.bob, s.alice, s.message, e); }
      case BobWrites(e) =>
        if s.toBob { WriteKeepsLink(p, s.alice, s.bob, s.message, e); } else { WriteKeepsLink(p, s.bob, s.alice, s.message, e); }
    }
  }

  /** With collision-free fingerprints, every key stays in flight until it is settled. */
  lemma {:induction false} RunProgresses(p: Protocol, alice: Node, bob: Node, steps: seq<Step>)
    requires p.config.splitFactor == 2 && Enters(alice) && Enters(bob) && NoCollision(p, alice.view, bob.view)
    ensures Progressing(Run(p, Start(p, alice, bob), steps))
  {
    hide Link, NoCollision, Enters, Answer, Put, Values, Ingested, Initial, Progress;
    if steps == [] {
      StartInv(p, alice, bob);
    } else {
      RunProgresses(p, alice, bob, steps[..|steps| - 1]);
      RunInv(p, alice, bob, steps[..|steps| - 1]);
      var s := Run(p, Start(p, alice, bob), steps[..|steps| - 1]);
      NoCollisionSymmetric(p, alice.view, bob.view);
      match steps[|steps| - 1]
      case Deliver =>
        if s.message != [] {
          if s.toBob { AnswerProgress(p, s.alice, s.bob, s.message); } else { AnswerProgress(p, s.bob, s.alice, s.message); }
        }
      case AliceWrites(e) =>
        if s.toBob { WriteKeepsProgress(s.alice, s.bob, s.message, e); } else { WriteKeepsProgress(s.bob, s.alice, s.message, e); }
      case BobWrites(e) =>
        if s.toBob { WriteKeepsProgress(s.alice, s.bob, s.message, e); } else { WriteKeepsProgress(s.bob, s.alice, s.message, e); }
    }
  }

  lemma NoCollisionSymmetric(p: Protocol, a: View, b: View)
    requires NoCollision(p, a, b)
    ensures NoCollision(p, b, a)
  {
    hide InRange, Fingerprint;
  }

  // ---- convergence ----

  /** The entries of `v` that `n` admits. */
  ghost function Admits(n: Node, v: View): set<Entry> {
    set e | e in v && n.verdict(e).Accept?
  }

  ghost function WritesIn(steps: seq<Step>, byAlice: bool): seq<Entry> {
    if steps == [] then []
    else
      var rest, last := WritesIn(steps[..|steps| - 1], byAlice), steps[|steps| - 1];
      match last
      case Deliver => rest
      case AliceWrites(e) => if byAlice then rest + [e] else rest
      case BobWrites(e) => if byAlice then rest else rest + [e]
  }

  lemma {:induction false} RunWrites(p: Protocol, alice: Node, bob: Node, steps: seq<Step>)
    requires p.config.splitFactor >= 2 && alice.writes == [] && bob.writes == []
    ensures Run(p, Start(p, alice, bob), steps).alice.writes == WritesIn(steps, true)
    ensures Run(p, Start(p, alice, bob), steps).bob.writes == WritesIn(steps, false)
  {
    hide AnswerOf, Values, Put, Ingested, Initial;
    if steps != [] {
      RunWrites(p, alice, bob, steps[..|steps| - 1]);
    }
  }

  /** A settled link: all of the peer's entries arrived or are superseded by what was there. */
  lemma SettledConverges(p: Protocol, a: Node, b: Node)
    requires NodeInv(b) && (forall t :: Reached(a, b, t)) && forall e | e in b.received :: e in a.view
    ensures EntriesOf(b.live) == Maximal(EntriesOf(b.base) + Elements(b.writes) + Admits(b, a.view))
  {
    hide Maximal, Antichain, Accepted;
    var own := EntriesOf(b.base) + Elements(b.writes);
    var got := Elements(Accepted(b.verdict, b.received));
    forall e
      ensures e in got <==> e in b.received && b.verdict(e).Accept?
    {
      AcceptedMembers(b.verdict, b.received, e);
    }
    assert got <= Admits(b, a.view);
    forall e | e in Admits(b, a.view) - got
      ensures exists f | f in own + got :: Supersedes(f, e)
    {
      assert Reached(a, b, e.key);
      var f :| f in b.view && f.key == e.key && AtMost(e.value, f.value);
      assert f in Elements(b.view) && Supersedes(f, e);
    }
    MaximalIgnoresSuperseded(own + got, Admits(b, a.view) - got);
    assert own + got + (Admits(b, a.view) - got) == own + Admits(b, a.view);
  }

  /** Everything a node sent is in its view. */
  ghost predicate SentOwn(n: Node) {
    forall e | e in n.sent :: e in n.view
  }

  lemma AnswerSendsOwn(p: Protocol, a: Node, b: Node, m: Message)
    requires p.config.splitFactor == 2 && Link(p, a, b, m) && SentOwn(b)
    ensures SentOwn(Answered(p, b, m))
  {
    hide Contains, InRange, Unmatched, AnswerOf, Fingerprint, Progress, Bounded, Ledger, Values, DisjointParts, Sorted, Antichain, Maximal;
    var reply := AnswerOf(p, b, m);
    AnswerPartsInv(p, a, b, m);
    forall e | e in Values(reply)
      ensures e in b.view
    {
      ValuesMembers(reply, e);
      var i :| 0 <= i < |reply| && reply[i].ItemPart? && e in reply[i].values;
      assert reply[i] in reply;
      assert PartInv(p, b.view, a.view, reply[i]);
      InRangeMembers(b.view, reply[i].range, e);
      UnmatchedMembers(InRange(b.view, reply[i].range), InRange(a.view, reply[i].range), e);
    }
  }

  lemma {:induction false} RunSendsOwn(p: Protocol, alice: Node, bob: Node, steps: seq<Step>)
    requires p.config.splitFactor == 2 && Enters(alice) && Enters(bob)
    ensures var s := Run(p, Start(p, alice, bob), steps); SentOwn(s.alice) && SentOwn(s.bob)
  {
    hide Link, Answer, Put, Values, Ingested, Initial, Sorted, Antichain;
    if steps != [] {
      RunSendsOwn(p, alice, bob, steps[..|steps| - 1]);
      RunInv(p, alice, bob, steps[..|steps| - 1]);
      var s := Run(p, Start(p, alice, bob), steps[..|steps| - 1]);
      if steps[|steps| - 1].Deliver? && s.message != [] {
        if s.toBob { AnswerSendsOwn(p, s.alice, s.bob, s.message); } else { AnswerSendsOwn(p, s.bob, s.alice, s.message); }
      }
    }
  }

  lemma SettledLink(p: Protocol, a: Node, b: Node)
    requires Link(p, a, b, []) && Progress(a, b, []) && SentOwn(a) && SentOwn(b)
    ensures EntriesOf(a.live) == Maximal(EntriesOf(a.base) + Elements(a.writes) + Admits(a, b.view))
    ensures EntriesOf(b.live) == Maximal(EntriesOf(b.base) + Elements(b.writes) + Admits(b, a.view))
    ensures a.sent == b.received && b.sent == a.received
  {
    hide Maximal, EntriesOf, Admits, Sorted, Antichain;
    assert Values([]) == [];
    forall t
      ensures Reached(a, b, t) && Reached(b, a, t)
    {
      assert !SomeAbout([], t);
    }
    SettledConverges(p, a, b);
    SettledConverges(p, b, a);
  }

  /** Convergence. Whatever was written meanwhile, once the session is over each live
      store holds exactly the maximal entries among what it held at the start, what
      was written to it, and what it admits of the peer's view; and each side's sent
      entries are the other's received entries, none of them twice. */
  lemma Convergence(p: Protocol, alice: Node, bob: Node, steps: seq<Step>)
    requires p.config.splitFactor == 2 && Enters(alice) && Enters(bob) && NoCollision(p, alice.view, bob.view)
    ensures var s := Run(p, Start(p, alice, bob), steps);
      s.message == [] ==>
        && EntriesOf(s.alice.live) == Maximal(EntriesOf(alice.base) + Elements(WritesIn(steps, true)) + Admits(alice, bob.view))
        && EntriesOf(s.bob.live) == Maximal(EntriesOf(bob.base) + Elements(WritesIn(steps, false)) + Admits(bob, alice.view))
        && s.alice.sent == s.bob.received && s.bob.sent == s.alice.received
        && NoRepeats(s.alice.sent) && NoRepeats(s.bob.sent)
  {
    hide Maximal, EntriesOf, Enters, Run, NoCollision, SentOwn, Start, Take;
    var s := Run(p, Start(p, alice, bob), steps);
    RunInv(p, alice, bob, steps);
    RunProgresses(p, alice, bob, steps);
    RunSendsOwn(p, alice, bob, steps);
    StartFields(p, alice, bob);
    RunWrites(p, alice, bob, steps);
    if s.message == [] {
      if s.toBob { SettledLink(p, s.alice, s.bob); } else { SettledLink(p, s.bob, s.alice); }
    }
  }

  lemma StartFields(p: Protocol, alice: Node, bob: Node)
    ensures Start(p, alice, bob).alice == alice && Start(p, alice, bob).bob == bob
    ensures Enters(alice) ==> alice.writes == []
    ensures Enters(bob) ==> bob.writes == []
  {
  }

  /** Two replicas that show and accept everything, with no other writes, end up equal. */
  lemma ReplicasAgree(p: Protocol, alice: Node, bob: Node, steps: seq<Step>)
    requires p.config.splitFactor == 2 && Enters(alice) && Enters(bob) && NoCollision(p, alice.view, bob.view)
    requires Elements(alice.view) == EntriesOf(alice.base) && Elements(bob.view) == EntriesOf(bob.base)
    requires forall e :: alice.verdict(e) == Accept && bob.verdict(e) == Accept
    requires forall step | step in steps :: step.Deliver?
    ensures var s := Run(p, Start(p, alice, bob), steps);
      s.message == [] ==>
        && s.alice.live == s.bob.live
        && EntriesOf(s.alice.live) == Maximal(EntriesOf(alice.base) + EntriesOf(bob.base))
  {
    hide Maximal, EntriesOf, Enters, Run, NoCollision, Start, Take;
    var s := Run(p, Start(p, alice, bob), steps);
    Convergence(p, alice, bob, steps);
    NoWrites(steps);
    if s.message == [] {
      assert Admits(alice, bob.view) == EntriesOf(bob.base);
      assert Admits(bob, alice.view) == EntriesOf(alice.base);
      var a, b := EntriesOf(alice.base), EntriesOf(bob.base);
      assert Elements([]) == {};
      assert a + Elements([]) + b == a + b && b + Elements([]) + a == a + b;
      EntriesDetermineContents(s.alice.live, s.bob.live);
    }
  }

  lemma {:induction false} NoWrites(steps: seq<Step>)
    requires forall step | step in steps :: step.Deliver?
    ensures WritesIn(steps, true) == [] && WritesIn(steps, false) == []
  {
    if steps != [] {
      assert steps[|steps| - 1] in steps;
      NoWrites(steps[..|steps| - 1]);
    }
  }

  // ---- termination ----

  /** How often `n` can be halved, rounding up, until at most one is left. */
  function Halvings(n: nat): (h: nat) {
    if n <= 1 then 0 else 1 + Halvings((n + 1) / 2)
  }

  function Pow2(n: nat): nat {
    if n == 0 then 1 else 2 * Pow2(n - 1)
  }

  /** `Halvings` is the logarithm to base two, rounded up. */
  lemma {:induction false} HalvingsIsLog(n: nat)
    requires n >= 1
    ensures n <= Pow2(Halvings(n))
    ensures n >= 2 ==> Pow2(Halvings(n) - 1) < n
  {
    if n >= 2 {
      HalvingsIsLog((n + 1) / 2);
    }
  }

  lemma {:induction false} HalvingsMonotone(m: nat, n: nat)
    requires m <= n
    ensures Halvings(m) <= Halvings(n)
  {
    if m >= 2 {
      HalvingsMonotone((m + 1) / 2, (n + 1) / 2);
    }
  }

  function Min(a: nat, b: nat): nat {
    if a <= b then a else b
  }

  /** Deliveries a fingerprint can still cause beyond the items it ends in: the
      answerer's share halves every other round, and so does the sender's. */
  function Generations(a: nat, b: nat): nat {
    Min(2 * Halvings(b), 2 * Halvings(a) + 1)
  }

  /** An upper bound on the deliveries a part in flight from `a` to `b` can still cause. */
  function Weight(a: View, b: View, q: Part): nat {
    match q
    case RejectedPart(_) => 1
    case ItemPart(_, _, haveLocal) => if haveLocal then 2 else 3
    case FingerprintPart(range, _) => 4 + Generations(|InRange(a, range)|, |InRange(b, range)|)
  }

  ghost predicate WeightAtMost(a: View, b: View, m: Message, w: int) {
    forall q | q in m :: Weight(a, b, q) <= w
  }

  lemma GenerationsDrop(a: nat, b: nat, a': nat, b': nat)
    requires b >= 2 && b' <= (b + 1) / 2 && a' <= a
    ensures Generations(b', a') < Generations(a, b)
  {
    HalvingsMonotone(b', (b + 1) / 2);
    HalvingsMonotone(a', a);
  }

  lemma {:induction false} RefusalNeedsItem(v: View, verdict: Entry -> Verdict, live: Contents, m: Message, q: Part)
    requires q in AnswerItems(v, verdict, live, m)
    ensures exists i :: 0 <= i < |m| && m[i].ItemPart?
  {
    hide Refusals, AnswerItem, Ingested;
    var init, last := m[..|m| - 1], m[|m| - 1];
    if !last.ItemPart? {
      RefusalNeedsItem(v, verdict, live, init, q);
      var i :| 0 <= i < |init| && init[i].ItemPart?;
      assert m[i].ItemPart?;
    }
  }

  /** Every part of an answer weighs less than some part of the message. */
  lemma AnswerWeighsLess(p: Protocol, a: Node, b: Node, m: Message, q: Part) returns (i: nat)
    requires p.config.splitFactor == 2 && Link(p, a, b, m) && q in AnswerOf(p, b, m)
    ensures i < |m| && Weight(b.view, a.view, q) < Weight(a.view, b.view, m[i])
  {
    hide Contains, InRange, Unmatched, AnswerItems, AnswerFingerprint, Fingerprint, Progress, Bounded, Ledger,
         DisjointParts, Generations, Sorted, Antichain, Maximal;
    if q.RejectedPart? {
      AnswersAnswer(p, b.view, b.verdict, b.live, m, q);
      if q in AnswerFingerprints(p, b.view, m) {
        i :| 0 <= i < |m| && m[i].FingerprintPart? && q in AnswerPart(p, b.view, m[i]);
      } else {
        RefusalNeedsItem(b.view, b.verdict, b.live, m, q);
        i :| 0 <= i < |m| && m[i].ItemPart?;
      }
    } else {
      i := AnswerPartKinds(p, a.view, b, m, q);
      if q.FingerprintPart? {
        var r := m[i].range;
        FingerprintHalves(p, b.view, r, m[i].fingerprint, q);
        InRangeNested(a.view, r, q.range);
        InRangeShrinks(InRange(a.view, r), q.range);
        GenerationsDrop(|InRange(a.view, r)|, |InRange(b.view, r)|, |InRange(a.view, q.range)|, |InRange(b.view, q.range)|);
      }
    }
  }

  lemma AnswerWeight(p: Protocol, a: Node, b: Node, m: Message, w: int)
    requires p.config.splitFactor == 2 && Link(p, a, b, m) && WeightAtMost(a.view, b.view, m, w)
    ensures WeightAtMost(b.view, a.view, AnswerOf(p, b, m), w - 1)
  {
    hide Weight, Link, AnswerOf;
    forall q | q in AnswerOf(p, b, m)
      ensures Weight(b.view, a.view, q) <= w - 1
    {
      var i := AnswerWeighsLess(p, a, b, m, q);
      assert m[i] in m;
    }
  }

  /** The number of deliveries no session exceeds. */
  function RoundLimit(alice: View, bob: View): nat {
    4 + Generations(|alice|, |bob|)
  }

  ghost predicate InTime(limit: nat, s: State) {
    if s.toBob then WeightAtMost(s.alice.view, s.bob.view, s.message, limit - s.round)
    else WeightAtMost(s.bob.view, s.alice.view, s.message, limit - s.round)
  }

  function Deliveries(steps: seq<Step>): nat {
    if steps == [] then 0 else Deliveries(steps[..|steps| - 1]) + if steps[|steps| - 1].Deliver? then 1 else 0
  }

  /** Termination. Whatever the fingerprints are, every session is over after a number
      of deliveries that is logarithmic in the size of the smaller view. */
  lemma {:induction false} Termination(p: Protocol, alice: Node, bob: Node, steps: seq<Step>)
    requires p.config.splitFactor == 2 && Enters(alice) && Enters(bob)
    ensures var s := Run(p, Start(p, alice, bob), steps); var limit := RoundLimit(alice.view, bob.view);
      && InTime(limit, s)
      && s.round <= limit
      && (s.message != [] ==> s.round == Deliveries(steps) < limit)
      && (Deliveries(steps) >= limit ==> s.message == [])
  {
    hide Link, Enters, Answer, Put, Values, Ingested, Initial, RoundLimit, Weight;
    var limit := RoundLimit(alice.view, bob.view);
    if steps == [] {
      StartInTime(p, alice, bob);
    } else {
      var before := steps[..|steps| - 1];
      Termination(p, alice, bob, before);
      RunInv(p, alice, bob, before);
      var s := Run(p, Start(p, alice, bob), before);
      if steps[|steps| - 1].Deliver? && s.message != [] {
        if s.toBob {
          AnswerWeight(p, s.alice, s.bob, s.message, limit - s.round);
        } else {
          AnswerWeight(p, s.bob, s.alice, s.message, limit - s.round);
        }
      }
    }
    var s := Run(p, Start(p, alice, bob), steps);
    if s.message != [] {
      assert s.message[0] in s.message;
      WeightPositive(s.alice.view, s.bob.view, s.message[0]);
      WeightPositive(s.bob.view, s.alice.view, s.message[0]);
    }
  }

  lemma WeightPositive(a: View, b: View, q: Part)
    ensures Weight(a, b, q) >= 1
  {
  }

  lemma StartInTime(p: Protocol, alice: Node, bob: Node)
    ensures InTime(RoundLimit(alice.view, bob.view), Start(p, alice, bob))
  {
    hide Fingerprint, InRange, Contains, Generations;
    var r := Initial(p, alice.view)[0].range;
    AllContains(r);
    InRangeKeepsAll(alice.view, r);
    InRangeKeepsAll(bob.view, r);
  }
}
