/** What travels in a session, and what does not: which parts are sent in full, how much a
    recursed fingerprint can cause to be sent, and what is left out as redundant. */
module Traffic {
  import opened Bytes
  import opened Entries
  import opened Puts
  import opened Ranges
  import opened Split
  import opened Reconcile
  import opened Answers
  import Session

  /** Each part of the answer to a fingerprint says truthfully what the replier holds in its
      range; in full if and only if that is at most the configured number of entries, or
      the answered range holds at most one, or the peer holds nothing in it. */
  lemma FullIfSmall(p: Protocol, v: View, r: Range, fp: Fp, q: Part)
    requires p.config.splitFactor >= 2 && q in AnswerFingerprint(p, v, r, fp)
    ensures q.ItemPart? || q.FingerprintPart?
    ensures q.ItemPart? <==> |InRange(v, q.range)| <= p.config.maxSetSize || |InRange(v, r)| <= 1 || fp == EMPTY_FP
    ensures q.ItemPart? ==> q.values == InRange(v, q.range) && !q.haveLocal
    ensures q.FingerprintPart? ==> q.fingerprint == Fingerprint(p.hash, InRange(v, q.range))
  {
    hide InRange, Fingerprint, SplitRanges;
    var local := InRange(v, r);
    if |local| > 1 && fp != EMPTY_FP {
      var subs := SplitRanges(local, r, p.config.splitFactor);
      var j :| 0 <= j < |subs| && q == PartFor(p, v, subs[j]);
    }
  }

  /** A fingerprint is left unanswered if and only if it is the replier's own. */
  lemma SilentIffEqual(p: Protocol, v: View, r: Range, fp: Fp)
    requires Sorted(v) && p.config.splitFactor >= 2
    ensures AnswerFingerprint(p, v, r, fp) == [] <==> Fingerprint(p.hash, InRange(v, r)) == fp
  {
    hide InRange, Fingerprint, SplitRanges;
    var local, k := InRange(v, r), p.config.splitFactor;
    if |local| > 1 {
      ListingSplits(v, r);
      var i, j := SplitFeedsTwo(local, r, k);
    }
  }

  lemma {:induction false} BetweenCount(l: View, x: Bytes, k: nat, m: nat)
    requires l != [] && k > 0
    ensures |Between(l, x, k, m)| <= m
  {
    hide Pivot;
    if m > 0 { BetweenCount(l, x, k, m - 1); }
  }

  /** No more pieces than asked for. */
  lemma PieceCount(l: View, r: Range, k: nat)
    requires l != [] && k >= 2
    ensures |SplitRanges(l, r, k)| <= k
  {
    hide Between, Pivot;
    BetweenCount(l, r.x, k, k);
    BetweenCount(l, r.x, k, k - 2);
  }

  lemma {:induction false} PartsForVolume(p: Protocol, v: View, subs: seq<Range>)
    ensures |Values(PartsFor(p, v, subs))| <= |subs| * p.config.maxSetSize
  {
    hide InRange, Fingerprint, PartFor, Values;
    if subs == [] {
      NoValues();
    } else {
      var init, last := subs[..|subs| - 1], subs[|subs| - 1];
      PartsForVolume(p, v, init);
      PartVolume(p, v, last);
      ValuesSnoc(PartsFor(p, v, init), PartFor(p, v, last));
      OneMore(|init|, p.config.maxSetSize);
    }
  }

  lemma PartVolume(p: Protocol, v: View, sub: Range)
    ensures var q := PartFor(p, v, sub); q.ItemPart? ==> |q.values| <= p.config.maxSetSize
  {
    hide InRange, Fingerprint;
  }

  lemma ValuesSnoc(m: Message, q: Part)
    ensures Values(m + [q]) == Values(m) + if q.ItemPart? then q.values else []
  {
    assert (m + [q])[..|m|] == m;
  }

  lemma NoValues()
    ensures Values([]) == []
  {
  }

  lemma OneMore(n: nat, size: nat)
    ensures (n + 1) * size == n * size + size
  {
  }

  /** A fingerprint that is recursed into makes the replier send at most as many entries as
      there are pieces, times the configured size, however many it holds. */
  lemma RecursionSendsLittle(p: Protocol, v: View, r: Range, fp: Fp)
    requires p.config.splitFactor >= 2 && |InRange(v, r)| > 1 && fp != EMPTY_FP
    ensures |Values(AnswerFingerprint(p, v, r, fp))| <= p.config.splitFactor * p.config.maxSetSize
  {
    hide InRange, Fingerprint, SplitRanges, PartsFor;
    var local, k, size := InRange(v, r), p.config.splitFactor, p.config.maxSetSize;
    var subs := SplitRanges(local, r, k);
    PieceCount(local, r, k);
    PartsForVolume(p, v, subs);
    MulMonotone(|subs|, k, size);
    assert Values([]) == [];
  }

  // ---- over runs ----

  /** Every fingerprint of `m` covers more of `v` than is sent in full. */
  ghost predicate Large(p: Protocol, v: View, m: Message) {
    forall q | q in m && q.FingerprintPart? :: |InRange(v, q.range)| > p.config.maxSetSize
  }

  lemma AnswerLarge(p: Protocol, n: Session.Node, m: Message)
    requires p.config.splitFactor >= 2
    ensures Large(p, n.view, Session.AnswerOf(p, n, m))
  {
    hide AnswerFingerprint, AnswerItems, AnswerFingerprints, InRange, Unmatched;
    var reply := Session.AnswerOf(p, n, m);
    forall q | q in reply && q.FingerprintPart?
      ensures |InRange(n.view, q.range)| > p.config.maxSetSize
    {
      AnswersAnswer(p, n.view, n.verdict, n.live, m, q);
      assert q in AnswerItems(n.view, n.verdict, n.live, m) || q in AnswerFingerprints(p, n.view, m);
      var i :| 0 <= i < |m| && q in AnswerPart(p, n.view, m[i]) && m[i].FingerprintPart?;
      FullIfSmall(p, n.view, m[i].range, m[i].fingerprint, q);
    }
  }

  /** In every run, after the opening message, a side asks by fingerprint only where it
      holds more entries than it would send in full. */
  lemma {:induction false} FingerprintsAreLarge(p: Protocol, alice: Session.Node, bob: Session.Node, steps: seq<Session.Step>)
    requires p.config.splitFactor >= 2
    ensures var s := Session.Run(p, Session.Start(p, alice, bob), steps);
      && s.alice.view == alice.view && s.bob.view == bob.view
      && (s.round == 0 ==> s.toBob && s.message == Initial(p, alice.view))
      && (s.round > 0 ==> Large(p, if s.toBob then alice.view else bob.view, s.message))
  {
    hide Session.AnswerOf, Large, Values, Ingested, Initial;
    if steps != [] {
      var init := steps[..|steps| - 1];
      FingerprintsAreLarge(p, alice, bob, init);
      var s := Session.Run(p, Session.Start(p, alice, bob), init);
      AnswerLarge(p, s.alice, s.message);
      AnswerLarge(p, s.bob, s.message);
    }
  }

  /** Two sides with the same view find out at once: one delivery, nothing sent. */
  lemma {:induction false} EqualViewsSendNothing(p: Protocol, alice: Session.Node, bob: Session.Node, steps: seq<Session.Step>)
    requires p.config.splitFactor >= 2 && alice.view == bob.view && alice.sent == [] && bob.sent == []
    ensures var s := Session.Run(p, Session.Start(p, alice, bob), steps);
      && s.alice.sent == [] && s.bob.sent == [] && s.bob.view == bob.view
      && (s.round == 0 ==> s.toBob && s.message == Initial(p, alice.view))
      && (s.round > 0 ==> s.message == []) && s.round <= 1
  {
    hide Ingested, Initial, Session.AnswerOf;
    if steps != [] {
      var init := steps[..|steps| - 1];
      EqualViewsSendNothing(p, alice, bob, init);
      var s := Session.Run(p, Session.Start(p, alice, bob), init);
      OwnOpeningAnswered(p, s.bob);
    }
  }

  lemma OwnOpeningAnswered(p: Protocol, n: Session.Node)
    requires p.config.splitFactor >= 2
    ensures Session.AnswerOf(p, n, Initial(p, n.view)) == [] && Values(Initial(p, n.view)) == []
  {
    hide InRange, Fingerprint;
    var m := Initial(p, n.view);
    assert m[..0] == [];
    assert AnswerItems(n.view, n.verdict, n.live, []) == [] && AnswerFingerprints(p, n.view, []) == [];
  }

  // ---- what is left out ----

  /** The reply to an item part holds exactly the replier's entries in its range to which the
      peer named nothing newer or equal at the same key; no reply at all if there are none,
      or if the peer had the replier's entries already. */
  lemma ReplyIsDifference(v: View, r: Range, values: seq<Entry>, haveLocal: bool)
    ensures var reply := AnswerItem(v, r, values, haveLocal);
      && |reply| <= 1
      && (forall q | q in reply :: q.ItemPart? && q.range == r && q.haveLocal && q.values != [])
      && (forall e :: (exists q | q in reply :: q.ItemPart? && e in q.values) <==>
            !haveLocal && e in v && Contains(r, e.key) &&
            forall f | f in values && f.key == e.key ::
              f.value.timestamp < e.value.timestamp || (f.value.timestamp == e.value.timestamp && f.value.hash < e.value.hash))
  {
    hide Contains, InRange, Unmatched;
    var diff := Unmatched(InRange(v, r), values);
    forall e
      ensures e in diff <==> e in v && Contains(r, e.key) && !Matched(e, values)
    {
      InRangeMembers(v, r, e);
      Session.UnmatchedMembers(InRange(v, r), values, e);
    }
    var reply := AnswerItem(v, r, values, haveLocal);
    forall e
      ensures (exists q | q in reply :: q.ItemPart? && e in q.values) <==> !haveLocal && e in diff
    {
      if !haveLocal && e in diff {
        assert ItemPart(r, diff, true) in reply;
      }
    }
  }

  /** In every run no entry is sent back that the peer's view makes redundant: whatever the
      receiver has at its key is strictly older, or equally old with a smaller hash. */
  lemma NothingRedundant(p: Protocol, alice: Session.Node, bob: Session.Node, steps: seq<Session.Step>, q: Part, e: Entry, f: Entry)
    requires p.config.splitFactor == 2 && Session.Enters(alice) && Session.Enters(bob)
    ensures var s := Session.Run(p, Session.Start(p, alice, bob), steps);
      var receiver := if s.toBob then bob.view else alice.view;
      q in s.message && q.ItemPart? && q.haveLocal && e in q.values && f in receiver && f.key == e.key ==>
        f.value.timestamp < e.value.timestamp || (f.value.timestamp == e.value.timestamp && f.value.hash < e.value.hash)
  {
    hide Session.Run, Session.Enters, Session.NodeInv, Session.Ledger, DisjointParts, Session.Bounded, Contains, InRange, Unmatched;
    Session.RunInv(p, alice, bob, steps);
    var s := Session.Run(p, Session.Start(p, alice, bob), steps);
    if q in s.message && q.ItemPart? && q.haveLocal && e in q.values {
      var (a, b) := if s.toBob then (alice.view, bob.view) else (bob.view, alice.view);
      assert Session.PartInv(p, a, b, q);
      Session.UnmatchedMembers(InRange(a, q.range), InRange(b, q.range), e);
      InRangeMembers(a, q.range, e);
      InRangeMembers(b, q.range, f);
    }
  }

  // ---- refusals ----

  /** The live store as it stands holds nothing at the key or above it that is as late. */
  ghost predicate IsNews(live: Contents, e: Entry) {
    forall k | k in live && k <= e.key :: Older(live[k], e.value)
  }

  /** An entry is refused if and only if it was received, is rejected, and was news to the
      live store when its turn came. */
  lemma {:induction false} RefusedExactly(verdict: Entry -> Verdict, live: Contents, values: seq<Entry>, e: Entry)
    ensures RejectedPart(e) in Refusals(verdict, live, values) <==>
      verdict(e).Reject? && exists i :: 0 <= i < |values| && values[i] == e && IsNews(Ingested(verdict, live, values[..i]), e)
  {
    hide Ingested, IsNews, WouldInsert;
    if values != [] {
      var init, last := values[..|values| - 1], values[|values| - 1];
      RefusedExactly(verdict, live, init, e);
      assert forall i | 0 <= i < |init| :: init[i] == values[i] && init[..i] == values[..i];
      assert values[..|init|] == init && values[|init|] == last;
      NewsIsWouldInsert(Ingested(verdict, live, init), last);
      if exists i :: 0 <= i < |init| && init[i] == e && IsNews(Ingested(verdict, live, init[..i]), e) {
        var i :| 0 <= i < |init| && init[i] == e && IsNews(Ingested(verdict, live, init[..i]), e);
        assert values[i] == e && IsNews(Ingested(verdict, live, values[..i]), e);
      }
      if last == e && IsNews(Ingested(verdict, live, init), e) {
        assert values[|init|] == e && IsNews(Ingested(verdict, live, values[..|init|]), e);
      }
      if i :| 0 <= i < |values| && values[i] == e && IsNews(Ingested(verdict, live, values[..i]), e) {
        assert i < |init| ==> init[i] == e && IsNews(Ingested(verdict, live, init[..i]), e);
      }
    }
  }

  lemma NewsIsWouldInsert(live: Contents, e: Entry)
    ensures IsNews(live, e) <==> WouldInsert(live, e)
  {
  }
}
