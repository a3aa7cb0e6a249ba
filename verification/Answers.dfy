/** What the answer to a message has to do with the message: which part each reply
    part answers, which keys it is about, and what it says about the answering view. */
module Answers {
  import opened Bytes
  import opened Entries
  import opened Puts
  import opened Ranges
  import opened Split
  import opened Reconcile

  predicate About(q: Part, t: Bytes) {
    !q.RejectedPart? && Contains(q.range, t)
  }

  ghost predicate SomeAbout(m: Message, t: Bytes) {
    exists q | q in m :: About(q, t)
  }

  /** No two parts are about the same key. */
  ghost predicate DisjointParts(m: Message) {
    forall i, j, t | 0 <= i < j < |m| && About(m[i], t) :: !About(m[j], t)
  }

  /** The range data answering one part. */
  function AnswerPart(p: Protocol, v: View, q: Part): Message
    requires p.config.splitFactor >= 2
  {
    match q
    case FingerprintPart(range, fp) => AnswerFingerprint(p, v, range, fp)
    case ItemPart(range, values, haveLocal) => AnswerItem(v, range, values, haveLocal)
    case RejectedPart(_) => []
  }

  lemma {:induction false} RefusalsAreRefusals(verdict: Entry -> Verdict, live: Contents, values: seq<Entry>)
    ensures forall q | q in Refusals(verdict, live, values) :: q.RejectedPart?
  {
    hide WouldInsert, Ingested;
    if values != [] {
      RefusalsAreRefusals(verdict, live, values[..|values| - 1]);
    }
  }

  /** Every reply part that is not a refusal answers some part of the message. */
  lemma {:induction false} AnswersAnswer(p: Protocol, v: View, verdict: Entry -> Verdict, live: Contents, m: Message, q: Part)
    requires p.config.splitFactor >= 2
    ensures !q.RejectedPart? ==>
      (q in AnswerItems(v, verdict, live, m) <==> exists i :: 0 <= i < |m| && m[i].ItemPart? && q in AnswerPart(p, v, m[i]))
    ensures q in AnswerFingerprints(p, v, m) <==> exists i :: 0 <= i < |m| && m[i].FingerprintPart? && q in AnswerPart(p, v, m[i])
  {
    hide AnswerFingerprint, AnswerItem, Refusals, Ingested;
    if m != [] {
      var init, last := m[..|m| - 1], m[|m| - 1];
      AnswersAnswer(p, v, verdict, live, init, q);
      assert forall i | 0 <= i < |init| :: init[i] == m[i];
      if last.ItemPart? {
        RefusalsAreRefusals(verdict, Ingested(verdict, live, Values(init)), last.values);
      }
    }
  }

  // ---- one part ----

  /** `q` states the content of `v` in its range, by fingerprint or in full. */
  ghost predicate States(p: Protocol, v: View, q: Part) {
    || (q.FingerprintPart? && q.fingerprint == Fingerprint(p.hash, InRange(v, q.range)))
    || (q.ItemPart? && !q.haveLocal && q.values == InRange(v, q.range))
  }

  ghost predicate IsKey(v: View, t: Bytes) {
    exists e | e in v :: e.key == t
  }

  lemma PartsForRanges(p: Protocol, v: View, subs: seq<Range>)
    ensures forall t :: SomeAbout(PartsFor(p, v, subs), t) <==> Covered(subs, t)
    ensures Disjoint(subs) ==> DisjointParts(PartsFor(p, v, subs))
    ensures forall q | q in PartsFor(p, v, subs) :: States(p, v, q)
  {
    hide Contains, InRange, Fingerprint, PartsFor;
    var a := PartsFor(p, v, subs);
    assert forall j | 0 <= j < |a| :: a[j] == PartFor(p, v, subs[j]) && a[j].range == subs[j];
    forall t
      ensures SomeAbout(a, t) <==> Covered(subs, t)
    {
      if Covered(subs, t) {
        var j :| 0 <= j < |subs| && Contains(subs[j], t);
        assert a[j] in a && About(a[j], t);
      }
      if SomeAbout(a, t) {
        var q :| q in a && About(q, t);
        var j :| 0 <= j < |a| && a[j] == q;
        assert Contains(subs[j], t);
      }
    }
  }

  /** The answer to a fingerprint restates the range in disjoint pieces, unless the
      fingerprints agree. */
  lemma FingerprintAnswer(p: Protocol, v: View, r: Range, fp: Fp)
    requires Sorted(v) && p.config.splitFactor == 2
    ensures var a := AnswerFingerprint(p, v, r, fp);
      && DisjointParts(a)
      && (forall t :: SomeAbout(a, t) ==> Contains(r, t))
      && (Fingerprint(p.hash, InRange(v, r)) != fp ==> forall t :: Contains(r, t) ==> SomeAbout(a, t))
      && (forall q | q in a :: States(p, v, q))
  {
    hide Contains, InRange, Fingerprint, SplitRanges, PartsFor, Rotated;
    var a, local := AnswerFingerprint(p, v, r, fp), InRange(v, r);
    if Fingerprint(p.hash, local) != fp {
      if |local| <= 1 || fp == EMPTY_FP {
        assert a[0] in a;
      } else {
        ListingSplits(v, r);
        SplitIsPartition(local, r, 2);
        PartsForRanges(p, v, SplitRanges(local, r, 2));
      }
    }
  }

  lemma ListingSplits(v: View, r: Range)
    requires Sorted(v) && |InRange(v, r)| >= 2
    ensures Splits(InRange(v, r), r, 2)
  {
    InRangeSorted(v, r);
    forall e | e in InRange(v, r)
      ensures Contains(r, e.key)
    {
      InRangeMembers(v, r, e);
    }
  }

  /** Boundaries of reply ranges are boundaries of the answered range or keys of the
      answering view, and only the whole set is ever an identity range. */
  lemma FingerprintBoundaries(p: Protocol, v: View, r: Range, fp: Fp, q: Part)
    requires Sorted(v) && p.config.splitFactor == 2
    requires q in AnswerFingerprint(p, v, r, fp)
    ensures !q.RejectedPart?
    ensures q.range == r || !IsAll(q.range)
    ensures q.range == r || q.range.x == r.x || IsKey(v, q.range.x)
    ensures q.range == r || q.range.y == r.y || IsKey(v, q.range.y)
    ensures q.range != r && IsAll(r) ==> IsKey(v, q.range.x) && IsKey(v, q.range.y)
  {
    hide Contains, InRange, Fingerprint, Rotated;
    var local := InRange(v, r);
    if !(|local| <= 1 || fp == EMPTY_FP) {
      var subs := SplitRanges(local, r, 2);
      ListingSplits(v, r);
      SplitIsPartition(local, r, 2);
      var j :| 0 <= j < |subs| && q == PartFor(p, v, subs[j]);
      assert q.range in subs;
      HalvesShape(local, r, q.range);
      RotatedMembers(local, r.x);
      forall i | 0 <= i < |local|
        ensures IsKey(v, Rotated(local, r.x)[i].key)
      {
        InRangeMembers(v, r, Rotated(local, r.x)[i]);
      }
    }
  }

  /** A fingerprint in a reply covers at most half, rounded up, of what the replier
      holds in the range it answers, which then is at least two entries. */
  lemma FingerprintHalves(p: Protocol, v: View, r: Range, fp: Fp, q: Part)
    requires Sorted(v) && p.config.splitFactor == 2
    requires q in AnswerFingerprint(p, v, r, fp) && q.FingerprintPart?
    ensures |InRange(v, r)| >= 2
    ensures |InRange(v, q.range)| <= (|InRange(v, r)| + 1) / 2
    ensures forall t :: Contains(q.range, t) ==> Contains(r, t)
  {
    hide Contains, InRange, Fingerprint, SplitRanges;
    var local := InRange(v, r);
    var subs := SplitRanges(local, r, 2);
    ListingSplits(v, r);
    SplitIsPartition(local, r, 2);
    var j :| 0 <= j < |subs| && q == PartFor(p, v, subs[j]);
    assert q.range in subs;
    SplitHalves(local, r, q.range);
    forall t | Contains(q.range, t)
      ensures Contains(r, t)
    {
      assert Covered(subs, t);
    }
    InRangeNested(v, r, q.range);
  }

  // ---- the whole message ----

  lemma ConcatAbout(a: Message, b: Message)
    ensures forall t :: SomeAbout(a + b, t) <==> SomeAbout(a, t) || SomeAbout(b, t)
    ensures DisjointParts(a) && DisjointParts(b) && (forall t :: !(SomeAbout(a, t) && SomeAbout(b, t))) ==> DisjointParts(a + b)
  {
    hide About;
    forall t
      ensures SomeAbout(a + b, t) <==> SomeAbout(a, t) || SomeAbout(b, t)
    {
    }
    if DisjointParts(a) && DisjointParts(b) && forall t :: !(SomeAbout(a, t) && SomeAbout(b, t)) {
      forall i, j, t | 0 <= i < j < |a + b| && About((a + b)[i], t)
        ensures !About((a + b)[j], t)
      {
        if i < |a| <= j {
          assert a[i] in a && b[j - |a|] in b;
          assert SomeAbout(a, t);
          assert !SomeAbout(b, t);
        } else if |a| <= i {
          assert About(b[i - |a|], t) && (a + b)[j] == b[j - |a|];
        } else {
          assert About(a[i], t) && (a + b)[j] == a[j];
        }
      }
    }
  }

  lemma PartAnswer(p: Protocol, v: View, q: Part)
    requires Sorted(v) && p.config.splitFactor == 2
    ensures DisjointParts(AnswerPart(p, v, q))
    ensures forall t :: SomeAbout(AnswerPart(p, v, q), t) ==> About(q, t)
  {
    hide Contains, AnswerFingerprint, Unmatched, InRange;
    if q.FingerprintPart? {
      FingerprintAnswer(p, v, q.range, q.fingerprint);
    }
  }

  /** Item answers are about keys of item parts, fingerprint answers about keys of
      fingerprint parts. */
  lemma AnswersStayInside(p: Protocol, v: View, verdict: Entry -> Verdict, live: Contents, m: Message, t: Bytes)
    requires Sorted(v) && p.config.splitFactor == 2
    ensures SomeAbout(AnswerItems(v, verdict, live, m), t) ==> exists i :: 0 <= i < |m| && m[i].ItemPart? && About(m[i], t)
    ensures SomeAbout(AnswerFingerprints(p, v, m), t) ==> exists i :: 0 <= i < |m| && m[i].FingerprintPart? && About(m[i], t)
  {
    hide About, AnswerItems, AnswerFingerprints, AnswerPart;
    if SomeAbout(AnswerItems(v, verdict, live, m), t) {
      var q :| q in AnswerItems(v, verdict, live, m) && About(q, t);
      AboutNotRefusal(q, t);
      AnswersAnswer(p, v, verdict, live, m, q);
      var i :| 0 <= i < |m| && m[i].ItemPart? && q in AnswerPart(p, v, m[i]);
      PartAnswer(p, v, m[i]);
      assert SomeAbout(AnswerPart(p, v, m[i]), t);
    }
    if SomeAbout(AnswerFingerprints(p, v, m), t) {
      var q :| q in AnswerFingerprints(p, v, m) && About(q, t);
      AnswersAnswer(p, v, verdict, live, m, q);
      var i :| 0 <= i < |m| && m[i].FingerprintPart? && q in AnswerPart(p, v, m[i]);
      PartAnswer(p, v, m[i]);
      assert SomeAbout(AnswerPart(p, v, m[i]), t);
    }
  }

  lemma AboutNotRefusal(q: Part, t: Bytes)
    requires About(q, t)
    ensures !q.RejectedPart?
  {
  }

  lemma RefusalsAboutNothing(verdict: Entry -> Verdict, live: Contents, values: seq<Entry>)
    ensures DisjointParts(Refusals(verdict, live, values))
    ensures forall t :: !SomeAbout(Refusals(verdict, live, values), t)
  {
    hide Refusals;
    RefusalsAreRefusals(verdict, live, values);
  }

  lemma {:induction false} ItemAnswersDisjoint(p: Protocol, v: View, verdict: Entry -> Verdict, live: Contents, m: Message)
    requires Sorted(v) && p.config.splitFactor == 2 && DisjointParts(m)
    ensures DisjointParts(AnswerItems(v, verdict, live, m))
  {
    hide About, Refusals, AnswerItem, Ingested;
    if m != [] {
      var init, last := m[..|m| - 1], m[|m| - 1];
      PrefixDisjoint(m);
      ItemAnswersDisjoint(p, v, verdict, live, init);
      if last.ItemPart? {
        var before := Ingested(verdict, live, Values(init));
        RefusalsAboutNothing(verdict, before, last.values);
        PartAnswer(p, v, last);
        var refusals, rest := Refusals(verdict, before, last.values), AnswerPart(p, v, last);
        ConcatAbout(refusals, rest);
        forall t
          ensures !(SomeAbout(AnswerItems(v, verdict, live, init), t) && SomeAbout(refusals + rest, t))
        {
          AnswersStayInside(p, v, verdict, live, init, t);
          assert forall i | 0 <= i < |init| && About(init[i], t) :: About(m[i], t) && !About(last, t);
        }
        ConcatAbout(AnswerItems(v, verdict, live, init), refusals + rest);
      } else {
        assert AnswerItems(v, verdict, live, m) == AnswerItems(v, verdict, live, init);
      }
    }
  }

  lemma PrefixDisjoint(m: Message)
    requires DisjointParts(m) && m != []
    ensures DisjointParts(m[..|m| - 1])
  {
    hide About;
    var init := m[..|m| - 1];
    assert forall i | 0 <= i < |init| :: init[i] == m[i];
  }

  lemma {:induction false} FingerprintAnswersDisjoint(p: Protocol, v: View, m: Message)
    requires Sorted(v) && p.config.splitFactor == 2 && DisjointParts(m)
    ensures DisjointParts(AnswerFingerprints(p, v, m))
  {
    hide About, AnswerFingerprint;
    if m != [] {
      var init, last := m[..|m| - 1], m[|m| - 1];
      PrefixDisjoint(m);
      FingerprintAnswersDisjoint(p, v, init);
      if last.FingerprintPart? {
        PartAnswer(p, v, last);
        forall t
          ensures !(SomeAbout(AnswerFingerprints(p, v, init), t) && SomeAbout(AnswerPart(p, v, last), t))
        {
          AnswersStayInside(p, v, _ => Accept, map[], init, t);
          assert forall i | 0 <= i < |init| && About(init[i], t) :: About(m[i], t) && !About(last, t);
        }
        ConcatAbout(AnswerFingerprints(p, v, init), AnswerPart(p, v, last));
      } else {
        assert AnswerFingerprints(p, v, m) == AnswerFingerprints(p, v, init);
      }
    }
  }

  /** Disjoint parts are answered by disjoint parts. */
  lemma AnswerDisjoint(p: Protocol, v: View, verdict: Entry -> Verdict, live: Contents, m: Message)
    requires Sorted(v) && p.config.splitFactor == 2 && DisjointParts(m)
    ensures DisjointParts(Answer(p, v, verdict, live, m))
    ensures forall t :: SomeAbout(Answer(p, v, verdict, live, m), t) ==> SomeAbout(m, t)
  {
    hide About, AnswerItems, AnswerFingerprints;
    ItemAnswersDisjoint(p, v, verdict, live, m);
    FingerprintAnswersDisjoint(p, v, m);
    var items, fps := AnswerItems(v, verdict, live, m), AnswerFingerprints(p, v, m);
    forall t
      ensures !(SomeAbout(items, t) && SomeAbout(fps, t))
      ensures SomeAbout(items, t) || SomeAbout(fps, t) ==> SomeAbout(m, t)
    {
      AnswersStayInside(p, v, verdict, live, m, t);
    }
    ConcatAbout(items, fps);
  }

  // ---- refusals ----

  lemma {:induction false} PutAllHolds(live: Contents, es: seq<Entry>, e: Entry)
    requires !Holds(live, e) && e !in es
    ensures !Holds(PutAll(live, es), e)
  {
    if es != [] {
      PutAllHolds(live, es[..|es| - 1], e);
    }
  }

  lemma {:induction false} AcceptedOnly(verdict: Entry -> Verdict, values: seq<Entry>, e: Entry)
    requires !verdict(e).Accept?
    ensures e !in Accepted(verdict, values)
  {
    if values != [] {
      AcceptedOnly(verdict, values[..|values| - 1], e);
    }
  }

  lemma {:induction false} RefusalsNotHeld(verdict: Entry -> Verdict, live: Contents, values: seq<Entry>, e: Entry)
    requires RejectedPart(e) in Refusals(verdict, live, values)
    ensures verdict(e).Reject? && !Holds(Ingested(verdict, live, values), e)
  {
    hide PutAll, Accepted;
    var init, last := values[..|values| - 1], values[|values| - 1];
    AcceptedConcat(verdict, init, [last]);
    assert init + [last] == values;
    IngestedConcat(verdict, live, init, [last]);
    if RejectedPart(e) in Refusals(verdict, live, init) {
      RefusalsNotHeld(verdict, live, init, e);
    }
    AcceptedOnly(verdict, [last], e);
    PutAllHolds(Ingested(verdict, live, init), Accepted(verdict, [last]), e);
  }

  /** A refusal never names an entry the refusing store holds when it replies. */
  lemma {:induction false} RefusalsNameNothingHeld(
      p: Protocol, v: View, verdict: Entry -> Verdict, live: Contents, m: Message, e: Entry)
    requires p.config.splitFactor >= 2 && RejectedPart(e) in AnswerItems(v, verdict, live, m)
    ensures verdict(e).Reject? && !Holds(Ingested(verdict, live, Values(m)), e)
  {
    hide Refusals, PutAll, Accepted, InRange, Unmatched;
    var init, last := m[..|m| - 1], m[|m| - 1];
    if RejectedPart(e) in AnswerItems(v, verdict, live, init) {
      RefusalsNameNothingHeld(p, v, verdict, live, init, e);
      if last.ItemPart? {
        IngestedConcat(verdict, live, Values(init), last.values);
        AcceptedOnly(verdict, last.values, e);
        PutAllHolds(Ingested(verdict, live, Values(init)), Accepted(verdict, last.values), e);
      } else {
        assert Values(m) == Values(init);
      }
    } else {
      var before := Ingested(verdict, live, Values(init));
      RefusalsNotHeld(verdict, before, last.values, e);
      IngestedConcat(verdict, live, Values(init), last.values);
    }
  }
}