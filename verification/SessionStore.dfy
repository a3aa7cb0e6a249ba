/** The store a session works on: reads come from the frozen snapshot narrowed by the
    session's egress filter, writes go to the live store unfiltered. */
module SessionStores {
  import opened Basics
  import opened Bytes
  import opened Entries
  import opened Puts
  import opened Ranges
  import opened Split
  import opened Reconcile

  type Filter = Option<Entry -> bool>

  /** No filter admits everything. */
  predicate IsAdmitted(filter: Filter, e: Entry) {
    filter.None? || filter.value(e)
  }

  function Admitted(filter: Filter, v: View): View {
    if v == [] then []
    else
      var rest, last := Admitted(filter, v[..|v| - 1]), v[|v| - 1];
      if IsAdmitted(filter, last) then rest + [last] else rest
  }

  /** Filtering and cutting out a range commute. */
  lemma {:induction false} FilterCommutes(filter: Filter, v: View, r: Range)
    ensures Admitted(filter, InRange(v, r)) == InRange(Admitted(filter, v), r)
  {
    hide Contains, IsAdmitted;
    if v != [] {
      var init, last := v[..|v| - 1], v[|v| - 1];
      FilterCommutes(filter, init, r);
      var inside, shown := InRange(init, r), Admitted(filter, init);
      assert (inside + [last])[..|inside + [last]| - 1] == inside;
      assert (shown + [last])[..|shown + [last]| - 1] == shown;
    }
  }

  lemma {:induction false} NoFilterShowsAll(v: View)
    ensures Admitted(None, v) == v
  {
    if v != [] {
      NoFilterShowsAll(v[..|v| - 1]);
      assert v == v[..|v| - 1] + [v[|v| - 1]];
    }
  }

  lemma {:induction false} AdmittedSorted(filter: Filter, v: View)
    requires Sorted(v)
    ensures Sorted(Admitted(filter, v))
    ensures forall e :: e in Admitted(filter, v) <==> e in v && IsAdmitted(filter, e)
  {
    hide Less, IsAdmitted;
    if v != [] {
      var init, last := v[..|v| - 1], v[|v| - 1];
      AdmittedSorted(filter, init);
      assert v == init + [last];
      assert forall e | e in init :: Less(e.key, last.key);
    }
  }

  /** The first key of a view is its least; only an empty view has the default. */
  lemma FirstIsLeast(v: View)
    requires Sorted(v)
    ensures forall e | e in v :: Leq(First(v), e.key)
    ensures v != [] ==> exists e | e in v :: e.key == First(v)
    ensures v == [] ==> First(v) == Repeat(0, 64)
  {
    hide Less;
    if v != [] { assert v[0] in v; }
  }

  class SessionStore {
    const snapshot: View
    const filter: Filter
    const live: LiveStore

    constructor (snapshot: View, filter: Filter, live: LiveStore)
      ensures this.snapshot == snapshot && this.filter == filter && this.live == live
    {
      this.snapshot, this.filter, this.live := snapshot, filter, live;
    }

    /** What the peer may see. */
    ghost function Shown(): View {
      Admitted(filter, snapshot)
    }

    /** The unfiltered listing of a range. */
    method InnerRange(r: Range) returns (out: View)
      ensures out == InRange(snapshot, r)
    {
      out := [];
      for i := 0 to |snapshot|
        invariant out == InRange(snapshot[..i], r)
      {
        assert snapshot[..i + 1][..i] == snapshot[..i];
        if Contains(r, snapshot[i].key) {
          out := out + [snapshot[i]];
        }
      }
      assert snapshot[..|snapshot|] == snapshot;
    }

    method GetRange(r: Range) returns (out: View)
      ensures out == InRange(Shown(), r)
      ensures Sorted(snapshot) ==> Sorted(out)
      ensures Sorted(snapshot) ==>
        forall e :: e in out <==> e in snapshot && Contains(r, e.key) && (filter.Some? ==> filter.value(e))
    {
      out := FilterRange(r);
      if Sorted(snapshot) {
        hide Less, Contains;
        AdmittedSorted(filter, snapshot);
        InRangeSorted(Shown(), r);
        forall e { InRangeMembers(Shown(), r, e); }
      }
    }

    method FilterRange(r: Range) returns (out: View)
      ensures out == InRange(Shown(), r)
    {
      var inner := InnerRange(r);
      out := [];
      for i := 0 to |inner|
        invariant out == Admitted(filter, inner[..i])
      {
        assert inner[..i + 1][..i] == inner[..i];
        if IsAdmitted(filter, inner[i]) {
          out := out + [inner[i]];
        }
      }
      assert inner[..|inner|] == inner;
      FilterCommutes(filter, snapshot, r);
    }

    method GetRangeLen(r: Range) returns (count: nat)
      ensures count == |InRange(Shown(), r)|
    {
      var listing := GetRange(r);
      count := 0;
      for i := 0 to |listing|
        invariant count == i
      {
        count := count + 1;
      }
    }

    method GetFirst() returns (first: Bytes)
      ensures first == First(Shown())
      ensures Sorted(snapshot) ==> forall e | e in snapshot && IsAdmitted(filter, e) :: Leq(first, e.key)
      ensures Sorted(snapshot) && (exists e | e in snapshot :: IsAdmitted(filter, e)) ==>
        exists e | e in snapshot :: IsAdmitted(filter, e) && e.key == first
    {
      first := FirstAdmitted();
      hide Less, IsAdmitted, First;
      if Sorted(snapshot) {
        AdmittedSorted(filter, snapshot);
        FirstIsLeast(Shown());
      }
    }

    method FirstAdmitted() returns (first: Bytes)
      ensures first == First(Shown())
    {
      hide InRange, Contains;
      if filter.None? {
        NoFilterShowsAll(snapshot);
        return if snapshot == [] then DEFAULT_ID else snapshot[0].key;
      }
      var whole := Range(DEFAULT_ID, DEFAULT_ID);
      var all := InnerRange(whole);
      AllContains(whole);
      InRangeKeepsAll(snapshot, whole);
      for i := 0 to |all|
        invariant Admitted(filter, all[..i]) == []
      {
        assert all[..i + 1][..i] == all[..i];
        if filter.value(all[i]) {
          assert Admitted(filter, all[..i + 1]) == [all[i]];
          AdmittedPrefix(filter, all, i + 1);
          return all[i].key;
        }
      }
      assert all[..|all|] == all;
      return DEFAULT_ID;
    }

    method GetFingerprint(hash: Entry -> Fp, r: Range) returns (fp: Fp)
      ensures fp == Fingerprint(hash, InRange(Shown(), r))
    {
      hide Xor, InRange, Admitted;
      var listing := GetRange(r);
      fp := EMPTY_FP;
      for i := 0 to |listing|
        invariant fp == Fingerprint(hash, listing[..i])
      {
        assert listing[..i + 1][..i] == listing[..i];
        fp := Xor(fp, hash(listing[i]));
      }
      assert listing[..|listing|] == listing;
    }

    method InitialMessage(p: Protocol) returns (m: Message)
      ensures m == Initial(p, Shown())
    {
      var x := GetFirst();
      var fp := GetFingerprint(p.hash, Range(x, x));
      m := [FingerprintPart(Range(x, x), fp)];
    }

    /** The index of the first entry that is not below the start of the range. */
    method FindStart(l: View, x: Bytes) returns (start: nat)
      ensures start == StartIndex(l, x)
    {
      start := 0;
      while start < |l| && Less(l[start].key, x)
        invariant start <= |l| && forall j | 0 <= j < start :: Less(l[j].key, x)
        decreases |l| - start
      {
        start := start + 1;
      }
    }

    /** One pivot; pivots repeat after `k`. */
    method PickPivot(l: View, ghost x: Bytes, start: nat, k: nat, i: nat) returns (key: Bytes)
      requires l != [] && k > 0 && start == StartIndex(l, x)
      ensures key == Pivot(l, x, k, i)
    {
      var offset := (|l| * (i % k + 1)) / k;
      key := l[(start + offset) % |l|].key;
    }

    /** The pieces of a range, cut at every pivot. */
    method Cut(l: View, r: Range, k: nat) returns (ranges: seq<Range>)
      requires l != [] && k >= 2
      ensures ranges == SplitRanges(l, r, k)
    {
      hide StartIndex, Pivot;
      var start := FindStart(l, r.x);
      ranges := [];
      if IsAll(r) {
        for i := 0 to k
          invariant ranges == Between(l, r.x, k, i)
        {
          var x := PickPivot(l, r.x, start, k, i);
          var y := PickPivot(l, r.x, start, k, i + 1);
          if x != y {
            ranges := ranges + [Range(x, y)];
          }
        }
      } else {
        var first := PickPivot(l, r.x, start, k, 0);
        ranges := [Range(r.x, first)];
        for i := 0 to k - 2
          invariant ranges == [Range(r.x, first)] + Between(l, r.x, k, i)
        {
          var x := PickPivot(l, r.x, start, k, i);
          var y := PickPivot(l, r.x, start, k, i + 1);
          if x != y {
            ranges := ranges + [Range(x, y)];
          }
        }
        var last := PickPivot(l, r.x, start, k, k - 2);
        ranges := ranges + [Range(last, r.y)];
      }
    }

    /** The answer to one fingerprint: nothing, everything, or the pieces. */
    method RespondFingerprint(p: Protocol, r: Range, fp: Fp) returns (out: Message)
      requires p.config.splitFactor >= 2
      ensures out == AnswerFingerprint(p, Shown(), r, fp)
    {
      hide InRange, Fingerprint, SplitRanges, Admitted;
      var local := GetFingerprint(p.hash, r);
      if local == fp {
        return [];
      }
      var count := GetRangeLen(r);
      var values := GetRange(r);
      if count <= 1 || fp == EMPTY_FP {
        return [ItemPart(r, values, false)];
      }
      var ranges := Cut(values, r, p.config.splitFactor);
      out := [];
      for i := 0 to |ranges|
        invariant out == PartsFor(p, Shown(), ranges[..i])
      {
        assert ranges[..i + 1][..i] == ranges[..i];
        var chunk := GetRange(ranges[i]);
        var fingerprint := GetFingerprint(p.hash, ranges[i]);
        if |chunk| > p.config.maxSetSize {
          out := out + [FingerprintPart(ranges[i], fingerprint)];
        } else {
          out := out + [ItemPart(ranges[i], chunk, false)];
        }
      }
      assert ranges[..|ranges|] == ranges;
    }

    /** Our entries in the range that the peer's make redundant are left out. */
    method Difference(r: Range, theirs: seq<Entry>) returns (diff: View)
      ensures diff == Unmatched(InRange(Shown(), r), theirs)
    {
      hide InRange, Admitted;
      var ours := GetRange(r);
      diff := [];
      for i := 0 to |ours|
        invariant diff == Unmatched(ours[..i], theirs)
      {
        assert ours[..i + 1][..i] == ours[..i];
        if !Matched(ours[i], theirs) {
          diff := diff + [ours[i]];
        }
      }
      assert ours[..|ours|] == ours;
    }

    /** Take in what the peer sent, entry by entry; refusals are echoed. */
    method Ingest(verdict: Entry -> Verdict, values: seq<Entry>) returns (out: Message)
      modifies live
      ensures live.data == Ingested(verdict, old(live.data), values)
      ensures out == Refusals(verdict, old(live.data), values)
    {
      hide Put, WouldInsert;
      out := [];
      for i := 0 to |values|
        invariant live.data == Ingested(verdict, old(live.data), values[..i])
        invariant out == Refusals(verdict, old(live.data), values[..i])
      {
        assert values[..i + 1][..i] == values[..i];
        ghost var taken := Accepted(verdict, values[..i]);
        assert (taken + [values[i]])[..|taken|] == taken;
        match verdict(values[i])
        case Accept =>
          var outcome := live.Insert(values[i]);
        case Drop =>
        case Reject =>
          var news := live.WouldTake(values[i]);
          if news {
            out := out + [RejectedPart(values[i])];
          }
      }
      assert values[..|values|] == values;
    }

    /** One round: what the session answers depends on what the filter shows of the
        snapshot alone, apart from refusals; the live store takes in the accepted
        entries. */
    method ProcessMessage(p: Protocol, verdict: Entry -> Verdict, m: Message) returns (reply: Option<Message>)
      requires p.config.splitFactor >= 2
      modifies live
      ensures live.data == Ingested(verdict, old(live.data), Values(m))
      ensures var answer := Answer(p, Shown(), verdict, old(live.data), m);
        reply == if answer == [] then None else Some(answer)
    {
      hide *;
      var items, fingerprints := Separate(m);
      ItemsKeepAnswers(Shown(), verdict, live.data, m);
      FingerprintsKeepAnswers(p, Shown(), m);
      var itemReplies := RespondItems(verdict, items);
      var fpReplies := RespondFingerprints(p, fingerprints);
      AnswerParts(p, Shown(), verdict, old(live.data), m);
      var out := itemReplies + fpReplies;
      reply := if out == [] then None else Some(out);
    }

    method Separate(m: Message) returns (items: Message, fingerprints: Message)
      ensures items == ItemsOf(m) && fingerprints == FingerprintsOf(m)
    {
      items, fingerprints := [], [];
      for i := 0 to |m|
        invariant items == ItemsOf(m[..i]) && fingerprints == FingerprintsOf(m[..i])
      {
        assert m[..i + 1][..i] == m[..i];
        match m[i]
        case ItemPart(_, _, _) => items := items + [m[i]];
        case FingerprintPart(_, _) => fingerprints := fingerprints + [m[i]];
        case RejectedPart(_) =>
      }
      assert m[..|m|] == m;
    }

    method RespondFingerprints(p: Protocol, fingerprints: Message) returns (out: Message)
      requires p.config.splitFactor >= 2 && forall q | q in fingerprints :: q.FingerprintPart?
      ensures out == AnswerFingerprints(p, Shown(), fingerprints)
    {
      hide AnswerFingerprint, Admitted;
      out := [];
      for i := 0 to |fingerprints|
        invariant out == AnswerFingerprints(p, Shown(), fingerprints[..i])
      {
        assert fingerprints[..i + 1][..i] == fingerprints[..i];
        assert fingerprints[i] in fingerprints;
        var parts := RespondFingerprint(p, fingerprints[i].range, fingerprints[i].fingerprint);
        out := out + parts;
      }
      assert fingerprints[..|fingerprints|] == fingerprints;
    }

    method RespondItems(verdict: Entry -> Verdict, items: Message) returns (out: Message)
      requires forall q | q in items :: q.ItemPart?
      modifies live
      ensures live.data == Ingested(verdict, old(live.data), Values(items))
      ensures out == AnswerItems(Shown(), verdict, old(live.data), items)
    {
      hide Refusals, Admitted, InRange, Unmatched, Accepted, PutAll;
      out := [];
      NothingIngested(verdict, live.data);
      for i := 0 to |items|
        invariant live.data == Ingested(verdict, old(live.data), Values(items[..i]))
        invariant out == AnswerItems(Shown(), verdict, old(live.data), items[..i])
      {
        assert items[..i + 1][..i] == items[..i];
        assert items[i] in items;
        var ItemPart(range, values, haveLocal) := items[i];
        IngestedConcat(verdict, old(live.data), Values(items[..i]), values);
        if haveLocal {
          var refusals := Ingest(verdict, values);
          out := out + refusals;
        } else {
          var diff := Difference(range, values);
          var refusals := Ingest(verdict, values);
          out := out + refusals;
          if diff != [] {
            out := out + [ItemPart(range, diff, true)];
          }
        }
      }
      assert items[..|items|] == items;
    }
  }

  function ItemsOf(m: Message): (items: Message)
    ensures forall q | q in items :: q.ItemPart?
  {
    if m == [] then [] else ItemsOf(m[..|m| - 1]) + if m[|m| - 1].ItemPart? then [m[|m| - 1]] else []
  }

  function FingerprintsOf(m: Message): (fps: Message)
    ensures forall q | q in fps :: q.FingerprintPart?
  {
    if m == [] then [] else FingerprintsOf(m[..|m| - 1]) + if m[|m| - 1].FingerprintPart? then [m[|m| - 1]] else []
  }

  lemma {:induction false} ItemsKeepAnswers(v: View, verdict: Entry -> Verdict, live: Contents, m: Message)
    ensures Values(ItemsOf(m)) == Values(m)
    ensures AnswerItems(v, verdict, live, ItemsOf(m)) == AnswerItems(v, verdict, live, m)
  {
    hide Ingested, Refusals, AnswerItem;
    if m != [] {
      var init, last := m[..|m| - 1], m[|m| - 1];
      ItemsKeepAnswers(v, verdict, live, init);
      if last.ItemPart? {
        var items := ItemsOf(init) + [last];
        assert ItemsOf(m) == items && items[..|items| - 1] == ItemsOf(init) && items[|items| - 1] == last;
      } else {
        assert ItemsOf(m) == ItemsOf(init) && Values(m) == Values(init);
        assert AnswerItems(v, verdict, live, m) == AnswerItems(v, verdict, live, init);
      }
    }
  }

  lemma {:induction false} FingerprintsKeepAnswers(p: Protocol, v: View, m: Message)
    requires p.config.splitFactor >= 2
    ensures AnswerFingerprints(p, v, FingerprintsOf(m)) == AnswerFingerprints(p, v, m)
  {
    hide AnswerFingerprint;
    if m != [] {
      var init, last := m[..|m| - 1], m[|m| - 1];
      FingerprintsKeepAnswers(p, v, init);
      if last.FingerprintPart? {
        var fps := FingerprintsOf(init) + [last];
        assert FingerprintsOf(m) == fps && fps[..|fps| - 1] == FingerprintsOf(init) && fps[|fps| - 1] == last;
      } else {
        assert FingerprintsOf(m) == FingerprintsOf(init);
      }
    }
  }

  lemma AnswerParts(p: Protocol, v: View, verdict: Entry -> Verdict, live: Contents, m: Message)
    requires p.config.splitFactor >= 2
    ensures Answer(p, v, verdict, live, m) == AnswerItems(v, verdict, live, m) + AnswerFingerprints(p, v, m)
  {
  }

  lemma NothingIngested(verdict: Entry -> Verdict, live: Contents)
    ensures Ingested(verdict, live, []) == live
  {
  }

  lemma {:induction false} AdmittedPrefix(filter: Filter, v: View, n: nat)
    requires n <= |v|
    ensures Admitted(filter, v[..n]) <= Admitted(filter, v)
  {
    if n == |v| {
      assert v[..n] == v;
    } else {
      AdmittedPrefix(filter, v[..|v| - 1], n);
      assert v[..|v| - 1][..n] == v[..n];
    }
  }

  /** A filtered session looks like an unfiltered one over a store holding only the
      admitted entries: every read of the one is the same read of the other, so both open
      with the same message and answer every message alike. */
  lemma FilterPreservesMeaning(p: Protocol, filter: Filter, v: View)
    requires Sorted(v) && p.config.splitFactor >= 2
    ensures Sorted(Admitted(filter, v))
    ensures forall r: Range :: Admitted(filter, InRange(v, r)) == InRange(Admitted(None, Admitted(filter, v)), r)
    ensures Initial(p, Admitted(filter, v)) == Initial(p, Admitted(None, Admitted(filter, v)))
    ensures forall verdict: Entry -> Verdict, live: Contents, m: Message ::
      Answer(p, Admitted(filter, v), verdict, live, m) == Answer(p, Admitted(None, Admitted(filter, v)), verdict, live, m)
  {
    hide Answer, Initial;
    NoFilterShowsAll(Admitted(filter, v));
    AdmittedSorted(filter, v);
    forall r: Range
      ensures Admitted(filter, InRange(v, r)) == InRange(Admitted(None, Admitted(filter, v)), r)
    {
      FilterCommutes(filter, v, r);
    }
  }

  /** Two sessions side by side: one filtered, the other unfiltered over the entries that
      the filter admits, on live stores that hold the same. They open with the same
      message, give the same reply to any message, and leave the live stores the same. */
  method FilteredLikeNarrowed(filtered: SessionStore, narrowed: SessionStore, p: Protocol, verdict: Entry -> Verdict, m: Message)
    returns (opens: (Message, Message), replies: (Option<Message>, Option<Message>))
    requires narrowed.filter.None? && narrowed.snapshot == Admitted(filtered.filter, filtered.snapshot)
    requires filtered.live != narrowed.live && filtered.live.data == narrowed.live.data
    requires p.config.splitFactor >= 2
    modifies filtered.live, narrowed.live
    ensures opens.0 == opens.1 && replies.0 == replies.1 && filtered.live.data == narrowed.live.data
    ensures filtered.live.data == Ingested(verdict, old(filtered.live.data), Values(m))
  {
    hide Admitted, Answer, Initial, Ingested, Values;
    NoFilterShowsAll(narrowed.snapshot);
    var open1 := filtered.InitialMessage(p);
    var open2 := narrowed.InitialMessage(p);
    var reply1 := filtered.ProcessMessage(p, verdict, m);
    var reply2 := narrowed.ProcessMessage(p, verdict, m);
    opens, replies := (open1, open2), (reply1, reply2);
  }
}
