/** How a range is cut at pivots when two fingerprints differ. */
module Split {
  import opened Bytes
  import opened Entries
  import opened Ranges

  /** The first index whose key is not below `x`, or the length if there is none. */
  function StartIndex(l: View, x: Bytes): (i: nat)
    ensures i <= |l|
    ensures forall j | 0 <= j < i :: Less(l[j].key, x)
    ensures i < |l| ==> !Less(l[i].key, x)
  {
    if l == [] then 0
    else
      var i := StartIndex(l[..|l| - 1], x);
      if i == |l| - 1 && Less(l[i].key, x) then i + 1 else i
  }

  function Offset(n: nat, k: nat, i: nat): nat
    requires k > 0
  {
    (n * (i + 1)) / k
  }

  /** The i-th pivot of the listing `l` of a range starting at `x`, for `k` pieces. */
  function Pivot(l: View, x: Bytes, k: nat, i: nat): Bytes
    requires l != [] && k > 0
  {
    l[(StartIndex(l, x) + Offset(|l|, k, i % k)) % |l|].key
  }

  /** The ranges from each of the first `m` pivots to the next, empty ones left out. */
  function Between(l: View, x: Bytes, k: nat, m: nat): seq<Range>
    requires l != [] && k > 0
  {
    if m == 0 then []
    else
      var a, b := Pivot(l, x, k, m - 1), Pivot(l, x, k, m);
      Between(l, x, k, m - 1) + if a != b then [Range(a, b)] else []
  }

  function SplitRanges(l: View, r: Range, k: nat): seq<Range>
    requires l != [] && k >= 2
  {
    if IsAll(r) then Between(l, r.x, k, k)
    else [Range(r.x, Pivot(l, r.x, k, 0))] + Between(l, r.x, k, k - 2) + [Range(Pivot(l, r.x, k, k - 2), r.y)]
  }

  ghost predicate Covered(rs: seq<Range>, t: Bytes) {
    exists j :: 0 <= j < |rs| && Contains(rs[j], t)
  }

  ghost predicate Disjoint(rs: seq<Range>) {
    forall i, j, t | 0 <= i < j < |rs| && Contains(rs[i], t) :: !Contains(rs[j], t)
  }

  /** The pieces are disjoint and make up exactly the whole, over all keys. */
  ghost predicate Partitions(rs: seq<Range>, r: Range) {
    && (forall t :: Contains(r, t) <==> Covered(rs, t))
    && Disjoint(rs)
  }

  ghost predicate Proper(rs: seq<Range>) {
    forall r | r in rs :: !IsAll(r)
  }

  /** The listing read clockwise from `x`. */
  function Rotated(l: View, x: Bytes): (rot: View)
    ensures |rot| == |l|
  {
    l[StartIndex(l, x)..] + l[..StartIndex(l, x)]
  }

  lemma MulMonotone(a: int, b: int, k: nat)
    requires a <= b
    ensures a * k <= b * k
  {
  }

  lemma DivIs(a: nat, k: nat, q: nat)
    requires k > 0 && q * k <= a < (q + 1) * k
    ensures a / k == q
  {
    var d := a / k;
    assert d * k <= a < (d + 1) * k;
    if d < q {
      MulMonotone(d + 1, q, k);
      assert false;
    }
    if q < d {
      MulMonotone(q + 1, d, k);
      assert false;
    }
  }

  lemma DivMonotone(a: nat, b: nat, k: nat)
    requires a <= b && k > 0
    ensures a / k <= b / k
  {
    if a / k > b / k {
      MulMonotone(b / k + 1, a / k, k);
      assert false;
    }
  }

  /** Pivot offsets ascend, the last one is a full turn, the last but one is inside
      the listing, and the first is zero exactly for fewer entries than pieces. */
  lemma OffsetFacts(n: nat, k: nat)
    requires n >= 2 && k >= 2
    ensures forall i: nat, j: nat {:trigger Offset(n, k, i), Offset(n, k, j)} | i <= j :: Offset(n, k, i) <= Offset(n, k, j)
    ensures Offset(n, k, k - 1) == n
    ensures 1 <= Offset(n, k, k - 2) < n
    ensures Offset(n, k, 0) == 0 <==> n < k
  {
    forall i: nat, j: nat | i <= j
      ensures Offset(n, k, i) <= Offset(n, k, j)
    {
      MulMonotone(i + 1, j + 1, n);
      DivMonotone(n * (i + 1), n * (j + 1), k);
    }
    DivIs(n * k, k, n);
    LastOffset(n, k);
    DivZero(n, k);
  }

  lemma LastOffset(n: nat, k: nat)
    requires n >= 2 && k >= 2
    ensures 1 <= Offset(n, k, k - 2) < n
  {
    var a, q := n * (k - 1), (n * (k - 1)) / k;
    assert q * k <= a < (q + 1) * k;
    MulMonotone(2, n, k - 1);
    assert a == n * k - n;
    if q >= n {
      MulMonotone(n, q, k);
      assert false;
    }
    if q == 0 {
      assert false;
    }
  }

  lemma DivZero(n: nat, k: nat)
    requires k >= 1
    ensures n * 1 / k == 0 <==> n < k
  {
    if n < k { DivIs(n, k, 0); }
  }

  /** Read clockwise from `x`, the listing ascends around the circle. */
  lemma RotationAscends(l: View, x: Bytes)
    requires Sorted(l)
    ensures forall i, j | 0 <= i < j < |l| :: Turn(x, Rotated(l, x)[i].key) < Turn(x, Rotated(l, x)[j].key)
  {
    hide Less, Rank, StartIndex;
    OrderFacts();
    var start := StartIndex(l, x);
    forall i | 0 <= i < |l|
      ensures Less(l[i].key, x) <==> i < start
    {
    }
  }

  /** Pivots are entries of the rotated listing, in order; the last is its first. */
  lemma PivotsOnRotation(l: View, x: Bytes, k: nat)
    requires |l| >= 2 && k >= 2
    ensures forall i | 0 <= i < k - 1 ::
              Offset(|l|, k, i) < |l| && Pivot(l, x, k, i) == Rotated(l, x)[Offset(|l|, k, i)].key
    ensures Pivot(l, x, k, k - 1) == Rotated(l, x)[0].key
    ensures Pivot(l, x, k, k) == Pivot(l, x, k, 0)
  {
    hide *;
    OffsetFacts(|l|, k);
    forall i | 0 <= i < k - 1
      ensures Offset(|l|, k, i) < |l| && Pivot(l, x, k, i) == Rotated(l, x)[Offset(|l|, k, i)].key
    {
      assert Offset(|l|, k, i) <= Offset(|l|, k, k - 2);
      PivotAt(l, x, k, i);
    }
    LastPivot(l, x, k);
  }

  lemma PivotAt(l: View, x: Bytes, k: nat, i: nat)
    requires i < k && Offset(|l|, k, i) < |l|
    ensures Pivot(l, x, k, i) == Rotated(l, x)[Offset(|l|, k, i)].key
  {
    hide StartIndex, Offset, Rotated;
    ModSmall(i, k);
    RotatedAt(l, x, Offset(|l|, k, i));
  }

  lemma LastPivot(l: View, x: Bytes, k: nat)
    requires l != [] && k >= 2 && Offset(|l|, k, k - 1) == |l|
    ensures Pivot(l, x, k, k - 1) == Rotated(l, x)[0].key
    ensures Pivot(l, x, k, k) == Pivot(l, x, k, 0)
  {
    hide StartIndex, Offset, Rotated;
    ModSmall(k - 1, k);
    RotatedAt(l, x, 0);
    WrapMod(StartIndex(l, x), |l|);
    WrapMod(0, k);
  }

  lemma ModSmall(i: nat, k: nat)
    requires i < k
    ensures i % k == i
  {
  }

  lemma WrapMod(i: nat, n: nat)
    requires i <= n && n > 0
    ensures (i + n) % n == if i == n then 0 else i
    ensures i % n == if i == n then 0 else i
  {
    if i == n {
      DivIs(i + n, n, 2);
      DivIs(i, n, 1);
    } else {
      DivIs(i + n, n, 1);
    }
  }

  lemma RotatedAt(l: View, x: Bytes, j: nat)
    requires j < |l|
    ensures Rotated(l, x)[j] == l[(StartIndex(l, x) + j) % |l|]
  {
    hide Less, StartIndex;
    var i := StartIndex(l, x) + j;
    if i >= |l| {
      DivIs(i, |l|, 1);
    } else {
      ModSmall(i, |l|);
    }
  }

  /** The ranges between the first pivots are the arc from the first to the last of
      them, cut at the ones in between. */
  lemma {:induction false} BetweenIsArc(l: View, x: Bytes, k: nat, m: nat)
    requires Sorted(l) && |l| >= 2 && k >= 2 && m <= k - 2
    ensures var rs := Between(l, x, k, m);
            && Proper(rs) && Disjoint(rs)
            && forall t :: Covered(rs, t) <==>
                 Turn(x, Pivot(l, x, k, 0)) <= Turn(x, t) < Turn(x, Pivot(l, x, k, m))
  {
    hide Contains, Turn, Pivot, Offset, Rotated;
    RangesAreArcs(x);
    if m > 0 {
      BetweenIsArc(l, x, k, m - 1);
      PivotsAscend(l, x, k);
      var prev, rs := Between(l, x, k, m - 1), Between(l, x, k, m);
      var a, b := Pivot(l, x, k, m - 1), Pivot(l, x, k, m);
      assert Turn(x, Pivot(l, x, k, 0)) <= Turn(x, a) <= Turn(x, b);
      if a != b {
        CoveredBySnoc(prev, Range(a, b));
      } else {
        assert rs == prev;
      }
    }
  }

  lemma PivotsAscend(l: View, x: Bytes, k: nat)
    requires Sorted(l) && |l| >= 2 && k >= 2
    ensures forall i, j {:trigger Pivot(l, x, k, i), Pivot(l, x, k, j)} | 0 <= i <= j < k - 1 ::
              Turn(x, Pivot(l, x, k, i)) <= Turn(x, Pivot(l, x, k, j))
  {
    hide Turn, Pivot, Offset, Rotated;
    RotationAscends(l, x);
    PivotsOnRotation(l, x, k);
    OffsetFacts(|l|, k);
    forall i, j {:trigger Pivot(l, x, k, i), Pivot(l, x, k, j)} | 0 <= i <= j < k - 1
      ensures Turn(x, Pivot(l, x, k, i)) <= Turn(x, Pivot(l, x, k, j))
    {
      assert Offset(|l|, k, i) <= Offset(|l|, k, j);
    }
  }

  lemma CoveredBySnoc(rs: seq<Range>, r: Range)
    ensures forall t :: Covered(rs + [r], t) <==> Covered(rs, t) || Contains(r, t)
    ensures Disjoint(rs) && (forall t | Contains(r, t) :: !Covered(rs, t)) ==> Disjoint(rs + [r])
  {
    hide Contains;
    forall t
      ensures Covered(rs + [r], t) <==> Covered(rs, t) || Contains(r, t)
    {
      if Covered(rs, t) {
        var j :| 0 <= j < |rs| && Contains(rs[j], t);
        assert Contains((rs + [r])[j], t);
      }
      if Contains(r, t) {
        assert Contains((rs + [r])[|rs|], t);
      }
    }
  }

  lemma CoveredByCons(r: Range, rs: seq<Range>)
    ensures forall t :: Covered([r] + rs, t) <==> Contains(r, t) || Covered(rs, t)
    ensures Disjoint(rs) && (forall t | Contains(r, t) :: !Covered(rs, t)) ==> Disjoint([r] + rs)
  {
    hide Contains;
    forall t
      ensures Covered([r] + rs, t) <==> Contains(r, t) || Covered(rs, t)
    {
      if Covered(rs, t) {
        var j :| 0 <= j < |rs| && Contains(rs[j], t);
        assert Contains(([r] + rs)[j + 1], t);
      }
      if Contains(r, t) {
        assert Contains(([r] + rs)[0], t);
      }
    }
  }

  /** `l` is the non-trivial listing of the range that is about to be split. */
  ghost predicate Splits(l: View, r: Range, k: nat) {
    Sorted(l) && |l| >= 2 && k >= 2 && forall e | e in l :: Contains(r, e.key)
  }

  /** A proper range is cut from its start to the first pivot, through the pivots, and
      from the last one to its end. */
  lemma RangeSplitShape(l: View, r: Range, k: nat) returns (mid: seq<Range>, first: Bytes, last: Bytes)
    requires Splits(l, r, k) && !IsAll(r)
    ensures first == Pivot(l, r.x, k, 0)
    ensures SplitRanges(l, r, k) == [Range(r.x, first)] + mid + [Range(last, r.y)]
    ensures Turn(r.x, first) <= Turn(r.x, last) < Turn(r.x, r.y)
    ensures Proper(mid) && Disjoint(mid)
    ensures forall t :: Covered(mid, t) <==> Turn(r.x, first) <= Turn(r.x, t) < Turn(r.x, last)
  {
    hide Contains, Turn, Pivot, Offset, Between, Rotated, Proper, Disjoint, Covered;
    var x := r.x;
    PivotsAscend(l, x, k);
    PivotsInListing(l, x, k, k - 2);
    BetweenIsArc(l, x, k, k - 2);
    mid, first, last := Between(l, x, k, k - 2), Pivot(l, x, k, 0), Pivot(l, x, k, k - 2);
    TurnInjective(x, r.y, x);
    ArcForward(x, x, r.y);
    assert Contains(r, last);
  }

  lemma RangeSplit(l: View, r: Range, k: nat)
    requires Splits(l, r, k) && !IsAll(r) && Pivot(l, r.x, k, 0) != r.x
    ensures Partitions(SplitRanges(l, r, k), r) && Proper(SplitRanges(l, r, k))
  {
    hide Contains, Turn, Pivot, SplitRanges, Covered, Disjoint, Proper, Partitions;
    var mid, first, last := RangeSplitShape(l, r, k);
    ArcSplit(r, mid, first, last);
  }

  lemma ArcSplit(r: Range, mid: seq<Range>, first: Bytes, last: Bytes)
    requires r.x != first && Turn(r.x, first) <= Turn(r.x, last) < Turn(r.x, r.y)
    requires Proper(mid) && Disjoint(mid)
    requires forall t :: Covered(mid, t) <==> Turn(r.x, first) <= Turn(r.x, t) < Turn(r.x, last)
    ensures var rs := [Range(r.x, first)] + mid + [Range(last, r.y)];
      Partitions(rs, r) && Proper(rs)
  {
    hide Contains, Turn, Disjoint, Covered;
    var x := r.x;
    TurnInjective(x, first, x);
    ArcForward(x, x, first);
    ArcForward(x, last, r.y);
    ArcForward(x, x, r.y);
    CoveredByCons(Range(x, first), mid);
    CoveredBySnoc([Range(x, first)] + mid, Range(last, r.y));
    forall t { TurnInjective(x, t, t); }
  }

  lemma PivotsInListing(l: View, x: Bytes, k: nat, i: nat)
    requires l != [] && k > 0
    ensures exists e | e in l :: e.key == Pivot(l, x, k, i)
  {
    hide StartIndex, Offset, Less;
    var j := (StartIndex(l, x) + Offset(|l|, k, i % k)) % |l|;
    assert l[j] in l;
  }

  /** The whole set is cut at every pivot: clockwise from the first entry after
      `x`, to the first pivot, through the pivots, and from the last one around. */
  lemma AllSplitShape(l: View, r: Range, k: nat) returns (mid: seq<Range>, start: Bytes, first: Bytes, last: Bytes)
    requires Splits(l, r, k) && IsAll(r)
    ensures start == Rotated(l, r.x)[0].key && first == Pivot(l, r.x, k, 0) && last == Pivot(l, r.x, k, k - 2)
    ensures SplitRanges(l, r, k) == mid + [Range(last, start)] + if start != first then [Range(start, first)] else []
    ensures Turn(r.x, start) <= Turn(r.x, first) <= Turn(r.x, last)
    ensures Turn(r.x, start) < Turn(r.x, last)
    ensures Proper(mid) && Disjoint(mid)
    ensures forall t :: Covered(mid, t) <==> Turn(r.x, first) <= Turn(r.x, t) < Turn(r.x, last)
  {
    hide Contains, Turn, Pivot, Offset, Rotated, Proper, Disjoint, Covered;
    var x := r.x;
    PivotsAscend(l, x, k);
    RotationAscends(l, x);
    PivotsOnRotation(l, x, k);
    OffsetFacts(|l|, k);
    BetweenIsArc(l, x, k, k - 2);
    mid, start, first, last := Between(l, x, k, k - 2), Pivot(l, x, k, k - 1), Pivot(l, x, k, 0), Pivot(l, x, k, k - 2);
    assert Between(l, x, k, k - 1) == mid + [Range(last, start)];
  }

  lemma AllSplit(l: View, r: Range, k: nat)
    requires Splits(l, r, k) && IsAll(r)
    ensures Partitions(SplitRanges(l, r, k), r) && Proper(SplitRanges(l, r, k))
  {
    hide Contains, Turn, Pivot, Rotated, SplitRanges, Covered, Disjoint, Partitions;
    var mid, start, first, last := AllSplitShape(l, r, k);
    AllContains(r);
    CircleSplit(r.x, mid, start, first, last);
    PartitionOfAll(SplitRanges(l, r, k), r);
  }

  lemma PartitionOfAll(rs: seq<Range>, r: Range)
    requires (forall t :: Covered(rs, t)) && Disjoint(rs) && forall t :: Contains(r, t)
    ensures Partitions(rs, r)
  {
  }

  lemma CircleSplit(base: Bytes, mid: seq<Range>, start: Bytes, first: Bytes, last: Bytes)
    requires Turn(base, start) <= Turn(base, first) <= Turn(base, last)
    requires Turn(base, start) < Turn(base, last)
    requires Proper(mid) && Disjoint(mid)
    requires forall t :: Covered(mid, t) <==> Turn(base, first) <= Turn(base, t) < Turn(base, last)
    ensures var rs := mid + [Range(last, start)] + if start != first then [Range(start, first)] else [];
            Proper(rs) && Disjoint(rs) && forall t :: Covered(rs, t)
  {
    hide Contains, Turn, Disjoint, Covered;
    ArcAround(base, last, start);
    CoveredBySnoc(mid, Range(last, start));
    TurnInjective(base, start, first);
    var rs := mid + [Range(last, start)];
    if start == first {
      assert rs + [] == rs;
    } else {
      ArcForward(base, start, first);
      CoveredBySnoc(rs, Range(start, first));
    }
  }

  lemma AllContains(r: Range)
    requires IsAll(r)
    ensures forall t :: Contains(r, t)
  {
  }

  lemma FirstPivotIsStart(l: View, r: Range, k: nat)
    requires Splits(l, r, k)
    ensures Pivot(l, r.x, k, 0) == r.x <==> |l| < k && Rotated(l, r.x)[0].key == r.x
  {
    hide Contains, Turn, Pivot, Offset, Rotated;
    RangesAreArcs(r.x);
    RotationAscends(l, r.x);
    PivotsOnRotation(l, r.x, k);
    OffsetFacts(|l|, k);
  }

  /** A range is split into a partition of itself, without identity ranges, exactly
      when it is the whole set, or has at least as many entries as pieces are asked
      for, or does not start with an entry of its own. */
  lemma SplitIsPartition(l: View, r: Range, k: nat)
    requires Splits(l, r, k)
    ensures Partitions(SplitRanges(l, r, k), r)
      <==> IsAll(r) || |l| >= k || Rotated(l, r.x)[0].key != r.x
    ensures Partitions(SplitRanges(l, r, k), r) ==> Proper(SplitRanges(l, r, k))
  {
    hide Contains, Pivot, Rotated, Between;
    FirstPivotIsStart(l, r, k);
    if IsAll(r) {
      AllSplit(l, r, k);
    } else if Pivot(l, r.x, k, 0) != r.x {
      RangeSplit(l, r, k);
    } else {
      var rs, last := SplitRanges(l, r, k), Pivot(l, r.x, k, k - 2);
      AllContains(rs[0]);
      ContainsStart(rs[|rs| - 1]);
      assert Contains(rs[0], last) && Contains(rs[|rs| - 1], last);
    }
  }

  /** For instance two entries asked for in three pieces, the range starting at the first
      of them: the pieces overlap. The default of two pieces never does this. */
  lemma TooFewEntriesOverlap()
    ensures var l := [Entry([1], Record(0, 0)), Entry([2], Record(0, 0))];
      !Partitions(SplitRanges(l, Range([1], [3]), 3), Range([1], [3]))
  {
    var l, r := [Entry([1], Record(0, 0)), Entry([2], Record(0, 0))], Range([1], [3]);
    assert l[0].key == [1] && !Less(l[0].key, [1]);
    assert StartIndex(l, [1]) == 0;
    assert Rotated(l, [1])[0].key == [1];
    SplitIsPartition(l, r, 3);
  }

  lemma DefaultSplitsPartition(l: View, r: Range)
    requires Splits(l, r, 2)
    ensures Partitions(SplitRanges(l, r, 2), r) && Proper(SplitRanges(l, r, 2))
  {
    hide Partitions, Proper, SplitRanges, Rotated;
    SplitIsPartition(l, r, 2);
  }

  lemma ContainsStart(r: Range)
    ensures Contains(r, r.x)
  {
  }

  /** Two different pieces hold an entry of the listing, for every number of pieces and
      also where the pieces overlap. */
  lemma SplitFeedsTwo(l: View, r: Range, k: nat) returns (i: nat, j: nat)
    requires Splits(l, r, k)
    ensures var rs := SplitRanges(l, r, k);
            i < |rs| && j < |rs| && i != j && InRange(l, rs[i]) != [] && InRange(l, rs[j]) != []
  {
    hide Contains, Turn, Pivot, Offset, Rotated, Between, InRange, Partitions, SplitRanges;
    SplitIsPartition(l, r, k);
    if Partitions(SplitRanges(l, r, k), r) {
      i, j := PartitionFeedsTwo(l, r, k);
    } else {
      i, j := OverlapFeedsTwo(l, r, k);
    }
  }

  /** Where they overlap the first piece is everything, and the last holds its pivot. */
  lemma OverlapFeedsTwo(l: View, r: Range, k: nat) returns (i: nat, j: nat)
    requires Splits(l, r, k) && !IsAll(r) && |l| < k && Rotated(l, r.x)[0].key == r.x
    ensures var rs := SplitRanges(l, r, k);
            i < |rs| && j < |rs| && i != j && InRange(l, rs[i]) != [] && InRange(l, rs[j]) != []
  {
    hide Contains, Pivot, Rotated, Between, InRange;
    var rs, last := SplitRanges(l, r, k), Pivot(l, r.x, k, k - 2);
    FirstPivotIsStart(l, r, k);
    AllContains(rs[0]);
    PivotsInListing(l, r.x, k, k - 2);
    var e :| e in l && e.key == last;
    ContainsStart(rs[|rs| - 1]);
    InRangeMembers(l, rs[0], e);
    InRangeMembers(l, rs[|rs| - 1], e);
    i, j := 0, |rs| - 1;
  }

  lemma PartitionFeedsTwo(l: View, r: Range, k: nat) returns (i: nat, j: nat)
    requires Splits(l, r, k) && Partitions(SplitRanges(l, r, k), r)
    ensures var rs := SplitRanges(l, r, k);
            i < |rs| && j < |rs| && i != j && InRange(l, rs[i]) != [] && InRange(l, rs[j]) != []
  {
    hide Contains, Turn, Pivot, Offset, Rotated, Between, InRange;
    var x, rs := r.x, SplitRanges(l, r, k);
    RangesAreArcs(x);
    RotationAscends(l, x);
    PivotsOnRotation(l, x, k);
    OffsetFacts(|l|, k);
    var o := Offset(|l|, k, k - 2);
    var e, f := Rotated(l, x)[o], Rotated(l, x)[o - 1];
    RotatedMembers(l, x);
    assert Turn(x, Rotated(l, x)[0].key) <= Turn(x, f.key) < Turn(x, e.key);
    if IsAll(r) {
      var mid, start, first, last := AllSplitShape(l, r, k);
      i := |mid|;
      assert rs[i] == Range(e.key, start);
    } else {
      i := |rs| - 1;
      assert rs[i] == Range(e.key, r.y);
      assert Contains(r, e.key);
    }
    assert Contains(rs[i], e.key) && !Contains(rs[i], f.key);
    assert Covered(rs, f.key);
    j :| 0 <= j < |rs| && Contains(rs[j], f.key);
    InRangeMembers(l, rs[i], e);
    InRangeMembers(l, rs[j], f);
  }

  lemma RotatedMembers(l: View, x: Bytes)
    ensures forall e :: e in Rotated(l, x) <==> e in l
    ensures forall i | 0 <= i < |l| :: Rotated(l, x)[i] in l
  {
    hide StartIndex, Less;
    var s := StartIndex(l, x);
    assert l == l[..s] + l[s..];
  }

  /** With the default factor there are two pieces: up to the middle entry, and
      from it on. */
  lemma HalvesShape(l: View, r: Range, sub: Range)
    requires |l| >= 2 && sub in SplitRanges(l, r, 2)
    ensures var rot := Rotated(l, r.x);
            var middle := rot[|l| / 2].key;
            || sub == Range(middle, if IsAll(r) then rot[0].key else r.y)
            || sub == Range(if IsAll(r) then rot[0].key else r.x, middle)
  {
    hide Pivot, Offset, Rotated;
    PivotsOnRotation(l, r.x, 2);
    HalfOffset(|l|);
    assert Between(l, r.x, 2, 0) == [];
    if IsAll(r) {
      assert sub in Between(l, r.x, 2, 1) || sub == Range(Pivot(l, r.x, 2, 1), Pivot(l, r.x, 2, 2));
      assert sub in Between(l, r.x, 2, 1) ==> sub == Range(Pivot(l, r.x, 2, 0), Pivot(l, r.x, 2, 1));
    }
  }

  lemma UpperHalf(l: View, r: Range, sub: Range)
    requires Splits(l, r, 2)
    requires sub == Range(Rotated(l, r.x)[|l| / 2].key, if IsAll(r) then Rotated(l, r.x)[0].key else r.y)
    ensures forall i | 0 <= i < |l| / 2 :: !Contains(sub, Rotated(l, r.x)[i].key)
  {
    hide Contains, Turn, Rotated;
    var rot := Rotated(l, r.x);
    RotationAscends(l, r.x);
    RotatedMembers(l, r.x);
    if IsAll(r) {
      ArcAround(r.x, sub.x, sub.y);
    } else {
      TurnInjective(r.x, r.y, r.x);
      ArcForward(r.x, r.x, r.y);
      assert Contains(r, sub.x);
      ArcForward(r.x, sub.x, sub.y);
    }
  }

  lemma LowerHalf(l: View, r: Range, sub: Range)
    requires Splits(l, r, 2)
    requires sub == Range(if IsAll(r) then Rotated(l, r.x)[0].key else r.x, Rotated(l, r.x)[|l| / 2].key)
    ensures forall i | |l| / 2 <= i < |l| :: !Contains(sub, Rotated(l, r.x)[i].key)
  {
    hide Contains, Turn, Rotated;
    RotationAscends(l, r.x);
    TurnInjective(r.x, Rotated(l, r.x)[0].key, r.x);
    assert Turn(r.x, sub.x) < Turn(r.x, sub.y);
    ArcForward(r.x, sub.x, sub.y);
  }

  /** With the default factor each piece holds at most half of the listing, rounded up. */
  lemma SplitHalves(l: View, r: Range, sub: Range)
    requires Splits(l, r, 2)
    ensures sub in SplitRanges(l, r, 2) ==> |InRange(l, sub)| <= (|l| + 1) / 2
  {
    hide Contains, Rotated, InRange, SplitRanges;
    if sub !in SplitRanges(l, r, 2) {
      return;
    }
    var n, rot := |l|, Rotated(l, r.x);
    HalvesShape(l, r, sub);
    var low, high := rot[..n / 2], rot[n / 2..];
    assert rot == low + high;
    RotationCounts(l, r.x, sub);
    InRangeConcat(low, high, sub);
    InRangeShrinks(low, sub);
    InRangeShrinks(high, sub);
    if sub == Range(rot[n / 2].key, if IsAll(r) then rot[0].key else r.y) {
      UpperHalf(l, r, sub);
      InRangeDropsAll(low, sub);
    } else {
      LowerHalf(l, r, sub);
      InRangeDropsAll(high, sub);
    }
  }

  lemma HalfOffset(n: nat)
    ensures Offset(n, 2, 0) == n / 2
  {
  }

  lemma {:induction false} InRangeShrinks(v: View, r: Range)
    ensures |InRange(v, r)| <= |v|
  {
    hide Contains;
    if v != [] { InRangeShrinks(v[..|v| - 1], r); }
  }

  lemma RotationCounts(l: View, x: Bytes, r: Range)
    ensures |InRange(Rotated(l, x), r)| == |InRange(l, r)|
  {
    hide StartIndex, InRange;
    var s := StartIndex(l, x);
    assert l == l[..s] + l[s..];
    InRangeConcat(l[..s], l[s..], r);
    InRangeConcat(l[s..], l[..s], r);
  }

  // ---- every number of pieces ----

  lemma DivDifference(a: nat, n: nat, k: nat)
    requires k > 0
    ensures (a + n) / k <= a / k + (n + k - 1) / k
  {
    var q, c := a / k, (n + k - 1) / k;
    assert q * k <= a < (q + 1) * k && c * k <= n + k - 1 < (c + 1) * k;
    if (a + n) / k > q + c {
      MulMonotone(q + c + 1, (a + n) / k, k);
      assert false;
    }
  }

  /** Neighbouring pivots are at most a k-th, rounded up, apart. */
  lemma OffsetGaps(n: nat, k: nat)
    requires n >= 2 && k >= 2
    ensures forall i: nat :: Offset(n, k, i + 1) - Offset(n, k, i) <= (n + k - 1) / k
    ensures Offset(n, k, 0) <= (n + k - 1) / k
    ensures n - Offset(n, k, k - 2) <= (n + k - 1) / k
  {
    forall i: nat
      ensures Offset(n, k, i + 1) - Offset(n, k, i) <= (n + k - 1) / k
    {
      DivDifference(n * (i + 1), n, k);
      assert n * (i + 2) == n * (i + 1) + n;
    }
    DivMonotone(n, n + k - 1, k);
    OffsetFacts(n, k);
    assert Offset(n, k, k - 2 + 1) == n;
  }

  lemma {:induction false} BetweenMembers(l: View, x: Bytes, k: nat, m: nat, sub: Range) returns (i: nat)
    requires l != [] && k > 0 && sub in Between(l, x, k, m)
    ensures i < m && sub == Range(Pivot(l, x, k, i), Pivot(l, x, k, i + 1)) && sub.x != sub.y
  {
    hide Pivot;
    if sub in Between(l, x, k, m - 1) {
      i := BetweenMembers(l, x, k, m - 1, sub);
    } else {
      i := m - 1;
    }
  }

  /** A stretch of the rotated listing that holds all of its entries in the piece. */
  lemma StretchCount(l: View, x: Bytes, sub: Range, a: nat, b: nat)
    requires a <= b <= |l| && forall i | 0 <= i < |l| && (i < a || b <= i) :: !Contains(sub, Rotated(l, x)[i].key)
    ensures |InRange(l, sub)| <= b - a
  {
    hide Contains, Rotated, InRange;
    var rot := Rotated(l, x);
    var low, mid, high := rot[..a], rot[a..b], rot[b..];
    assert rot == low + mid + high;
    RotationCounts(l, x, sub);
    InRangeConcat(low + mid, high, sub);
    InRangeConcat(low, mid, sub);
    InRangeShrinks(mid, sub);
    InRangeDropsAll(low, sub);
    InRangeDropsAll(high, sub);
  }

  /** The stretch of a piece between two pivots, none of which is the wrapped one. */
  lemma InnerStretch(l: View, x: Bytes, k: nat, i: nat)
    requires Sorted(l) && |l| >= 2 && k >= 2 && i < k - 2 && Pivot(l, x, k, i) != Pivot(l, x, k, i + 1)
    ensures |InRange(l, Range(Pivot(l, x, k, i), Pivot(l, x, k, i + 1)))| <= (|l| + k - 1) / k
  {
    hide Contains, Turn, Pivot, Offset, Rotated, InRange;
    var n, sub := |l|, Range(Pivot(l, x, k, i), Pivot(l, x, k, i + 1));
    RotationAscends(l, x);
    PivotsOnRotation(l, x, k);
    OffsetFacts(n, k);
    OffsetGaps(n, k);
    var a, b := Offset(n, k, i), Offset(n, k, i + 1);
    assert a < b;
    ArcForward(x, sub.x, sub.y);
    StretchCount(l, x, sub, a, b);
  }

  /** The pieces at the ends: up to the first pivot, and from the last one on. */
  lemma OuterStretches(l: View, r: Range, k: nat)
    requires Splits(l, r, k)
    ensures var first, last := Pivot(l, r.x, k, 0), Pivot(l, r.x, k, k - 2); var start := Rotated(l, r.x)[0].key;
      && (IsAll(r) ==> |InRange(l, Range(last, start))| <= (|l| + k - 1) / k)
      && (IsAll(r) && start != first ==> |InRange(l, Range(start, first))| <= (|l| + k - 1) / k)
      && (!IsAll(r) && r.x != first ==> |InRange(l, Range(r.x, first))| <= (|l| + k - 1) / k)
      && (!IsAll(r) ==> |InRange(l, Range(last, r.y))| <= (|l| + k - 1) / k)
  {
    hide Contains, Turn, Pivot, Offset, Rotated, InRange;
    var n, x := |l|, r.x;
    var first, last, start := Pivot(l, x, k, 0), Pivot(l, x, k, k - 2), Rotated(l, x)[0].key;
    RotationAscends(l, x);
    RotatedMembers(l, x);
    PivotsOnRotation(l, x, k);
    OffsetFacts(n, k);
    OffsetGaps(n, k);
    TurnInjective(x, start, first);
    TurnInjective(x, first, x);
    TurnInjective(x, r.y, x);
    var a, b := Offset(n, k, 0), Offset(n, k, k - 2);
    assert a <= b < n && b >= 1;
    if IsAll(r) {
      ArcAround(x, last, start);
      StretchCount(l, x, Range(last, start), b, n);
      if start != first {
        ArcForward(x, start, first);
        StretchCount(l, x, Range(start, first), 0, a);
      }
    } else {
      if x != first {
        ArcForward(x, x, first);
        StretchCount(l, x, Range(x, first), 0, a);
      }
      ArcForward(x, x, r.y);
      assert Contains(r, last);
      ArcForward(x, last, r.y);
      StretchCount(l, x, Range(last, r.y), b, n);
    }
  }

  /** For any number of pieces, wherever the split is a partition: no piece holds more
      than its share of the entries, rounded up. */
  lemma SplitShares(l: View, r: Range, k: nat, sub: Range)
    requires Splits(l, r, k) && (IsAll(r) || |l| >= k || Rotated(l, r.x)[0].key != r.x)
    ensures sub in SplitRanges(l, r, k) ==> |InRange(l, sub)| <= (|l| + k - 1) / k
  {
    hide Contains, Pivot, Rotated, InRange, Between;
    if sub !in SplitRanges(l, r, k) {
      return;
    }
    FirstPivotIsStart(l, r, k);
    OuterStretches(l, r, k);
    PivotsOnRotation(l, r.x, k);
    if IsAll(r) {
      var i := BetweenMembers(l, r.x, k, k, sub);
      if i < k - 2 { InnerStretch(l, r.x, k, i); }
    } else if sub in Between(l, r.x, k, k - 2) {
      var i := BetweenMembers(l, r.x, k, k - 2, sub);
      InnerStretch(l, r.x, k, i);
    }
  }
}
