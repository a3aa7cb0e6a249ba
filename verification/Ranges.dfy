/** Wrap-around key ranges and the ordered views they are evaluated on. */
module Ranges {
  import opened Bytes
  import opened Entries

  /** `x == y`: every key. `x < y`: the keys from x up to but not including y.
      `y < x`: everything except the keys from y up to but not including x. */
  datatype Range = Range(x: Bytes, y: Bytes)

  predicate IsAll(r: Range) {
    r.x == r.y
  }

  predicate Contains(r: Range, t: Bytes) {
    if r.x == r.y then true
    else if Less(r.x, r.y) then Leq(r.x, t) && Less(t, r.y)
    else Leq(r.x, t) || Less(t, r.y)
  }

  /** A read source: entries in strictly ascending key order. */
  type View = seq<Entry>

  ghost predicate Sorted(v: View) {
    forall i, j | 0 <= i < j < |v| :: Less(v[i].key, v[j].key)
  }

  /** The entries of a view inside a range, in the view's order. */
  function InRange(v: View, r: Range): View {
    if v == [] then []
    else
      var rest := InRange(v[..|v| - 1], r);
      var last := v[|v| - 1];
      if Contains(r, last.key) then rest + [last] else rest
  }

  lemma {:induction false} InRangeMembers(v: View, r: Range, e: Entry)
    ensures e in InRange(v, r) <==> e in v && Contains(r, e.key)
  {
    hide Contains;
    if v != [] {
      InRangeMembers(v[..|v| - 1], r, e);
      assert v == v[..|v| - 1] + [v[|v| - 1]];
    }
  }

  lemma {:induction false} InRangeSorted(v: View, r: Range)
    requires Sorted(v)
    ensures Sorted(InRange(v, r))
    ensures |InRange(v, r)| <= |v|
  {
    hide Less, Contains;
    if v != [] {
      var init, last := v[..|v| - 1], v[|v| - 1];
      InRangeSorted(init, r);
      forall i | 0 <= i < |InRange(init, r)|
        ensures Less(InRange(init, r)[i].key, last.key)
      {
        InRangeMembers(init, r, InRange(init, r)[i]);
        var j :| 0 <= j < |init| && init[j] == InRange(init, r)[i];
        assert v[j] == init[j];
      }
    }
  }

  lemma {:induction false} InRangeConcat(u: View, v: View, r: Range)
    ensures InRange(u + v, r) == InRange(u, r) + InRange(v, r)
  {
    hide Contains;
    if v == [] {
      assert u + v == u;
    } else {
      assert (u + v)[..|u + v| - 1] == u + v[..|v| - 1];
      InRangeConcat(u, v[..|v| - 1], r);
    }
  }

  lemma {:induction false} InRangeKeepsAll(v: View, r: Range)
    requires forall e | e in v :: Contains(r, e.key)
    ensures InRange(v, r) == v
  {
    hide Contains;
    if v != [] {
      InRangeKeepsAll(v[..|v| - 1], r);
      assert v == v[..|v| - 1] + [v[|v| - 1]];
    }
  }

  lemma {:induction false} InRangeDropsAll(v: View, r: Range)
    requires forall e | e in v :: !Contains(r, e.key)
    ensures InRange(v, r) == []
  {
    hide Contains;
    if v != [] {
      InRangeDropsAll(v[..|v| - 1], r);
    }
  }

  /** Listing a sub-range of a range is listing it in the range's own listing. */
  lemma {:induction false} InRangeNested(v: View, r: Range, sub: Range)
    requires forall t :: Contains(sub, t) ==> Contains(r, t)
    ensures InRange(InRange(v, r), sub) == InRange(v, sub)
  {
    hide Contains;
    if v != [] {
      InRangeNested(v[..|v| - 1], r, sub);
      var rest, last := InRange(v[..|v| - 1], r), v[|v| - 1];
      if Contains(r, last.key) {
        assert (rest + [last])[..|rest + [last]| - 1] == rest;
      }
    }
  }

  lemma SomeEntry(v: View) returns (e: Entry)
    requires v != []
    ensures e in v
  {
    e := v[0];
  }

  /** Two sorted views with the same entries are the same view. */
  lemma {:induction false} SortedViewsEqual(u: View, v: View)
    requires Sorted(u) && Sorted(v)
    requires forall e :: e in u <==> e in v
    ensures u == v
  {
    hide Less, Rank;
    OrderFacts();
    if u == [] {
      if v != [] {
        var e := SomeEntry(v);
        assert false;
      }
    } else {
      assert u[|u| - 1] in v;
      var a, b := u[|u| - 1], v[|v| - 1];
      assert a == b by {
        assert b in u && a in v;
      }
      var u', v' := u[..|u| - 1], v[..|v| - 1];
      forall e
        ensures e in u' <==> e in v'
      {
        assert u == u' + [a] && v == v' + [b];
        assert e in u <==> e in u' || e == a;
        assert e in v <==> e in v' || e == b;
        assert a !in u' && b !in v';
      }
      SortedViewsEqual(u', v');
      assert u == u' + [a] && v == v' + [b];
    }
  }

  /** How far clockwise from `base` the key `t` lies, with the keys placed on a
      circle of circumference one. */
  ghost function Turn(base: Bytes, t: Bytes): real {
    if Rank(t) >= Rank(base) then Rank(t) - Rank(base) else 1.0 + Rank(t) - Rank(base)
  }

  /** Seen from any base key, a proper range is an arc: the part between its ends,
      or the complement of such a part. */
  lemma RangesAreArcs(base: Bytes)
    ensures forall t :: 0.0 <= Turn(base, t) < 1.0
    ensures forall s, t {:trigger Turn(base, s), Turn(base, t)} :: Turn(base, s) == Turn(base, t) ==> s == t
    ensures Turn(base, base) == 0.0
    ensures forall r: Range, t {:trigger Contains(r, t)} :: r.x != r.y && Turn(base, r.x) < Turn(base, r.y) ==>
              (Contains(r, t) <==> Turn(base, r.x) <= Turn(base, t) < Turn(base, r.y))
    ensures forall r: Range, t {:trigger Contains(r, t)} :: r.x != r.y && Turn(base, r.y) < Turn(base, r.x) ==>
              (Contains(r, t) <==> Turn(base, r.x) <= Turn(base, t) || Turn(base, t) < Turn(base, r.y))
  {
    hide Less, Rank;
    OrderFacts();
  }

  lemma ArcForward(base: Bytes, a: Bytes, b: Bytes)
    requires Turn(base, a) < Turn(base, b)
    ensures forall t :: Contains(Range(a, b), t) <==> Turn(base, a) <= Turn(base, t) < Turn(base, b)
  {
    hide Contains, Turn;
    RangesAreArcs(base);
  }

  lemma ArcAround(base: Bytes, a: Bytes, b: Bytes)
    requires Turn(base, b) < Turn(base, a)
    ensures forall t :: Contains(Range(a, b), t) <==> Turn(base, a) <= Turn(base, t) || Turn(base, t) < Turn(base, b)
  {
    hide Contains, Turn;
    RangesAreArcs(base);
  }

  lemma TurnInjective(base: Bytes, s: Bytes, t: Bytes)
    ensures Turn(base, s) == Turn(base, t) <==> s == t
    ensures Turn(base, base) == 0.0 <= Turn(base, s)
  {
    hide Less, Rank;
    OrderFacts();
  }
}
