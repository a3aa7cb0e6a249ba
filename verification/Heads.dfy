/** Author heads: the latest known timestamp per author, merged and exchanged. */
module Heads {
  import opened Bytes
  import opened Basics

  type Author = Bytes
  type Heads = map<Author, nat>

  function Max(a: nat, b: nat): nat {
    if a >= b then a else b
  }

  /** Author by author, the later timestamp. */
  function Join(a: Heads, b: Heads): Heads {
    map x | x in a.Keys + b.Keys :: if x !in a then b[x] else if x !in b then a[x] else Max(a[x], b[x])
  }

  /** Everything known to `a` is known to `b`. */
  predicate Known(a: Heads, b: Heads) {
    forall x | x in a :: x in b && a[x] <= b[x]
  }

  /** The authors for which `a` has something newer than `b`. */
  function News(a: Heads, b: Heads): set<Author> {
    set x | x in a && (x !in b || a[x] > b[x])
  }

  /** Merging is a least upper bound. */
  lemma JoinIsLeastUpperBound(a: Heads, b: Heads, c: Heads)
    ensures Known(a, Join(a, b)) && Known(b, Join(a, b))
    ensures Known(a, c) && Known(b, c) ==> Known(Join(a, b), c)
  {
  }

  lemma JoinCommutes(a: Heads, b: Heads)
    ensures Join(a, b) == Join(b, a)
  {
  }

  lemma JoinAssociates(a: Heads, b: Heads, c: Heads)
    ensures Join(Join(a, b), c) == Join(a, Join(b, c))
  {
    var l, r := Join(Join(a, b), c), Join(a, Join(b, c));
    assert l.Keys == a.Keys + b.Keys + c.Keys == r.Keys;
    forall x | x in l
      ensures l[x] == r[x]
    {
    }
  }

  /** A merge changes nothing exactly if there was no news, and leaves no news. */
  lemma MergeChangesIffNews(a: Heads, b: Heads)
    ensures Join(a, b) == a <==> News(b, a) == {}
    ensures News(b, Join(a, b)) == {}
  {
    if News(b, a) == {} {
      forall x | x in b
        ensures x in a && b[x] <= a[x]
      {
        assert x !in News(b, a);
      }
      assert Join(a, b).Keys == a.Keys;
    } else {
      var x :| x in News(b, a);
      assert x in Join(a, b) && (x !in a || Join(a, b)[x] != a[x]);
    }
  }

  ghost function Except(h: Heads, rest: set<Author>): Heads {
    map x | x in h && x !in rest :: h[x]
  }

  lemma JoinNothing(a: Heads, b: Heads)
    ensures Join(a, Except(b, b.Keys)) == a
  {
  }

  lemma JoinOneMore(a: Heads, b: Heads, rest: set<Author>, x: Author)
    requires x in rest && x in b
    ensures Join(Join(a, Except(b, rest)), map[x := b[x]]) == Join(a, Except(b, rest - {x}))
  {
    hide Join;
    assert Join(Except(b, rest), map[x := b[x]]) == Except(b, rest - {x}) by { JoinDisjoint(Except(b, rest), x, b[x]); }
    JoinAssociates(a, Except(b, rest), map[x := b[x]]);
  }

  lemma JoinDisjoint(a: Heads, x: Author, t: nat)
    requires x !in a
    ensures Join(a, map[x := t]) == a[x := t]
  {
  }

  class AuthorHeads {
    var heads: Heads

    constructor ()
      ensures heads == map[]
    {
      heads := map[];
    }

    method Insert(author: Author, timestamp: nat)
      modifies this
      ensures heads == Join(old(heads), map[author := timestamp])
    {
      heads := heads[author := if author in heads then Max(heads[author], timestamp) else timestamp];
    }

    method Merge(other: Heads)
      modifies this
      ensures heads == Join(old(heads), other)
    {
      var rest := other.Keys;
      ghost var before := heads;
      JoinNothing(before, other);
      while rest != {}
        invariant rest <= other.Keys && heads == Join(before, Except(other, rest))
        decreases rest
      {
        hide Join, Except;
        var x :| x in rest;
        JoinOneMore(before, other, rest, x);
        Insert(x, other[x]);
        rest := rest - {x};
      }
      assert Except(other, {}) == other;
    }

    method HasNewsFor(other: Heads) returns (updates: nat)
      ensures updates == |News(heads, other)|
    {
      hide News;
      updates := 0;
      var rest := heads.Keys;
      NoNewsYet(heads, other);
      while rest != {}
        invariant rest <= heads.Keys && updates == |News(heads, other) - rest|
        decreases rest
      {
        var x :| x in rest;
        OneMoreNews(heads, other, rest, x);
        if x !in other || heads[x] > other[x] {
          updates := updates + 1;
        }
        rest := rest - {x};
      }
      assert News(heads, other) - {} == News(heads, other);
    }
  }

  lemma NoNewsYet(a: Heads, b: Heads)
    ensures News(a, b) - a.Keys == {}
  {
  }

  lemma OneMoreNews(a: Heads, b: Heads, rest: set<Author>, x: Author)
    requires x in rest && x in a
    ensures |News(a, b) - (rest - {x})| == |News(a, b) - rest| + if x !in b || a[x] > b[x] then 1 else 0
  {
    var seen := News(a, b) - rest;
    assert News(a, b) - (rest - {x}) == if x in News(a, b) then seen + {x} else seen;
  }

  // ---- encoding ----

  datatype Item = Item(timestamp: nat, author: Author)

  /** Among the authors with one timestamp, the largest stands for it. */
  ghost predicate Stands(h: Heads, i: Item) {
    && i.author in h && h[i.author] == i.timestamp
    && forall x | x in h && h[x] == i.timestamp :: !Less(i.author, x)
  }

  /** A newest-first part of the heads: descending timestamps, each with its standing
      author, and nothing left out that is newer than what is in. */
  ghost predicate NewestFirst(h: Heads, items: seq<Item>) {
    && (forall i | 0 <= i < |items| :: Stands(h, items[i]))
    && (forall i, j | 0 <= i < j < |items| :: items[j].timestamp < items[i].timestamp)
    && NoGap(h, items)
  }

  ghost predicate NoGap(h: Heads, items: seq<Item>) {
    forall x, i | x in h && 0 <= i < |items| && items[i].timestamp < h[x] :: exists j :: 0 <= j < i && items[j].timestamp == h[x]
  }

  /** Every timestamp of the heads is present. */
  ghost predicate Complete(h: Heads, items: seq<Item>) {
    forall x | x in h :: exists j :: 0 <= j < |items| && items[j].timestamp == h[x]
  }

  /** One author per timestamp, the last one in author order. */
  method ByTimestamp(h: Heads) returns (m: map<nat, Author>)
    ensures forall ts | ts in m :: Stands(h, Item(ts, m[ts]))
    ensures forall x | x in h :: h[x] in m
  {
    hide Less, Rank;
    OrderFacts();
    m := map[];
    var rest := h.Keys;
    while rest != {}
      invariant rest <= h.Keys
      invariant forall ts | ts in m :: m[ts] in h && h[m[ts]] == ts && m[ts] !in rest
      invariant forall x | x in h && x !in rest :: h[x] in m && !Less(m[h[x]], x)
      decreases rest
    {
      var x :| x in rest;
      rest := rest - {x};
      if h[x] !in m || Less(m[h[x]], x) {
        m := m[h[x] := x];
      }
    }
  }

  method Greatest(s: set<nat>) returns (g: nat)
    requires s != {}
    ensures g in s && forall x | x in s :: x <= g
  {
    g :| g in s;
    var rest := s;
    while rest != {}
      invariant rest <= s && g in s && forall x | x in s && x !in rest :: x <= g
      decreases rest
    {
      var x :| x in rest;
      rest := rest - {x};
      if x > g { g := x; }
    }
  }

  ghost predicate Lists(items: seq<Item>, timestamp: nat) {
    exists j :: 0 <= j < |items| && items[j].timestamp == timestamp
  }

  /** Of the timestamps `all`, the newest are listed and `rest` is still to come. */
  ghost predicate Listing(h: Heads, items: seq<Item>, all: set<nat>, rest: set<nat>) {
    && NewestFirst(h, items) && rest <= all && (forall x | x in h :: h[x] in all)
    && (forall i, ts | 0 <= i < |items| && ts in rest :: ts < items[i].timestamp)
    && (forall ts | ts in all && ts !in rest :: Lists(items, ts))
  }

  /** The next item would not fit. */
  ghost predicate CutOff(h: Heads, items: seq<Item>, size: seq<Item> -> nat, limit: nat, next: Item) {
    Stands(h, next) && NewestFirst(h, items + [next]) && size(items + [next]) > limit
  }

  /** The heads as a list, newest first, cut off where it would exceed the limit. */
  method Encode(h: Heads, size: seq<Item> -> nat, limit: Option<nat>) returns (items: seq<Item>)
    ensures NewestFirst(h, items)
    ensures Complete(h, items) || (limit.Some? && exists next :: CutOff(h, items, size, limit.value, next))
    ensures limit.Some? ==> items == [] || size(items) <= limit.value
  {
    hide Less, NewestFirst, Stands, Lists, Complete, Listing;
    var m := ByTimestamp(h);
    items := [];
    var rest := m.Keys;
    StartListing(h, m.Keys);
    while rest != {}
      invariant Listing(h, items, m.Keys, rest) && rest <= m.Keys
      invariant limit.Some? ==> items == [] || size(items) <= limit.value
      decreases rest
    {
      var ts := Greatest(rest);
      var next := Item(ts, m[ts]);
      ExtendListing(h, items, next, m.Keys, rest);
      if limit.Some? && size(items + [next]) > limit.value {
        assert CutOff(h, items, size, limit.value, next);
        return;
      }
      items := items + [next];
      rest := rest - {ts};
    }
    ListingDone(h, items, m.Keys);
  }

  lemma StartListing(h: Heads, all: set<nat>)
    requires forall x | x in h :: h[x] in all
    ensures Listing(h, [], all, all)
  {
  }

  lemma ListingDone(h: Heads, items: seq<Item>, all: set<nat>)
    requires Listing(h, items, all, {})
    ensures Complete(h, items) && NewestFirst(h, items)
  {
    hide NewestFirst;
    forall x | x in h
      ensures Lists(items, h[x])
    {
    }
  }

  lemma ListsSnoc(items: seq<Item>, next: Item, ts: nat)
    ensures Lists(items + [next], ts) <==> Lists(items, ts) || ts == next.timestamp
  {
    var out := items + [next];
    if Lists(items, ts) {
      var j :| 0 <= j < |items| && items[j].timestamp == ts;
      assert out[j].timestamp == ts;
    } else if ts == next.timestamp {
      assert out[|items|].timestamp == ts;
    }
  }

  lemma ExtendNoGap(h: Heads, items: seq<Item>, next: Item)
    requires NoGap(h, items) && forall x | x in h && next.timestamp < h[x] :: Lists(items, h[x])
    ensures NoGap(h, items + [next])
  {
    var out := items + [next];
    forall x, i | x in h && 0 <= i < |out| && out[i].timestamp < h[x]
      ensures exists j :: 0 <= j < i && out[j].timestamp == h[x]
    {
      if i == |items| {
        assert Lists(items, h[x]);
      } else {
        assert items[i].timestamp < h[x];
      }
      var j :| 0 <= j < i && items[j].timestamp == h[x];
      assert out[j].timestamp == h[x];
    }
  }

  lemma ExtendListing(h: Heads, items: seq<Item>, next: Item, all: set<nat>, rest: set<nat>)
    requires Listing(h, items, all, rest) && Stands(h, next)
    requires next.timestamp in rest && forall t | t in rest :: t <= next.timestamp
    ensures NewestFirst(h, items) && NewestFirst(h, items + [next])
    ensures Listing(h, items + [next], all, rest - {next.timestamp})
  {
    hide Less, Stands, NoGap, Lists;
    ExtendNoGap(h, items, next);
    forall ts { ListsSnoc(items, next, ts); }
  }

  function Decode(items: seq<Item>): Heads {
    if items == [] then map[]
    else
      var rest, last := Decode(items[..|items| - 1]), items[|items| - 1];
      Join(rest, map[last.author := last.timestamp])
  }

  /** Decoding any list whatever keeps the latest timestamp listed for each author. */
  lemma {:induction false} DecodeMeans(items: seq<Item>)
    ensures forall i | i in items :: i.author in Decode(items) && i.timestamp <= Decode(items)[i.author]
    ensures forall x | x in Decode(items) :: Item(Decode(items)[x], x) in items
  {
    hide Join;
    if items != [] {
      var init, last := items[..|items| - 1], items[|items| - 1];
      DecodeMeans(init);
      assert items == init + [last];
      JoinOne(Decode(init), last);
    }
  }

  lemma JoinOne(h: Heads, i: Item)
    ensures var d := Join(h, map[i.author := i.timestamp]);
      && i.author in d && i.timestamp <= d[i.author]
      && (forall x | x in h :: x in d && h[x] <= d[x])
      && (forall x | x in d :: (x in h && d[x] == h[x]) || Item(d[x], x) == i)
  {
  }

  lemma {:induction false} DecodeMembers(h: Heads, items: seq<Item>)
    requires forall i | 0 <= i < |items| :: items[i].author in h && h[items[i].author] == items[i].timestamp
    ensures forall x | x in Decode(items) :: x in h && Decode(items)[x] == h[x]
    ensures forall i | 0 <= i < |items| :: items[i].author in Decode(items)
    ensures forall x | x in Decode(items) :: exists i :: 0 <= i < |items| && items[i].author == x
  {
    if items != [] {
      var init, last := items[..|items| - 1], items[|items| - 1];
      DecodeMembers(h, init);
      assert forall i | 0 <= i < |init| :: items[i] == init[i];
      forall x | x in Decode(items)
        ensures exists i :: 0 <= i < |items| && items[i].author == x
      {
        if x in Decode(init) {
          var i :| 0 <= i < |init| && init[i].author == x;
          assert items[i].author == x;
        } else {
          assert items[|init|].author == x;
        }
      }
    }
  }

  ghost predicate DistinctTimestamps(h: Heads) {
    forall x, y | x in h && y in h && h[x] == h[y] :: x == y
  }

  /** Decoding a newest-first list gives a part of the heads, and nothing it leaves out is
      newer than what it keeps, unless it shares a kept timestamp. */
  lemma DecodeEncoded(h: Heads, items: seq<Item>)
    requires NewestFirst(h, items)
    ensures var d := Decode(items);
      && (forall x | x in d :: x in h && d[x] == h[x])
      && (forall x, y | x in h && x !in d && y in d && h[x] > d[y] :: exists z | z in d :: d[z] == h[x])
      && (forall x, y | x in h && y in d && h[x] == d[y] && x != y :: Less(x, y))
  {
    hide Less, Decode, NewestFirst;
    NewestAreHeads(h, items);
    DecodeMembers(h, items);
    var d := Decode(items);
    forall x, y | x in h && y in d && h[x] == d[y] && x != y
      ensures Less(x, y)
    {
      var i :| 0 <= i < |items| && items[i].author == y;
      StandsAt(h, items, i, x);
      LessIsTotalOrder(x, y, x);
    }
    forall x, y | x in h && x !in d && y in d && h[x] > d[y]
      ensures exists z | z in d :: d[z] == h[x]
    {
      var i :| 0 <= i < |items| && items[i].author == y;
      var j := NewerIsListed(h, items, x, i);
      var z := items[j].author;
      assert z in d && d[z] == h[x];
    }
  }

  lemma StandsAt(h: Heads, items: seq<Item>, i: nat, x: Author)
    requires NewestFirst(h, items) && i < |items| && x in h && items[i].author in h && h[x] == h[items[i].author]
    ensures !Less(items[i].author, x)
  {
    hide Less, NoGap;
    assert Stands(h, items[i]);
  }

  lemma NewerIsListed(h: Heads, items: seq<Item>, x: Author, i: nat) returns (j: nat)
    requires NewestFirst(h, items) && x in h && i < |items| && items[i].timestamp < h[x]
    ensures j < i && items[j].timestamp == h[x]
  {
    hide Less, Stands;
    j :| 0 <= j < i && items[j].timestamp == h[x];
  }

  /** A complete list gives back all of the heads exactly if the timestamps are distinct. */
  lemma DecodeComplete(h: Heads, items: seq<Item>)
    requires NewestFirst(h, items) && Complete(h, items)
    ensures Decode(items) == h <==> DistinctTimestamps(h)
  {
    hide Less, Decode, NewestFirst, Complete;
    NewestAreHeads(h, items);
    DecodeMembers(h, items);
    var d := Decode(items);
    if DistinctTimestamps(h) {
      forall x | x in h
        ensures x in d
      {
        ListedAuthor(h, items, x);
      }
      assert d.Keys == h.Keys;
      assert d == h;
    } else {
      var x, y :| x in h && y in h && h[x] == h[y] && x != y;
      if x in d && y in d {
        SharedTimestamp(h, items, x, y);
        assert false;
      }
    }
  }

  lemma NewestAreHeads(h: Heads, items: seq<Item>)
    requires NewestFirst(h, items)
    ensures forall i | 0 <= i < |items| :: items[i].author in h && h[items[i].author] == items[i].timestamp
  {
    hide Less, NoGap;
  }

  lemma ListedAuthor(h: Heads, items: seq<Item>, x: Author)
    requires NewestFirst(h, items) && Complete(h, items) && DistinctTimestamps(h) && x in h
    ensures exists i :: 0 <= i < |items| && items[i].author == x
  {
    hide Less, NoGap;
    var j :| 0 <= j < |items| && items[j].timestamp == h[x];
    assert Stands(h, items[j]);
    assert items[j].author == x;
  }

  lemma SharedTimestamp(h: Heads, items: seq<Item>, x: Author, y: Author)
    requires NewestFirst(h, items) && x in h && y in h && h[x] == h[y]
    requires (exists i :: 0 <= i < |items| && items[i].author == x) && exists i :: 0 <= i < |items| && items[i].author == y
    ensures x == y
  {
    hide Less, NoGap;
    var i :| 0 <= i < |items| && items[i].author == x;
    var j :| 0 <= j < |items| && items[j].author == y;
    assert Stands(h, items[i]) && Stands(h, items[j]);
  }
}
