/** The cache of peers that were useful for a document. */
module Peers {
  import opened Basics
  import opened Bytes

  type Peer = Bytes

  const CACHE_SIZE: nat := 5

  datatype Row = Row(nanos: nat, peer: Peer)

  // ---- the simple model ----

  function Remove(ps: seq<Peer>, p: Peer): (r: seq<Peer>)
    ensures p !in r && forall x :: x in r <==> x in ps && x != p
  {
    if ps == [] then []
    else if ps[0] == p then Remove(ps[1..], p)
    else [ps[0]] + Remove(ps[1..], p)
  }

  /** All peers ever registered, once each, the most recently registered first. */
  function Distinct(registered: seq<Peer>): seq<Peer> {
    if registered == [] then []
    else
      var last := registered[|registered| - 1];
      [last] + Remove(Distinct(registered[..|registered| - 1]), last)
  }

  function Capped(ps: seq<Peer>): seq<Peer> {
    if |ps| <= CACHE_SIZE then ps else ps[..CACHE_SIZE]
  }

  lemma {:induction false} DistinctMeans(registered: seq<Peer>)
    ensures NoRepeats(Distinct(registered))
    ensures forall p :: p in Distinct(registered) <==> p in registered
  {
    if registered != [] {
      var init, last := registered[..|registered| - 1], registered[|registered| - 1];
      DistinctMeans(init);
      RemoveKeepsNoRepeats(Distinct(init), last);
      assert registered == init + [last];
    }
  }

  /** How many registrations there are up to the last one of the peer. */
  function LastSeen(registered: seq<Peer>, p: Peer): (n: nat)
    ensures n <= |registered|
    ensures n > 0 ==> registered[n - 1] == p
    ensures forall i | n <= i < |registered| :: registered[i] != p
  {
    if registered == [] then 0
    else if registered[|registered| - 1] == p then |registered|
    else LastSeen(registered[..|registered| - 1], p)
  }

  /** Ordered by last registration, the latest first. */
  ghost predicate LatestFirst(registered: seq<Peer>, ps: seq<Peer>) {
    ps == [] || (LatestFirst(registered, ps[1..]) && forall p | p in ps[1..] :: LastSeen(registered, p) < LastSeen(registered, ps[0]))
  }

  lemma {:induction false} DistinctNewestFirst(registered: seq<Peer>)
    ensures LatestFirst(registered, Distinct(registered))
  {
    hide Remove, LatestFirst;
    if registered == [] {
      NoneFirst();
    } else {
      var init, last := registered[..|registered| - 1], registered[|registered| - 1];
      DistinctNewestFirst(init);
      var rest := Remove(Distinct(init), last);
      RemoveKeepsOrder(init, Distinct(init), last);
      LatestFirstSnoc(init, last, rest);
      assert init + [last] == registered;
      ConsLatestFirst(registered, last, rest);
    }
  }

  lemma NoneFirst()
    ensures LatestFirst([], [])
  {
  }

  lemma ConsLatestFirst(registered: seq<Peer>, p: Peer, rest: seq<Peer>)
    requires LatestFirst(registered, rest) && forall x | x in rest :: LastSeen(registered, x) < LastSeen(registered, p)
    ensures LatestFirst(registered, [p] + rest)
  {
    hide LastSeen;
    assert ([p] + rest)[1..] == rest;
  }

  /** A registration of another peer changes nothing among these and comes after all of them. */
  lemma {:induction false} LatestFirstSnoc(registered: seq<Peer>, last: Peer, ps: seq<Peer>)
    requires LatestFirst(registered, ps) && last !in ps
    ensures LatestFirst(registered + [last], ps)
    ensures forall p | p in ps :: LastSeen(registered + [last], p) < LastSeen(registered + [last], last)
  {
    forall p | p != last
      ensures LastSeen(registered + [last], p) == LastSeen(registered, p)
    {
      assert (registered + [last])[..|registered|] == registered;
    }
    if ps != [] {
      LatestFirstSnoc(registered, last, ps[1..]);
    }
  }

  lemma {:induction false} RemoveKeepsOrder(registered: seq<Peer>, ps: seq<Peer>, p: Peer)
    requires LatestFirst(registered, ps)
    ensures LatestFirst(registered, Remove(ps, p))
  {
    hide LastSeen;
    if ps != [] {
      RemoveKeepsOrder(registered, ps[1..], p);
      if ps[0] != p {
        ConsLatestFirst(registered, ps[0], Remove(ps[1..], p));
      }
    }
  }

  lemma {:induction false} RemoveKeepsNoRepeats(ps: seq<Peer>, p: Peer)
    requires NoRepeats(ps)
    ensures NoRepeats(Remove(ps, p))
    ensures |Remove(ps, p)| == if p in ps then |ps| - 1 else |ps|
  {
    if ps != [] {
      RemoveKeepsNoRepeats(ps[1..], p);
      assert ps == [ps[0]] + ps[1..];
      assert ps[0] !in ps[1..];
    }
  }

  /** Capping before or after the newest peer is moved to the front makes no difference. */
  lemma CapThenMove(ps: seq<Peer>, p: Peer)
    requires NoRepeats(ps)
    ensures Capped([p] + Remove(ps, p)) == Capped([p] + Remove(Capped(ps), p))
    ensures p !in Capped(ps) && |Capped(ps)| == CACHE_SIZE ==> Capped([p] + Remove(ps, p)) == [p] + Capped(ps)[..CACHE_SIZE - 1]
    ensures p in Capped(ps) || |Capped(ps)| < CACHE_SIZE ==> Capped([p] + Remove(ps, p)) == [p] + Remove(Capped(ps), p)
  {
    var head, tail := Capped(ps), ps[|Capped(ps)|..];
    assert ps == head + tail;
    RemoveConcat(head, tail, p);
    RemoveKeepsNoRepeats(head, p);
    if p !in head {
      RemoveAbsent(head, p);
    }
  }

  lemma {:induction false} RemoveConcat(a: seq<Peer>, b: seq<Peer>, p: Peer)
    ensures Remove(a + b, p) == Remove(a, p) + Remove(b, p)
  {
    if a == [] {
      assert a + b == b;
    } else {
      assert (a + b)[1..] == a[1..] + b;
      RemoveConcat(a[1..], b, p);
    }
  }

  lemma {:induction false} RemoveAbsent(ps: seq<Peer>, p: Peer)
    requires p !in ps
    ensures Remove(ps, p) == ps
  {
    if ps != [] { RemoveAbsent(ps[1..], p); }
  }

  // ---- the table ----

  /** Rows are kept in the order of the table, by time and then by peer. */
  predicate RowLess(a: Row, b: Row) {
    a.nanos < b.nanos || (a.nanos == b.nanos && Less(a.peer, b.peer))
  }

  ghost predicate Ordered(rows: seq<Row>) {
    forall i, j | 0 <= i < j < |rows| :: RowLess(rows[i], rows[j])
  }

  /** The peers of one document's rows, newest first. */
  function Newest(rows: seq<Row>): (peers: seq<Peer>)
    ensures |peers| == |rows|
  {
    if rows == [] then [] else [rows[|rows| - 1].peer] + Newest(rows[..|rows| - 1])
  }

  function WithRow(rows: seq<Row>, row: Row): seq<Row> {
    if rows == [] || RowLess(rows[|rows| - 1], row) then rows + [row]
    else WithRow(rows[..|rows| - 1], row) + [rows[|rows| - 1]]
  }

  function WithoutRow(rows: seq<Row>, row: Row): seq<Row> {
    if rows == [] then []
    else WithoutRow(rows[..|rows| - 1], row) + if rows[|rows| - 1] == row then [] else [rows[|rows| - 1]]
  }

  function WithoutPeer(rows: seq<Row>, peer: Peer): seq<Row> {
    if rows == [] then []
    else WithoutPeer(rows[..|rows| - 1], peer) + if rows[|rows| - 1].peer == peer then [] else [rows[|rows| - 1]]
  }

  /** The rows that stay when a peer is registered: those of the other peers, without the
      oldest of them if they fill the cache. */
  function Kept(rows: seq<Row>, peer: Peer): seq<Row> {
    var rest := WithoutPeer(rows, peer);
    if |rest| >= CACHE_SIZE then rest[1..] else rest
  }

  lemma RowOrder(a: Row, b: Row, c: Row)
    ensures !RowLess(a, a)
    ensures RowLess(a, b) && RowLess(b, c) ==> RowLess(a, c)
    ensures a == b || RowLess(a, b) || RowLess(b, a)
  {
    hide Less;
    LessIsTotalOrder(a.peer, b.peer, c.peer);
    LessIsTotalOrder(a.peer, b.peer, a.peer);
  }

  lemma {:induction false} WithRowMeans(rows: seq<Row>, row: Row)
    requires Ordered(rows) && row !in rows
    ensures Ordered(WithRow(rows, row)) && |WithRow(rows, row)| == |rows| + 1
    ensures forall r :: r in WithRow(rows, row) <==> r in rows || r == row
    ensures (forall r | r in rows :: RowLess(r, row)) <==> WithRow(rows, row) == rows + [row]
    ensures WithRow(rows, row)[|rows|] == row <==> forall r | r in rows :: RowLess(r, row)
  {
    hide RowLess;
    if rows != [] {
      var init, last := rows[..|rows| - 1], rows[|rows| - 1];
      assert rows == init + [last];
      forall r | r in rows
        ensures RowLess(last, row) ==> RowLess(r, row)
      {
        RowOrder(r, last, row);
      }
      RowOrder(last, row, last);
      if RowLess(last, row) {
        OrderedSnoc(rows, row);
      } else {
        WithRowMeans(init, row);
        OrderedSnoc(WithRow(init, row), last);
      }
    }
  }

  lemma OrderedSnoc(rows: seq<Row>, row: Row)
    requires Ordered(rows) && forall r | r in rows :: RowLess(r, row)
    ensures Ordered(rows + [row])
  {
    hide RowLess;
  }

  lemma {:induction false} WithoutRowMeans(rows: seq<Row>, row: Row, peer: Peer)
    requires forall r | r in rows :: r.peer == peer <==> r == row
    ensures WithoutRow(rows, row) == WithoutPeer(rows, peer)
  {
    if rows != [] {
      WithoutRowMeans(rows[..|rows| - 1], row, peer);
      assert rows[|rows| - 1] in rows;
    }
  }

  lemma {:induction false} WithoutPeerMeans(rows: seq<Row>, peer: Peer)
    requires Ordered(rows)
    ensures Ordered(WithoutPeer(rows, peer))
    ensures forall r :: r in WithoutPeer(rows, peer) <==> r in rows && r.peer != peer
    ensures |WithoutPeer(rows, peer)| <= |rows|
    ensures (exists r | r in rows :: r.peer == peer) ==> |WithoutPeer(rows, peer)| < |rows|
    ensures (forall r | r in rows :: r.peer != peer) ==> WithoutPeer(rows, peer) == rows
  {
    hide RowLess;
    if rows != [] {
      var init, last := rows[..|rows| - 1], rows[|rows| - 1];
      assert rows == init + [last];
      WithoutPeerMeans(init, peer);
      var rest := WithoutPeer(init, peer);
      assert rest + [] == rest;
      OrderedSnoc(rest, last);
    }
  }

  lemma {:induction false} NewestWithoutPeer(rows: seq<Row>, peer: Peer)
    ensures Newest(WithoutPeer(rows, peer)) == Remove(Newest(rows), peer)
  {
    if rows != [] {
      var init, last := rows[..|rows| - 1], rows[|rows| - 1];
      NewestWithoutPeer(init, peer);
      var rest := WithoutPeer(init, peer);
      assert rest + [] == rest;
      NewestSnoc(rest, last);
      assert ([last.peer] + Newest(init))[1..] == Newest(init);
    }
  }

  lemma NewestSnoc(rows: seq<Row>, row: Row)
    ensures Newest(rows + [row]) == [row.peer] + Newest(rows)
  {
    assert (rows + [row])[..|rows|] == rows;
  }

  lemma {:induction false} NewestTail(rows: seq<Row>)
    requires rows != []
    ensures Newest(rows[1..]) == Newest(rows)[..|rows| - 1]
  {
    if |rows| > 1 {
      var init := rows[..|rows| - 1];
      NewestTail(init);
      assert rows[1..][..|rows| - 2] == init[1..];
    }
  }

  /** Adding a row and then evicting the oldest one read before is evicting it first. */
  lemma {:induction false} EvictCommutes(rows: seq<Row>, row: Row)
    requires rows != [] && row != rows[0] && forall i | 0 < i < |rows| :: rows[i] != rows[0]
    ensures WithoutRow(WithRow(rows, row), rows[0]) == WithRow(rows[1..], row)
  {
    hide RowLess, WithRow, WithoutRow;
    var init, last := rows[..|rows| - 1], rows[|rows| - 1];
    assert rows == init + [last];
    WithRowSnoc(init, last, row);
    if RowLess(last, row) {
      WithoutFirst(rows);
      WithoutSnoc(rows, row, rows[0]);
      WithLast(rows[1..], row);
    } else if |rows| == 1 {
      WithLast([], row);
      WithoutSnoc([row], last, rows[0]);
      WithoutSnoc([], row, rows[0]);
      WithoutNothing(rows[0]);
      assert [] + [row] == [row];
    } else {
      EvictCommutes(init, row);
      WithoutSnoc(WithRow(init, row), last, rows[0]);
      assert rows[1..] == init[1..] + [last];
      WithRowSnoc(init[1..], last, row);
    }
  }

  lemma WithRowSnoc(init: seq<Row>, last: Row, row: Row)
    ensures WithRow(init + [last], row) == if RowLess(last, row) then init + [last] + [row] else WithRow(init, row) + [last]
  {
    hide RowLess;
    assert (init + [last])[..|init|] == init;
  }

  lemma WithLast(rows: seq<Row>, row: Row)
    requires rows == [] || RowLess(rows[|rows| - 1], row)
    ensures WithRow(rows, row) == rows + [row]
  {
  }

  lemma WithoutSnoc(rows: seq<Row>, last: Row, row: Row)
    ensures WithoutRow(rows + [last], row) == WithoutRow(rows, row) + if last == row then [] else [last]
  {
    assert (rows + [last])[..|rows|] == rows;
  }

  lemma WithoutNothing(row: Row)
    ensures WithoutRow([], row) == []
  {
  }

  lemma {:induction false} WithoutFirst(rows: seq<Row>)
    requires rows != [] && forall i | 0 < i < |rows| :: rows[i] != rows[0]
    ensures WithoutRow(rows, rows[0]) == rows[1..]
  {
    var init := rows[..|rows| - 1];
    if |rows| == 1 {
      assert WithoutRow(init, rows[0]) == [];
    } else {
      WithoutFirst(init);
      assert rows[1..] == init[1..] + [rows[|rows| - 1]];
    }
  }

  ghost predicate OnePerPeer(rows: seq<Row>) {
    forall a, b | a in rows && b in rows && a.peer == b.peer :: a == b
  }

  /** The row is one of another peer that registering `peer` leaves in place: every one,
      but for the oldest if `peer` is new and the cache is full. */
  predicate Stays(rows: seq<Row>, peer: Peer, row: Row) {
    row in rows && row.peer != peer && !(|rows| >= CACHE_SIZE && peer !in Newest(rows) && row == rows[0])
  }

  lemma KeptMeans(rows: seq<Row>, peer: Peer)
    requires Ordered(rows) && |rows| <= CACHE_SIZE
    ensures Ordered(Kept(rows, peer)) && |Kept(rows, peer)| < CACHE_SIZE
    ensures forall r :: r in Kept(rows, peer) <==> Stays(rows, peer, r)
  {
    hide RowLess, WithoutPeer, Newest;
    WithoutPeerMeans(rows, peer);
    NewestMembers(rows, peer);
    if |WithoutPeer(rows, peer)| >= CACHE_SIZE {
      assert forall r | r in rows :: r.peer != peer;
      assert rows == [rows[0]] + rows[1..];
      RowOrder(rows[0], rows[0], rows[0]);
      assert rows[0] !in rows[1..];
    }
  }

  lemma {:induction false} NewestMembers(rows: seq<Row>, peer: Peer)
    ensures peer in Newest(rows) <==> exists r | r in rows :: r.peer == peer
  {
    if rows != [] {
      var init, last := rows[..|rows| - 1], rows[|rows| - 1];
      assert rows == init + [last];
      NewestMembers(init, peer);
    }
  }

  /** What the simple model shows after a registration, in terms of the rows that stay. */
  lemma KeptShows(registered: seq<Peer>, rows: seq<Row>, peer: Peer)
    requires Newest(rows) == Capped(Distinct(registered))
    ensures Capped(Distinct(registered + [peer])) == [peer] + Newest(Kept(rows, peer))
  {
    hide Newest, Remove, Distinct, WithoutPeer;
    var all, ps := Distinct(registered), Newest(rows);
    DistinctMeans(registered);
    DistinctSnoc(registered, peer);
    CapThenMove(all, peer);
    NewestWithoutPeer(rows, peer);
    CappedFacts(all);
    RemoveKeepsNoRepeats(ps, peer);
    var rest := WithoutPeer(rows, peer);
    if peer !in ps { RemoveAbsent(ps, peer); }
    if |rest| >= CACHE_SIZE { NewestTail(rest); }
  }

  lemma CappedFacts(ps: seq<Peer>)
    requires NoRepeats(ps)
    ensures NoRepeats(Capped(ps)) && |Capped(ps)| <= CACHE_SIZE
  {
  }

  lemma DistinctSnoc(registered: seq<Peer>, peer: Peer)
    ensures Distinct(registered + [peer]) == [peer] + Remove(Distinct(registered), peer)
  {
    hide Remove;
    assert (registered + [peer])[..|registered|] == registered;
  }

  /** A registration keeps the table in order with one row per peer, and shows what the
      simple model shows exactly if the new row comes last. */
  lemma Registering(registered: seq<Peer>, rows: seq<Row>, now: nat, peer: Peer)
    requires Ordered(rows) && OnePerPeer(rows) && |rows| <= CACHE_SIZE
    ensures var after := WithRow(Kept(rows, peer), Row(now, peer));
      && Ordered(after) && OnePerPeer(after) && |after| <= CACHE_SIZE
      && (forall r :: r in after <==> r == Row(now, peer) || Stays(rows, peer, r))
      && (Newest(rows) == Capped(Distinct(registered)) ==>
            (Newest(after) == Capped(Distinct(registered + [peer])) <==>
               forall r | r in rows && Stays(rows, peer, r) :: RowLess(r, Row(now, peer))))
  {
    hide Kept, WithRow, Newest, Distinct, Capped, RowLess;
    var kept, row := Kept(rows, peer), Row(now, peer);
    KeptMeans(rows, peer);
    WithRowMeans(kept, row);
    var after := WithRow(kept, row);
    if Newest(rows) == Capped(Distinct(registered)) {
      KeptShows(registered, rows, peer);
      NewestSnoc(kept, row);
      FirstIsLast(after);
      assert after[|kept|] in after;
    }
  }

  lemma FirstIsLast(rows: seq<Row>)
    requires rows != []
    ensures Newest(rows)[0] == rows[|rows| - 1].peer
  {
  }

  lemma KeptNothing(peer: Peer)
    ensures Kept([], peer) == []
  {
  }

  lemma KeptOther(rows: seq<Row>, row: Row)
    requires Ordered(rows) && OnePerPeer(rows) && |rows| <= CACHE_SIZE && row in rows
    ensures WithoutRow(rows, row) == Kept(rows, row.peer)
  {
    hide RowLess, WithoutPeer, WithoutRow;
    WithoutRowMeans(rows, row, row.peer);
    WithoutPeerMeans(rows, row.peer);
  }

  lemma KeptNew(rows: seq<Row>, row: Row)
    requires Ordered(rows) && rows != [] && forall i | 0 <= i < |rows| :: rows[i].peer != row.peer
    ensures WithRow(Kept(rows, row.peer), row) ==
      if |rows| + 1 > CACHE_SIZE then WithoutRow(WithRow(rows, row), rows[0]) else WithRow(rows, row)
  {
    hide RowLess, WithoutPeer, WithoutRow, WithRow;
    WithoutPeerMeans(rows, row.peer);
    forall i | 0 < i < |rows|
      ensures rows[i] != rows[0]
    {
      RowOrder(rows[0], rows[0], rows[0]);
    }
    EvictCommutes(rows, row);
  }

  // ---- runs of registrations ----

  datatype Registration = Registration(now: nat, peer: Peer)

  /** The table after a run of registrations. */
  function TableAfter(regs: seq<Registration>): seq<Row> {
    if regs == [] then []
    else
      var last := regs[|regs| - 1];
      WithRow(Kept(TableAfter(regs[..|regs| - 1]), last.peer), Row(last.now, last.peer))
  }

  function PeersOf(regs: seq<Registration>): seq<Peer> {
    if regs == [] then [] else PeersOf(regs[..|regs| - 1]) + [regs[|regs| - 1].peer]
  }

  /** Time strictly increases from registration to registration. */
  ghost predicate Increasing(regs: seq<Registration>) {
    forall i, j | 0 <= i < j < |regs| :: regs[i].now < regs[j].now
  }

  /** In every run, whatever the clock says: rows in table order, one per peer, no more
      than the cache holds, each the row of some registration of the run, the last one
      among them. */
  lemma {:induction false} TableInOrder(regs: seq<Registration>)
    ensures var rows := TableAfter(regs);
      && Ordered(rows) && OnePerPeer(rows) && |rows| <= 5
      && (forall r | r in rows :: Registration(r.nanos, r.peer) in regs)
      && (regs != [] ==> Row(regs[|regs| - 1].now, regs[|regs| - 1].peer) in rows)
  {
    hide WithRow, Kept, Newest, Distinct, Capped, RowLess;
    if regs != [] {
      var init, last := regs[..|regs| - 1], regs[|regs| - 1];
      assert regs == init + [last];
      TableInOrder(init);
      Registering(PeersOf(init), TableAfter(init), last.now, last.peer);
    }
  }

  /** In every run with strictly increasing time the table shows the last distinct peers
      registered, newest first, up to the cache size. */
  lemma {:induction false} TableShowsLast(regs: seq<Registration>)
    requires Increasing(regs)
    ensures Newest(TableAfter(regs)) == Capped(Distinct(PeersOf(regs)))
    ensures var all := Distinct(PeersOf(regs)); Capped(all) == if |all| <= 5 then all else all[..5]
  {
    CappedIs(Distinct(PeersOf(regs)));
    hide WithRow, Kept, Newest, Distinct, Capped, Ordered, OnePerPeer, Stays;
    if regs == [] {
      NoneRegistered();
    } else {
      var init, last := regs[..|regs| - 1], regs[|regs| - 1];
      assert regs == init + [last];
      TableShowsLast(init);
      TableInOrder(init);
      Registering(PeersOf(init), TableAfter(init), last.now, last.peer);
      forall r | r in TableAfter(init)
        ensures RowLess(r, Row(last.now, last.peer))
      {
        var i :| 0 <= i < |init| && init[i] == Registration(r.nanos, r.peer);
        assert regs[i] == init[i] && regs[|init|] == last;
      }
    }
  }

  /** With a clock that steps back it need not: two registrations, listed the wrong way
      round. */
  lemma ClockStepsBack(a: Peer, b: Peer)
    requires a != b
    ensures var regs := [Registration(10, a), Registration(5, b)];
      Newest(TableAfter(regs)) == [a, b] && Capped(Distinct(PeersOf(regs))) == [b, a]
  {
    hide WithRow, Kept, Newest, Distinct, Capped;
    var one, two := [Registration(10, a)], [Registration(10, a), Registration(5, b)];
    assert one[..0] == [] && two[..1] == one;
    assert TableAfter([]) == [] && PeersOf([]) == [];
    KeptNothing(a);
    WithLast([], Row(10, a));
    assert TableAfter(one) == [Row(10, a)] && PeersOf(one) == [a];
    OneRowKept(Row(10, a), b);
    TwoRows(Row(10, a), Row(5, b));
    TwoPeers(a, b);
    assert PeersOf(two) == [a, b];
  }

  lemma TwoRows(x: Row, y: Row)
    requires y.nanos < x.nanos
    ensures Newest(WithRow([x], y)) == [x.peer, y.peer]
  {
    hide WithRow, Newest;
    WithRowSnoc([], x, y);
    WithLast([], y);
    assert [] + [x] == [x] && [] + [y] == [y];
    NewestSnoc([], y);
    NewestSnoc([y], x);
    NoneRegistered();
  }

  lemma TwoPeers(a: Peer, b: Peer)
    requires a != b
    ensures Capped(Distinct([a, b])) == [b, a]
  {
    hide Distinct, Remove;
    NoneRegistered();
    DistinctSnoc([], a);
    DistinctSnoc([a], b);
    RemoveAbsent([], a);
    RemoveAbsent([a], b);
    assert [] + [a] == [a] && [a] + [b] == [a, b];
    assert Distinct([a]) == [a];
    assert Distinct([a, b]) == [b] + [a];
  }

  lemma OneRowKept(row: Row, peer: Peer)
    requires row.peer != peer
    ensures Kept([row], peer) == [row]
  {
    assert [row][..0] == [] && WithoutPeer([], peer) == [];
  }

  lemma NoneRegistered()
    ensures Newest([]) == [] && Distinct([]) == [] && Capped([]) == []
  {
  }

  lemma CappedIs(ps: seq<Peer>)
    ensures Capped(ps) == if |ps| <= 5 then ps else ps[..5]
  {
  }

  lemma RegisteredNext(regs: seq<Registration>, reg: Registration)
    ensures TableAfter(regs + [reg]) == WithRow(Kept(TableAfter(regs), reg.peer), Row(reg.now, reg.peer))
    ensures PeersOf(regs + [reg]) == PeersOf(regs) + [reg.peer]
  {
    hide WithRow, Kept;
    assert (regs + [reg])[..|regs|] == regs;
  }

  class PeerTable {
    var rows: seq<Row>
    ghost var history: seq<Registration>

    /** The rows are those of the recorded run of registrations. */
    ghost predicate Valid()
      reads this
    {
      rows == TableAfter(history)
    }

    constructor ()
      ensures Valid() && history == []
    {
      rows, history := [], [];
    }

    /** Register a peer for a document that exists, whatever the clock says. The row of the
        peer is new; of the others exactly those stay that `Stays` says. */
    method RegisterUsefulPeer(created: bool, now: nat, peer: Peer) returns (ok: bool)
      requires Valid()
      modifies this
      ensures Valid() && ok == created
      ensures !ok ==> history == old(history)
      ensures ok ==> history == old(history) + [Registration(now, peer)]
      ensures ok ==> forall r :: r in rows <==> r == Row(now, peer) || Stays(old(rows), peer, r)
      ensures ok && old(Newest(rows) == Capped(Distinct(PeersOf(history)))) ==>
        (Newest(rows) == Capped(Distinct(PeersOf(history))) <==>
           forall r | r in old(rows) && Stays(old(rows), peer, r) :: RowLess(r, Row(now, peer)))
    {
      if !created {
        return false;
      }
      hide *;
      TableInOrder(history);
      Registering(PeersOf(history), rows, now, peer);
      RegisteredNext(history, Registration(now, peer));
      history := history + [Registration(now, peer)];
      ok := true;
      if rows == [] {
        rows := WithRow(rows, Row(now, peer));
        KeptNothing(peer);
        return;
      }
      var oldest := rows[0];
      if oldest.peer == peer {
        KeptOther(rows, oldest);
        rows := WithoutRow(rows, oldest);
        rows := WithRow(rows, Row(now, peer));
        return;
      }
      var len, previous := CountRows(peer);
      if previous > 0 {
        var row := rows[previous];
        KeptOther(rows, row);
        rows := WithoutRow(rows, row);
        rows := WithRow(rows, Row(now, peer));
      } else {
        KeptNew(rows, Row(now, peer));
        rows := WithRow(rows, Row(now, peer));
        len := len + 1;
        if len > CACHE_SIZE {
          rows := WithoutRow(rows, oldest);
        }
      }
    }

    /** Count the rows and find one of the peer after the oldest; 0 stands for none. */
    method CountRows(peer: Peer) returns (len: nat, previous: nat)
      requires rows != [] && rows[0].peer != peer
      ensures len == |rows| && previous < |rows|
      ensures if previous > 0 then rows[previous].peer == peer else forall j | 0 <= j < |rows| :: rows[j].peer != peer
    {
      len, previous := 1, 0;
      for i := 1 to |rows|
        invariant len == i && previous < |rows|
        invariant if previous > 0 then rows[previous].peer == peer else forall j | 0 <= j < i :: rows[j].peer != peer
      {
        len := len + 1;
        if previous == 0 && rows[i].peer == peer {
          previous := i;
        }
      }
    }

    method GetSyncPeers() returns (peers: Option<seq<Peer>>)
      ensures peers.None? <==> rows == []
      ensures peers.Some? ==> peers.value == Newest(rows)
      ensures Valid() && Increasing(history) && peers.Some? ==> peers.value == Capped(Distinct(PeersOf(history)))
    {
      hide Capped, Distinct, TableAfter, PeersOf, Increasing;
      if Valid() && Increasing(history) { TableShowsLast(history); }
      var found: seq<Peer> := [];
      var i := |rows|;
      assert rows[..i] == rows;
      while i > 0
        invariant 0 <= i <= |rows| && |found| == |rows| - i && Newest(rows) == found + Newest(rows[..i])
      {
        assert rows[..i][..i - 1] == rows[..i - 1];
        i := i - 1;
        found := found + [rows[i].peer];
      }
      return if found == [] then None else Some(found);
    }
  }
}
