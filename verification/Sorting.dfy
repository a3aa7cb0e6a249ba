/** Finite sets of row identifiers can be listed in order. The table engine does this; here
    it is shown that the listings its scans are modelled by exist. */
module Sorting {
  import opened Bytes
  import opened Tables

  type Order = (RecordsId, RecordsId) -> bool

  ghost predicate IsTotalOrder(less: Order) {
    && (forall a :: !less(a, a))
    && (forall a, b, c {:trigger less(a, b), less(b, c)} :: less(a, b) && less(b, c) ==> less(a, c))
    && (forall a, b {:trigger less(a, b)} :: a == b || less(a, b) || less(b, a))
  }

  ghost predicate InOrder(ids: seq<RecordsId>, less: Order) {
    forall i, j | 0 <= i < j < |ids| :: less(ids[i], ids[j])
  }

  /** The order of the records table. */
  function ById(): Order {
    (a: RecordsId, b: RecordsId) => IdLess(a, b)
  }

  /** The order of the by-key index. */
  function ByKey(): Order {
    (a: RecordsId, b: RecordsId) => ByKeyLess(ByKeyId(a.ns, a.key, a.author), ByKeyId(b.ns, b.key, b.author))
  }

  lemma TableOrders()
    ensures IsTotalOrder(ById()) && IsTotalOrder(ByKey())
  {
    ByIdTotal();
    ByKeyTotal();
  }

  lemma ByIdTotal()
    ensures IsTotalOrder(ById())
  {
    hide Less, Rank;
    OrderFacts();
  }

  lemma ByKeyTotal()
    ensures IsTotalOrder(ByKey())
  {
    hide Less, Rank;
    OrderFacts();
  }

  lemma {:induction false} Insert(ids: seq<RecordsId>, x: RecordsId, less: Order) returns (out: seq<RecordsId>)
    requires IsTotalOrder(less) && InOrder(ids, less) && x !in ids
    ensures InOrder(out, less) && forall id :: id in out <==> id in ids || id == x
  {
    if ids == [] || less(ids[|ids| - 1], x) {
      out := ids + [x];
    } else {
      var init, last := ids[..|ids| - 1], ids[|ids| - 1];
      assert ids == init + [last];
      var rest := Insert(init, x, less);
      assert forall id | id in rest :: less(id, last);
      out := rest + [last];
    }
  }

  lemma {:induction false} Listed(s: set<RecordsId>, less: Order) returns (ids: seq<RecordsId>)
    requires IsTotalOrder(less)
    ensures InOrder(ids, less) && forall id :: id in ids <==> id in s
    decreases s
  {
    if s == {} {
      ids := [];
    } else {
      var x :| x in s;
      var rest := Listed(s - {x}, less);
      ids := Insert(rest, x, less);
    }
  }
}
