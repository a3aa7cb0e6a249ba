/** Byte strings, their lexicographic order and their prefix relation.

    Record identifiers are compared as plain byte strings, so this order is the
    one every range of the reconciliation protocol is built on. `Rank` places the
    byte strings on the unit interval without changing their order, which turns
    reasoning about wrap-around ranges into linear arithmetic. */
module Bytes {

  type byte = b: int | 0 <= b < 256

  type Bytes = seq<byte>

  /** Lexicographic order; a proper prefix comes before its extensions. */
  predicate Less(a: Bytes, b: Bytes) {
    b != [] && (a == [] || a[0] < b[0] || (a[0] == b[0] && Less(a[1..], b[1..])))
  }

  predicate Leq(a: Bytes, b: Bytes) {
    a == b || Less(a, b)
  }

  function Repeat(b: byte, n: nat): (s: Bytes)
    ensures |s| == n && forall i | 0 <= i < n :: s[i] == b
  {
    if n == 0 then [] else Repeat(b, n - 1) + [b]
  }

  /** An order embedding of the byte strings into [0, 1). */
  ghost function Rank(a: Bytes): (r: real)
    ensures 0.0 <= r < 1.0
  {
    if a == [] then 0.0 else (a[0] as real + 1.0 + Rank(a[1..])) / 257.0
  }

  lemma {:induction false} RankOrders(a: Bytes, b: Bytes)
    ensures Less(a, b) <==> Rank(a) < Rank(b)
    ensures Rank(a) == Rank(b) ==> a == b
  {
    if a != [] && b != [] {
      RankOrders(a[1..], b[1..]);
      if a[0] == b[0] {
        assert a == [a[0]] + a[1..] && b == [b[0]] + b[1..];
      } else if a[0] < b[0] {
        assert a[0] as real + 1.0 <= b[0] as real;
      } else {
        assert b[0] as real + 1.0 <= a[0] as real;
      }
    }
  }

  /** `RankOrders` for all pairs at once. */
  lemma OrderFacts()
    ensures forall a: Bytes, b: Bytes {:trigger Less(a, b)} :: Less(a, b) <==> Rank(a) < Rank(b)
    ensures forall a: Bytes, b: Bytes {:trigger Rank(a), Rank(b)} :: Rank(a) == Rank(b) ==> a == b
  {
    forall a: Bytes, b: Bytes
      ensures (Less(a, b) <==> Rank(a) < Rank(b)) && (Rank(a) == Rank(b) ==> a == b)
    {
      RankOrders(a, b);
    }
  }

  /** `Less` is a strict total order. */
  lemma LessIsTotalOrder(a: Bytes, b: Bytes, c: Bytes)
    ensures !Less(a, a)
    ensures Less(a, b) && Less(b, c) ==> Less(a, c)
    ensures a == b || Less(a, b) || Less(b, a)
  {
    RankOrders(a, a);
    RankOrders(a, b);
    RankOrders(b, a);
    RankOrders(b, c);
    RankOrders(a, c);
  }
}
