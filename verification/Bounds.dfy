/** Key bounds on the record tables: byte-string increment and what the bounds built
    from it reach. */
module Bounds {
  import opened Bytes

  /** The byte string plus one at the same length, and whether it did not overflow. */
  function Increment(b: Bytes): (r: (bool, Bytes))
    ensures |r.1| == |b|
  {
    if b == [] then (false, [])
    else
      var (ok, rest) := Increment(b[1..]);
      if ok then (true, [b[0]] + rest)
      else if b[0] != 255 then (true, [b[0] + 1] + rest)
      else (false, [0] + rest)
  }

  predicate AllMax(b: Bytes) {
    forall i | 0 <= i < |b| :: b[i] == 255
  }

  lemma {:induction false} IncrementMax(b: Bytes)
    ensures Increment(b).0 <==> !AllMax(b)
    ensures !Increment(b).0 ==> Increment(b).1 == Repeat(0, |b|)
  {
    if b != [] {
      IncrementMax(b[1..]);
      assert b == [b[0]] + b[1..];
      assert AllMax(b) <==> b[0] == 255 && AllMax(b[1..]);
    }
  }

  lemma {:induction false} IncrementTail(x: Bytes, y: Bytes)
    requires Increment(y).0
    ensures Increment(x + y) == (true, x + Increment(y).1)
  {
    if x == [] {
      assert x + y == y && x + Increment(y).1 == Increment(y).1;
    } else {
      assert (x + y)[1..] == x[1..] + y;
      IncrementTail(x[1..], y);
      assert [x[0]] + (x[1..] + Increment(y).1) == x + Increment(y).1;
    }
  }

  /** Increment in place, from the last byte backwards. */
  method IncrementByOne(value: array<byte>) returns (ok: bool)
    modifies value
    ensures (ok, value[..]) == Increment(old(value[..]))
  {
    ghost var before := value[..];
    var i := value.Length;
    while i > 0
      invariant 0 <= i <= value.Length
      invariant value[..i] == before[..i] && AllMax(before[i..])
      invariant forall j | i <= j < value.Length :: value[j] == 0
    {
      i := i - 1;
      if value[i] != 255 {
        assert before[i] == before[..i + 1][i] == value[..i + 1][i];
        IncrementAt(before, i);
        value[i] := value[i] + 1;
        ghost var zeros := Repeat(0, value.Length - i - 1);
        assert value[..i] == before[..i] && value[i] == before[i] + 1 && value[i + 1..] == zeros;
        assert value[..] == before[..i] + ([before[i] + 1] + zeros);
        return true;
      }
      assert before[i..] == [before[..i + 1][i]] + before[i + 1..];
      value[i] := 0;
    }
    IncrementMax(before);
    assert before[0..] == before;
    assert value[..] == Repeat(0, value.Length);
    return false;
  }

  lemma IncrementAt(b: Bytes, i: nat)
    requires i < |b| && b[i] != 255 && AllMax(b[i + 1..])
    ensures Increment(b) == (true, b[..i] + ([b[i] + 1] + Repeat(0, |b| - i - 1)))
  {
    hide Increment, AllMax;
    var tail := b[i..];
    assert tail[1..] == b[i + 1..] && b[..i] + tail == b;
    IncrementFirst(tail);
    IncrementTail(b[..i], tail);
  }

  lemma IncrementFirst(b: Bytes)
    requires b != [] && b[0] != 255 && AllMax(b[1..])
    ensures Increment(b) == (true, [b[0] + 1] + Repeat(0, |b| - 1))
  {
    hide AllMax;
    IncrementMax(b[1..]);
  }

  /** The number of trailing 255 bytes. */
  function TrailingMax(p: Bytes): (m: nat)
    ensures m <= |p|
  {
    if p == [] || p[|p| - 1] != 255 then 0 else 1 + TrailingMax(p[..|p| - 1])
  }

  /** For a prefix q ++ [b] ++ 255^m with b < 255 and m >= 1: the keys
      q ++ [b + 1] ++ 0^j with j < m. */
  predicate Stray(p: Bytes, k: Bytes) {
    var m := TrailingMax(p);
    && 0 < m < |p|
    && var q := |p| - m - 1;
       && q < |k| < |p|
       && p[q] < 255
       && k == p[..q] + [p[q] + 1] + Repeat(0, |k| - q - 1)
  }

  lemma {:induction false} TrailingMaxCons(c: byte, p: Bytes)
    ensures TrailingMax(p) == |p| <==> AllMax(p)
    ensures TrailingMax([c] + p) == if !AllMax(p) || c != 255 then TrailingMax(p) else |p| + 1
  {
    if p != [] {
      var init := p[..|p| - 1];
      TrailingMaxCons(c, init);
      assert p == init + [p[|p| - 1]];
      assert ([c] + p)[..|p|] == [c] + init;
      assert AllMax(p) <==> AllMax(init) && p[|p| - 1] == 255;
    } else {
      assert ([c] + p)[..0] == [];
    }
  }

  lemma {:induction false} MaxIsTop(p: Bytes, k: Bytes)
    requires AllMax(p)
    ensures Leq(p, k) <==> p <= k
  {
    if p != [] && k != [] {
      MaxIsTop(p[1..], k[1..]);
      assert p == [p[0]] + p[1..] && k == [k[0]] + k[1..];
      assert p <= k <==> p[0] == k[0] && p[1..] <= k[1..];
    }
  }

  lemma {:induction false} BelowZeros(k: Bytes, n: nat)
    ensures Less(k, Repeat(0, n)) <==> |k| < n && k == Repeat(0, |k|)
  {
    if n > 0 && k != [] {
      assert Repeat(0, n) == [0] + Repeat(0, n - 1);
      BelowZeros(k[1..], n - 1);
      assert k == [k[0]] + k[1..];
      assert Repeat(0, |k|) == [0] + Repeat(0, |k| - 1);
    }
  }

  lemma StrayCons(c: byte, p: Bytes, k: Bytes)
    requires !AllMax(p)
    ensures Stray([c] + p, [c] + k) <==> Stray(p, k)
    ensures forall l: Bytes :: Stray([c] + p, l) ==> l != [] && l[0] == c
  {
    TrailingMaxCons(c, p);
    var m, q := TrailingMax(p), |p| - TrailingMax(p) - 1;
    var cp := [c] + p;
    assert cp[..q + 1] == [c] + p[..q];
    assert cp[q + 1] == p[q];
    if q < |k| && p[q] < 255 {
      var tail := [p[q] + 1] + Repeat(0, |k| - q - 1);
      assert [c] + k == [c] + p[..q] + tail <==> k == p[..q] + tail by {
        assert [c] + p[..q] + tail == [c] + (p[..q] + tail);
        assert ([c] + k)[1..] == k && ([c] + (p[..q] + tail))[1..] == p[..q] + tail;
      }
      assert [c] + p[..q] + [p[q] + 1] + Repeat(0, |k| - q - 1) == [c] + p[..q] + tail;
      assert p[..q] + [p[q] + 1] + Repeat(0, |k| - q - 1) == p[..q] + tail;
    }
  }

  /** Exact reach of a prefix bound: the keys between a prefix and its increment are
      those with the prefix, and the strays. */
  lemma {:induction false} PrefixReach(p: Bytes, k: Bytes)
    requires !AllMax(p)
    ensures Leq(p, k) && Less(k, Increment(p).1) <==> p <= k || Stray(p, k)
  {
    if k != [] {
      if AllMax(p[1..]) {
        PrefixReachLast(p, k);
      } else {
        PrefixReach(p[1..], k[1..]);
        PrefixReachCons(p, k);
      }
    }
  }

  lemma PrefixReachCons(p: Bytes, k: Bytes)
    requires p != [] && !AllMax(p[1..]) && k != []
    requires Leq(p[1..], k[1..]) && Less(k[1..], Increment(p[1..]).1) <==> p[1..] <= k[1..] || Stray(p[1..], k[1..])
    ensures Leq(p, k) && Less(k, Increment(p).1) <==> p <= k || Stray(p, k)
  {
    hide Stray, AllMax, Less;
    var c, rest, k', next := p[0], p[1..], k[1..], Increment(p).1;
    assert p == [c] + rest && k == [k[0]] + k';
    IncrementMax(rest);
    assert next[0] == c && next[1..] == Increment(rest).1;
    LessStep(p, k);
    LessStep(k, next);
    StrayCons(c, rest, k');
    assert p <= k <==> c == k[0] && rest <= k';
  }

  lemma LessStep(a: Bytes, b: Bytes)
    requires a != [] && b != []
    ensures Less(a, b) <==> a[0] < b[0] || (a[0] == b[0] && Less(a[1..], b[1..]))
    ensures a == b <==> a[0] == b[0] && a[1..] == b[1..]
  {
    assert a == [a[0]] + a[1..] && b == [b[0]] + b[1..];
  }

  lemma PrefixReachLast(p: Bytes, k: Bytes)
    requires !AllMax(p) && AllMax(p[1..]) && k != []
    ensures Leq(p, k) && Less(k, Increment(p).1) <==> p <= k || Stray(p, k)
  {
    hide Stray;
    var c, rest, k', next := p[0], p[1..], k[1..], Increment(p).1;
    assert p == [c] + rest && k == [k[0]] + k';
    IncrementMax(rest);
    StrayOfMaxTail(p, k);
    assert next[0] == c + 1 && next[1..] == Repeat(0, |rest|);
    MaxIsTop(rest, k');
    BelowZeros(k', |rest|);
    assert p <= k <==> c == k[0] && rest <= k';
  }

  lemma StrayOfMaxTail(p: Bytes, k: Bytes)
    requires !AllMax(p) && AllMax(p[1..]) && k != []
    ensures p[0] < 255
    ensures Stray(p, k) <==> k[0] == p[0] + 1 && |k| < |p| && k[1..] == Repeat(0, |k| - 1)
  {
    assert p == [p[0]] + p[1..];
    TrailingMaxCons(p[0], p[1..]);
    assert k == [k[0]] + k[1..];
    if p[0] < 255 {
      assert p[..0] + [p[0] + 1] + Repeat(0, |k| - 1) == [p[0] + 1] + Repeat(0, |k| - 1);
    }
  }
}
