/** What a fingerprint is: the exclusive or of the hashes of a set of entries. Hence what it
    tells apart, and exactly when two views collide. */
module Fingerprints {
  import opened Basics
  import opened Bytes
  import opened Entries
  import opened Puts
  import opened Ranges
  import opened Reconcile
  import Session
  import Traffic

  const ZERO: Fp := 0

  // ---- exclusive or is an abelian group in which every element is its own inverse ----

  lemma XorComm(a: Fp, b: Fp)
    ensures Xor(a, b) == Xor(b, a)
  {
  }

  lemma XorAssoc(a: Fp, b: Fp, c: Fp)
    ensures Xor(Xor(a, b), c) == Xor(a, Xor(b, c))
  {
    hide Xor;
    XorFirst(a, b, c);
    XorBits(a, b, c);
    XorSecond(a, b, c);
  }

  lemma XorFirst(a: Fp, b: Fp, c: Fp)
    ensures Xor(Xor(a, b), c) == Xor(a ^ b, c)
  {
    hide Xor;
    XorIs(a, b);
  }

  lemma XorBits(a: Fp, b: Fp, c: Fp)
    ensures Xor(a ^ b, c) == Xor(a, b ^ c)
  {
  }

  lemma XorSecond(a: Fp, b: Fp, c: Fp)
    ensures Xor(a, Xor(b, c)) == Xor(a, b ^ c)
  {
    hide Xor;
    XorIs(b, c);
  }

  lemma XorIs(a: Fp, b: Fp)
    ensures Xor(a, b) == a ^ b
  {
  }

  lemma XorGroup(a: Fp)
    ensures Xor(a, ZERO) == a && Xor(ZERO, a) == a && Xor(a, a) == ZERO
  {
  }

  /** Two values are equal exactly if they fold to zero. */
  lemma XorZero(a: Fp, b: Fp)
    ensures Xor(a, b) == ZERO <==> a == b
  {
    hide Xor;
    XorGroup(a);
    XorGroup(b);
    XorAssoc(a, b, b);
  }

  /** A factor on both sides cancels. */
  lemma XorCancel(a: Fp, b: Fp, c: Fp)
    ensures Xor(Xor(a, c), Xor(b, c)) == Xor(a, b)
  {
    hide Xor;
    XorComm(b, c);
    XorAssoc(a, c, Xor(c, b));
    XorAssoc(c, c, b);
    XorGroup(c);
    XorGroup(b);
  }

  lemma XorSwap(a: Fp, b: Fp, c: Fp)
    ensures Xor(Xor(a, b), c) == Xor(Xor(a, c), b)
  {
    hide Xor;
    XorAssoc(a, b, c);
    XorAssoc(a, c, b);
    XorComm(b, c);
  }

  // ---- one fingerprint ----

  /** The fingerprint of the empty set and the hash of an empty record are one value. */
  lemma EmptyIsEmpty()
    ensures EMPTY_FP as int == EMPTY_HASH
  {
  }

  /** Nothing has the fingerprint of the empty set; one more entry changes a fingerprint
      exactly if its hash is not zero; the same entry twice cancels. */
  lemma FingerprintSteps(hash: Entry -> Fp, v: View, e: Entry)
    ensures Fingerprint(hash, []) == EMPTY_FP
    ensures Fingerprint(hash, v + [e]) != Fingerprint(hash, v) <==> hash(e) != ZERO
    ensures Fingerprint(hash, v + [e] + [e]) == Fingerprint(hash, v)
  {
    hide Xor;
    var fp, h := Fingerprint(hash, v), hash(e);
    assert (v + [e])[..|v|] == v && (v + [e] + [e])[..|v| + 1] == v + [e];
    XorAssoc(fp, h, h);
    XorGroup(h);
    XorGroup(fp);
    if Xor(fp, h) == fp {
      XorComm(fp, h);
      XorAssoc(h, fp, fp);
      XorGroup(fp);
    }
  }

  /** The hashes of a set of entries, folded. */
  ghost function SetHash(hash: Entry -> Fp, s: set<Entry>): Fp {
    if s == {} then ZERO
    else
      var e :| e in s;
      Xor(SetHash(hash, s - {e}), hash(e))
  }

  /** In whatever order. */
  lemma {:induction false} SetHashTakes(hash: Entry -> Fp, s: set<Entry>, e: Entry)
    requires e in s
    ensures SetHash(hash, s) == Xor(SetHash(hash, s - {e}), hash(e))
    decreases s
  {
    hide Xor;
    var f :| f in s && SetHash(hash, s) == Xor(SetHash(hash, s - {f}), hash(f));
    if e != f {
      SetHashTakes(hash, s - {f}, e);
      SetHashTakes(hash, s - {e}, f);
      assert s - {f} - {e} == s - {e} - {f};
      XorSwap(SetHash(hash, s - {f} - {e}), hash(e), hash(f));
    }
  }

  lemma {:induction false} SetHashUnion(hash: Entry -> Fp, s: set<Entry>, t: set<Entry>)
    requires s !! t
    ensures SetHash(hash, s + t) == Xor(SetHash(hash, s), SetHash(hash, t))
    decreases t
  {
    hide Xor, SetHash;
    if t == {} {
      SetHashEmpty(hash);
      assert s + t == s;
      XorGroup(SetHash(hash, s));
    } else {
      var e :| e in t;
      SetHashUnion(hash, s, t - {e});
      SetHashTakes(hash, s + t, e);
      SetHashTakes(hash, t, e);
      assert s + t - {e} == s + (t - {e});
      XorAssoc(SetHash(hash, s), SetHash(hash, t - {e}), hash(e));
    }
  }

  lemma SetHashEmpty(hash: Entry -> Fp)
    ensures SetHash(hash, {}) == ZERO
  {
  }

  /** The fingerprint of a listing without repeats is that of the empty set with the hashes
      of its entries folded in: it depends on which entries are listed, not on their order. */
  lemma {:induction false} FingerprintIsSetHash(hash: Entry -> Fp, v: View)
    requires NoRepeats(v)
    ensures Fingerprint(hash, v) == Xor(EMPTY_FP, SetHash(hash, Elements(v)))
  {
    hide Xor, SetHash;
    if v == [] {
      SetHashEmpty(hash);
      assert Elements(v) == {};
      XorGroup(EMPTY_FP);
    } else {
      var init, last := v[..|v| - 1], v[|v| - 1];
      FingerprintIsSetHash(hash, init);
      assert v == init + [last];
      assert last !in init;
      assert Elements(v) - {last} == Elements(init);
      SetHashTakes(hash, Elements(v), last);
      XorAssoc(EMPTY_FP, SetHash(hash, Elements(init)), hash(last));
    }
  }

  lemma FingerprintOrder(hash: Entry -> Fp, v: View, w: View)
    requires NoRepeats(v) && NoRepeats(w) && Elements(v) == Elements(w)
    ensures Fingerprint(hash, v) == Fingerprint(hash, w)
  {
    hide Fingerprint, SetHash, Xor;
    FingerprintIsSetHash(hash, v);
    FingerprintIsSetHash(hash, w);
  }

  // ---- two fingerprints ----

  /** The entries of one view and not of the other. */
  ghost function Difference(a: View, b: View): set<Entry> {
    (Elements(a) - Elements(b)) + (Elements(b) - Elements(a))
  }

  /** Two views have one fingerprint if and only if the hashes of what they differ in fold
      to zero. */
  lemma EqualIffFoldsToZero(hash: Entry -> Fp, a: View, b: View)
    requires Sorted(a) && Sorted(b)
    ensures Fingerprint(hash, a) == Fingerprint(hash, b) <==> SetHash(hash, Difference(a, b)) == ZERO
  {
    hide Xor, SetHash, Fingerprint, Elements;
    Session.SortedNoRepeats(a);
    Session.SortedNoRepeats(b);
    FingerprintIsSetHash(hash, a);
    FingerprintIsSetHash(hash, b);
    var sa, sb := Elements(a), Elements(b);
    var both := sa * sb;
    assert sa == (sa - sb) + both && sb == (sb - sa) + both;
    SetHashUnion(hash, sa - sb, both);
    SetHashUnion(hash, sb - sa, both);
    SetHashUnion(hash, sa - sb, sb - sa);
    XorCancel(SetHash(hash, sa - sb), SetHash(hash, sb - sa), SetHash(hash, both));
    XorZero(SetHash(hash, sa), SetHash(hash, sb));
    XorComm(EMPTY_FP, SetHash(hash, sa));
    XorComm(EMPTY_FP, SetHash(hash, sb));
    XorCancel(SetHash(hash, sa), SetHash(hash, sb), EMPTY_FP);
    XorZero(Fingerprint(hash, a), Fingerprint(hash, b));
  }

  lemma NoDifference(a: View, b: View)
    requires Sorted(a) && Sorted(b)
    ensures Difference(a, b) == {} <==> a == b
  {
    if Difference(a, b) == {} {
      forall e
        ensures e in a <==> e in b
      {
        assert e in Elements(a) - Elements(b) <==> e in a && e !in b;
        assert e in Elements(b) - Elements(a) <==> e in b && e !in a;
        assert e !in Difference(a, b);
      }
      SortedViewsEqual(a, b);
    }
  }

  /** If the views differ in the range, the hashes of the difference do not fold to zero. */
  ghost predicate ToldApart(p: Protocol, a: View, b: View, r: Range) {
    var differing := Difference(InRange(a, r), InRange(b, r));
    differing != {} ==> SetHash(p.hash, differing) != ZERO
  }

  /** The hypothesis of convergence, exactly: no range in which the views differ has
      differences whose hashes fold to zero. */
  lemma NoCollisionExactly(p: Protocol, a: View, b: View)
    requires Sorted(a) && Sorted(b)
    ensures Session.NoCollision(p, a, b) <==> forall r: Range :: ToldApart(p, a, b, r)
  {
    hide InRange, SetHash, Fingerprint, Difference;
    forall r: Range
      ensures ToldApart(p, a, b, r) <==>
        (Fingerprint(p.hash, InRange(a, r)) == Fingerprint(p.hash, InRange(b, r)) ==> InRange(a, r) == InRange(b, r))
    {
      InRangeSorted(a, r);
      InRangeSorted(b, r);
      EqualIffFoldsToZero(p.hash, InRange(a, r), InRange(b, r));
      NoDifference(InRange(a, r), InRange(b, r));
    }
    if forall r: Range :: ToldApart(p, a, b, r) {
      forall r: Range
        ensures Fingerprint(p.hash, InRange(a, r)) == Fingerprint(p.hash, InRange(b, r)) ==> InRange(a, r) == InRange(b, r)
      {
        assert ToldApart(p, a, b, r);
      }
    }
  }

  /** It can be met: views one entry apart, with a hash that is not zero. */
  lemma OneApart(p: Protocol, a: View, b: View, e: Entry)
    requires Sorted(a) && Sorted(b) && Elements(b) == Elements(a) + {e} && e !in a && p.hash(e) != ZERO
    ensures Session.NoCollision(p, a, b)
  {
    hide InRange, SetHash, Contains, Xor;
    NoCollisionExactly(p, a, b);
    SetHashTakes(p.hash, {e}, e);
    SetHashEmpty(p.hash);
    XorGroup(p.hash(e));
    assert {e} - {e} == {};
    forall r: Range
      ensures ToldApart(p, a, b, r)
    {
      forall f
        ensures f in Difference(InRange(a, r), InRange(b, r)) ==> f == e
      {
        InRangeMembers(a, r, f);
        InRangeMembers(b, r, f);
        assert f in Elements(b) <==> f in Elements(a) + {e};
      }
      var differing := Difference(InRange(a, r), InRange(b, r));
      assert differing == {} || differing == {e};
    }
  }

  /** So a fingerprint is left unanswered if and only if the hashes of what the two sides
      hold differently in its range fold to zero. */
  lemma SilentExactly(p: Protocol, theirs: View, ours: View, r: Range)
    requires Sorted(theirs) && Sorted(ours) && p.config.splitFactor >= 2
    ensures AnswerFingerprint(p, ours, r, Fingerprint(p.hash, InRange(theirs, r))) == [] <==>
      SetHash(p.hash, Difference(InRange(theirs, r), InRange(ours, r))) == ZERO
  {
    hide InRange, SetHash, Fingerprint, AnswerFingerprint, Difference;
    InRangeSorted(theirs, r);
    InRangeSorted(ours, r);
    Traffic.SilentIffEqual(p, ours, r, Fingerprint(p.hash, InRange(theirs, r)));
    EqualIffFoldsToZero(p.hash, InRange(theirs, r), InRange(ours, r));
  }
}
