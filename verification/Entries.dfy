/** Records, entries and the rule by which one entry supersedes another. */
module Entries {
  import opened Bytes

  /** The data part of an entry, up to what its order and its fingerprint see:
      the content length is not part of either. The hash is the 32-byte content
      hash read as a big-endian number. */
  datatype Record = Record(timestamp: nat, hash: nat)

  /** BLAKE3 of the empty byte string: the content hash of a tombstone. */
  const EMPTY_HASH: nat := 0xaf1349b9f5f9a1a6a0404dea36dcc9499bcb25c9adc112b7cc9a93cae41f3262

  predicate IsEmpty(r: Record) {
    r.hash == EMPTY_HASH
  }

  /** First the timestamp, then the content hash. */
  predicate AtMost(a: Record, b: Record) {
    a.timestamp < b.timestamp || (a.timestamp == b.timestamp && a.hash <= b.hash)
  }

  datatype Entry = Entry(key: Bytes, value: Record)

  /** `e` supersedes `f`: its key is a prefix of f's key (or equal to it), and its
      value is at least as large. */
  predicate Supersedes(e: Entry, f: Entry) {
    e.key <= f.key && AtMost(f.value, e.value)
  }

  predicate StrictlySupersedes(e: Entry, f: Entry) {
    e != f && Supersedes(e, f)
  }

  lemma SupersedesIsPartialOrder(e: Entry, f: Entry, g: Entry)
    ensures Supersedes(e, e)
    ensures Supersedes(e, f) && Supersedes(f, e) ==> e == f
    ensures Supersedes(e, f) && Supersedes(f, g) ==> Supersedes(e, g)
  {
    if e.key <= f.key && f.key <= e.key {
      assert e.key == f.key;
    }
  }

  /** The entries of `s` that nothing else in `s` supersedes. */
  ghost function Maximal(s: set<Entry>): set<Entry> {
    set e | e in s && forall f | f in s :: !StrictlySupersedes(f, e)
  }

  ghost predicate Antichain(s: set<Entry>) {
    forall e, f | e in s && f in s :: !StrictlySupersedes(f, e)
  }

  /** Every entry of a finite set is superseded by a maximal one. */
  lemma {:induction false} MaximalAbove(s: set<Entry>, e: Entry) returns (top: Entry)
    requires e in s
    ensures top in Maximal(s) && Supersedes(top, e)
    decreases s
  {
    SupersedesIsPartialOrder(e, e, e);
    if f :| f in s && StrictlySupersedes(f, e) {
      top := MaximalAbove(s - {e}, f);
      SupersedesIsPartialOrder(top, f, e);
      forall g | g in s
        ensures !StrictlySupersedes(g, top)
      {
        if g == e && Supersedes(e, top) {
          SupersedesIsPartialOrder(top, e, f);
          SupersedesIsPartialOrder(f, top, e);
          SupersedesIsPartialOrder(f, e, top);
          assert false;
        }
      }
    } else {
      top := e;
    }
  }

  /** Superseded entries may be forgotten early or late: taking maxima is
      insensitive to having taken them before. */
  lemma MaximalAbsorbs(s: set<Entry>, t: set<Entry>)
    ensures Maximal(Maximal(s) + t) == Maximal(s + t)
  {
    forall e | e in Maximal(Maximal(s) + t)
      ensures e in Maximal(s + t)
    {
      forall f | f in s + t
        ensures !StrictlySupersedes(f, e)
      {
        if f in s && StrictlySupersedes(f, e) {
          var top := MaximalAbove(s, f);
          SupersedesIsPartialOrder(top, f, e);
          SupersedesIsPartialOrder(f, e, f);
          assert false;
        }
      }
    }
  }

  /** Adding entries that are superseded already changes no maximum. */
  lemma MaximalIgnoresSuperseded(s: set<Entry>, t: set<Entry>)
    requires forall e | e in t :: exists f | f in s :: Supersedes(f, e)
    ensures Maximal(s + t) == Maximal(s)
  {
    forall e | e in s + t
      ensures e in Maximal(s + t) <==> e in Maximal(s)
    {
      if e in Maximal(s) {
        forall g | g in t
          ensures !StrictlySupersedes(g, e)
        {
          if StrictlySupersedes(g, e) {
            var f :| f in s && Supersedes(f, g);
            SupersedesIsPartialOrder(f, g, e);
            SupersedesIsPartialOrder(g, e, g);
            assert false;
          }
        }
      }
    }
  }
}
