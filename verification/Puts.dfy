/** Insertion with prefix pruning, against the contract of the ranger store trait. */
module Puts {
  import opened Bytes
  import opened Entries

  /** What a contract store holds: one record per key. */
  type Contents = map<Bytes, Record>

  ghost function EntriesOf(m: Contents): set<Entry> {
    set k | k in m :: Entry(k, m[k])
  }

  predicate Holds(m: Contents, e: Entry) {
    e.key in m && m[e.key] == e.value
  }

  lemma EntriesDetermineContents(m: Contents, n: Contents)
    requires EntriesOf(m) == EntriesOf(n)
    ensures m == n
  {
    forall k
      ensures k in m <==> k in n
      ensures k in m ==> m[k] == n[k]
    {
      if k in m { assert Entry(k, m[k]) in EntriesOf(n); }
      if k in n { assert Entry(k, n[k]) in EntriesOf(m); }
    }
  }

  /** No stored entry at the key or at a prefix of it is at least as large. */
  predicate WouldInsert(m: Contents, e: Entry) {
    forall k | k in m && k <= e.key :: !AtMost(e.value, m[k])
  }

  /** Drop everything at or below `e.key` that is not larger than `e`. */
  function Pruned(m: Contents, e: Entry): Contents {
    map k | k in m && !(e.key <= k && AtMost(m[k], e.value)) :: m[k]
  }

  function Put(m: Contents, e: Entry): Contents {
    if WouldInsert(m, e) then Pruned(m, e)[e.key := e.value] else m
  }

  function PutAll(m: Contents, es: seq<Entry>): Contents {
    if es == [] then m else Put(PutAll(m, es[..|es| - 1]), es[|es| - 1])
  }

  ghost function Elements(es: seq<Entry>): set<Entry> {
    set e | e in es
  }

  /** One `put` keeps exactly the entries nothing else supersedes. */
  lemma PutIsMaximal(m: Contents, e: Entry)
    requires Antichain(EntriesOf(m))
    ensures EntriesOf(Put(m, e)) == Maximal(EntriesOf(m) + {e})
    ensures Antichain(EntriesOf(Put(m, e)))
  {
    var all := EntriesOf(m) + {e};
    if WouldInsert(m, e) {
      forall f | f in all
        ensures f in EntriesOf(Put(m, e)) <==> f in Maximal(all)
      {
        if f == e {
          assert Holds(Put(m, e), e);
          assert forall g | g in EntriesOf(m) :: !Supersedes(g, e);
        } else {
          assert Holds(m, f);
          assert f in EntriesOf(Put(m, e)) <==> Holds(Put(m, e), f);
          assert f.key == e.key ==> Supersedes(e, f);
          assert Holds(Put(m, e), f) <==> !Supersedes(e, f);
        }
      }
    } else {
      var k :| k in m && k <= e.key && AtMost(e.value, m[k]);
      var f := Entry(k, m[k]);
      assert f in EntriesOf(m) && Supersedes(f, e);
      MaximalIgnoresSuperseded(EntriesOf(m), {e});
    }
    assert EntriesOf(Put(m, e)) == Maximal(all);
  }

  /** After any sequence of puts the store holds exactly the maximal entries of
      what it started with and what was put. */
  lemma {:induction false} PutAllIsMaximal(m: Contents, es: seq<Entry>)
    requires Antichain(EntriesOf(m))
    ensures EntriesOf(PutAll(m, es)) == Maximal(EntriesOf(m) + Elements(es))
    ensures Antichain(EntriesOf(PutAll(m, es)))
  {
    if es == [] {
      assert Elements(es) == {};
      assert Maximal(EntriesOf(m) + {}) == EntriesOf(m);
    } else {
      var init, last := es[..|es| - 1], es[|es| - 1];
      PutAllIsMaximal(m, init);
      PutIsMaximal(PutAll(m, init), last);
      MaximalAbsorbs(EntriesOf(m) + Elements(init), {last});
      assert Elements(es) == Elements(init) + {last};
      assert EntriesOf(m) + Elements(init) + {last} == EntriesOf(m) + Elements(es);
    }
  }

  /** Order and repetition of insertions do not matter. */
  lemma PutOrderIndependent(m: Contents, es: seq<Entry>, fs: seq<Entry>)
    requires Antichain(EntriesOf(m))
    requires Elements(es) == Elements(fs)
    ensures PutAll(m, es) == PutAll(m, fs)
  {
    PutAllIsMaximal(m, es);
    PutAllIsMaximal(m, fs);
    EntriesDetermineContents(PutAll(m, es), PutAll(m, fs));
  }

  // ---- what wins, in timestamps ----

  /** First by time, then by content hash. */
  predicate Older(a: Record, b: Record) {
    a.timestamp < b.timestamp || (a.timestamp == b.timestamp && a.hash < b.hash)
  }

  /** A put later than everything at its key and above it is taken, whatever the hashes; one
      earlier than something there is not. */
  lemma LaterIsTaken(m: Contents, e: Entry)
    ensures (forall k | k in m && k <= e.key :: m[k].timestamp < e.value.timestamp) ==> Holds(Put(m, e), e)
    ensures (exists k | k in m :: k <= e.key && m[k].timestamp > e.value.timestamp) ==> Put(m, e) == m
  {
  }

  /** After any run of puts the record at a key is the latest put there, by time and then by
      hash, provided it is also later than every put at a prefix of the key; otherwise
      there is none. */
  lemma LatestPutWins(es: seq<Entry>, e: Entry)
    ensures Holds(PutAll(map[], es), e) <==>
      e in es && forall f | f in es && f.key <= e.key && f != e :: Older(f.value, e.value)
  {
    hide PutAll;
    assert EntriesOf(map[]) == {};
    PutAllIsMaximal(map[], es);
    assert {} + Elements(es) == Elements(es);
    assert Holds(PutAll(map[], es), e) <==> e in EntriesOf(PutAll(map[], es));
    if forall f | f in es && f.key <= e.key && f != e :: Older(f.value, e.value) {
      assert forall f | f in Elements(es) :: !StrictlySupersedes(f, e);
    }
    if e in Maximal(Elements(es)) {
      forall f | f in es && f.key <= e.key && f != e
        ensures Older(f.value, e.value)
      {
        assert f in Elements(es) && !StrictlySupersedes(f, e);
      }
    }
  }

  datatype InsertOutcome = NotInserted | Inserted(removed: nat)

  /** The live store: the ranger trait's insertion over its required operations. */
  class LiveStore {
    var data: Contents

    constructor (initial: Contents)
      ensures data == initial
    {
      data := initial;
    }

    /** All entries at a prefix of `key`, the entry at `key` itself included. */
    method PrefixesOf(key: Bytes) returns (parents: seq<Entry>)
      ensures forall e :: e in parents <==> e.key <= key && Holds(data, e)
    {
      parents := [];
      for n := 0 to |key| + 1
        invariant forall e :: e in parents <==> e.key <= key && |e.key| < n && Holds(data, e)
      {
        var k := key[..n];
        assert forall q: Bytes :: q <= key && |q| == n ==> q == k;
        if k in data {
          parents := parents + [Entry(k, data[k])];
        }
      }
    }

    method WouldTake(e: Entry) returns (take: bool)
      ensures take == WouldInsert(data, e)
    {
      var parents := PrefixesOf(e.key);
      for i := 0 to |parents|
        invariant forall j | 0 <= j < i :: !AtMost(e.value, parents[j].value)
      {
        if AtMost(e.value, parents[i].value) {
          assert parents[i].key in data;
          return false;
        }
      }
      forall k | k in data && k <= e.key
        ensures !AtMost(e.value, data[k])
      {
        assert Entry(k, data[k]) in parents;
      }
      return true;
    }

    method RemovePrefixFiltered(e: Entry) returns (removed: nat)
      modifies this
      ensures data == Pruned(old(data), e)
      ensures removed == |old(data)| - |data|
    {
      var before := data;
      data := map k | k in data && !(e.key <= k && AtMost(data[k], e.value)) :: data[k];
      SubsetSize(data.Keys, before.Keys);
      removed := |before| - |data|;
    }

    method Insert(e: Entry) returns (outcome: InsertOutcome)
      modifies this
      ensures data == Put(old(data), e)
      ensures outcome.Inserted? <==> WouldInsert(old(data), e)
      ensures outcome.Inserted? ==> outcome.removed == |old(data)| - |Pruned(old(data), e)|
      ensures outcome.Inserted? ==> Holds(data, e)
      ensures outcome.NotInserted? ==> data == old(data)
    {
      var take := WouldTake(e);
      if !take {
        return NotInserted;
      }
      var removed := RemovePrefixFiltered(e);
      data := data[e.key := e.value];
      outcome := Inserted(removed);
    }
  }

  lemma {:induction false} SubsetSize<T>(a: set<T>, b: set<T>)
    requires a <= b
    ensures |a| <= |b|
  {
    if a != {} {
      var x :| x in a;
      SubsetSize(a - {x}, b - {x});
    }
  }
}
