/** One round of range-based set reconciliation: what a side answers to a message.

    The functions give the answer as a value of the frozen view the session reads
    from; `SessionStores` carries out the round step by step, reading through the
    session's egress filter and writing to the live store. */
module Reconcile {
  import opened Bytes
  import opened Entries
  import opened Puts
  import opened Ranges
  import opened Split

  type Fp = bv256

  /** BLAKE3 of the empty byte string, the fingerprint of the empty set. */
  const EMPTY_FP: Fp := 0xaf1349b9f5f9a1a6a0404dea36dcc9499bcb25c9adc112b7cc9a93cae41f3262

  datatype Config = Config(maxSetSize: nat, splitFactor: nat)

  /** What both sides of a session share: the configuration, and the hash function
      behind entry fingerprints. */
  datatype Protocol = Protocol(config: Config, hash: Entry -> Fp)

  function Xor(a: Fp, b: Fp): Fp {
    a ^ b
  }

  function Fingerprint(hash: Entry -> Fp, v: View): Fp {
    if v == [] then EMPTY_FP else Xor(Fingerprint(hash, v[..|v| - 1]), hash(v[|v| - 1]))
  }

  datatype Part =
    | FingerprintPart(range: Range, fingerprint: Fp)
    | ItemPart(range: Range, values: seq<Entry>, haveLocal: bool)
    | RejectedPart(refused: Entry)

  type Message = seq<Part>

  datatype Verdict = Accept | Drop | Reject

  /** All entries a message carries. */
  function Values(m: Message): seq<Entry> {
    if m == [] then []
    else Values(m[..|m| - 1]) + if m[|m| - 1].ItemPart? then m[|m| - 1].values else []
  }

  /** The default identifier: all-zero namespace and author, empty key. */
  const DEFAULT_ID: Bytes := Repeat(0, 64)

  /** The first key of a view, or the default identifier. */
  function First(v: View): Bytes {
    if v == [] then DEFAULT_ID else v[0].key
  }

  /** The opening message: the fingerprint of everything. */
  function Initial(p: Protocol, v: View): Message {
    var all := Range(First(v), First(v));
    [FingerprintPart(all, Fingerprint(p.hash, InRange(v, all)))]
  }

  // ---- fingerprint parts ----

  function PartFor(p: Protocol, v: View, sub: Range): Part {
    var chunk := InRange(v, sub);
    if |chunk| > p.config.maxSetSize then FingerprintPart(sub, Fingerprint(p.hash, chunk))
    else ItemPart(sub, chunk, false)
  }

  function PartsFor(p: Protocol, v: View, subs: seq<Range>): (m: Message)
    ensures |m| == |subs| && forall i | 0 <= i < |m| :: m[i] == PartFor(p, v, subs[i])
  {
    if subs == [] then [] else PartsFor(p, v, subs[..|subs| - 1]) + [PartFor(p, v, subs[|subs| - 1])]
  }

  function AnswerFingerprint(p: Protocol, v: View, r: Range, fp: Fp): Message
    requires p.config.splitFactor >= 2
  {
    var local := InRange(v, r);
    if Fingerprint(p.hash, local) == fp then []
    else if |local| <= 1 || fp == EMPTY_FP then [ItemPart(r, local, false)]
    else PartsFor(p, v, SplitRanges(local, r, p.config.splitFactor))
  }

  function AnswerFingerprints(p: Protocol, v: View, m: Message): Message
    requires p.config.splitFactor >= 2
  {
    if m == [] then []
    else
      var last := m[|m| - 1];
      AnswerFingerprints(p, v, m[..|m| - 1])
      + if last.FingerprintPart? then AnswerFingerprint(p, v, last.range, last.fingerprint) else []
  }

  // ---- item parts ----

  /** The other side holds `e` already, or something larger at its key. */
  predicate Matched(e: Entry, theirs: seq<Entry>) {
    exists f | f in theirs :: f.key == e.key && AtMost(e.value, f.value)
  }

  /** Our entries that the other side's do not make redundant. */
  function Unmatched(ours: View, theirs: seq<Entry>): View {
    if ours == [] then []
    else
      var rest, last := Unmatched(ours[..|ours| - 1], theirs), ours[|ours| - 1];
      if Matched(last, theirs) then rest else rest + [last]
  }

  function AnswerItem(v: View, r: Range, values: seq<Entry>, haveLocal: bool): Message {
    if haveLocal then []
    else
      var diff := Unmatched(InRange(v, r), values);
      if diff == [] then [] else [ItemPart(r, diff, true)]
  }

  function Accepted(verdict: Entry -> Verdict, values: seq<Entry>): seq<Entry> {
    if values == [] then []
    else
      var rest, last := Accepted(verdict, values[..|values| - 1]), values[|values| - 1];
      if verdict(last).Accept? then rest + [last] else rest
  }

  /** The live store after the accepted ones of `values` were put into it in order. */
  function Ingested(verdict: Entry -> Verdict, live: Contents, values: seq<Entry>): Contents {
    PutAll(live, Accepted(verdict, values))
  }

  /** The refusals echoed for `values`: each one refused by the verdict that the live
      store, as it stands at that point, would have taken in. */
  function Refusals(verdict: Entry -> Verdict, live: Contents, values: seq<Entry>): Message {
    if values == [] then []
    else
      var init, last := values[..|values| - 1], values[|values| - 1];
      Refusals(verdict, live, init)
      + if verdict(last).Reject? && WouldInsert(Ingested(verdict, live, init), last) then [RejectedPart(last)] else []
  }

  function AnswerItems(v: View, verdict: Entry -> Verdict, live: Contents, m: Message): Message {
    if m == [] then []
    else
      var init, last := m[..|m| - 1], m[|m| - 1];
      AnswerItems(v, verdict, live, init)
      + if last.ItemPart? then
          Refusals(verdict, Ingested(verdict, live, Values(init)), last.values)
          + AnswerItem(v, last.range, last.values, last.haveLocal)
        else []
  }

  /** The whole answer: items first, then fingerprints. An empty answer is none. */
  function Answer(p: Protocol, v: View, verdict: Entry -> Verdict, live: Contents, m: Message): Message
    requires p.config.splitFactor >= 2
  {
    AnswerItems(v, verdict, live, m) + AnswerFingerprints(p, v, m)
  }

  // ---- ingest composes ----

  lemma {:induction false} PutAllConcat(m: Contents, es: seq<Entry>, fs: seq<Entry>)
    ensures PutAll(m, es + fs) == PutAll(PutAll(m, es), fs)
  {
    hide Put;
    if fs == [] {
      assert es + fs == es;
    } else {
      assert (es + fs)[..|es + fs| - 1] == es + fs[..|fs| - 1];
      PutAllConcat(m, es, fs[..|fs| - 1]);
    }
  }

  lemma {:induction false} AcceptedConcat(verdict: Entry -> Verdict, es: seq<Entry>, fs: seq<Entry>)
    ensures Accepted(verdict, es + fs) == Accepted(verdict, es) + Accepted(verdict, fs)
  {
    if fs == [] {
      assert es + fs == es;
    } else {
      assert (es + fs)[..|es + fs| - 1] == es + fs[..|fs| - 1];
      AcceptedConcat(verdict, es, fs[..|fs| - 1]);
    }
  }

  lemma IngestedConcat(verdict: Entry -> Verdict, live: Contents, es: seq<Entry>, fs: seq<Entry>)
    ensures Ingested(verdict, live, es + fs) == Ingested(verdict, Ingested(verdict, live, es), fs)
  {
    AcceptedConcat(verdict, es, fs);
    PutAllConcat(live, Accepted(verdict, es), Accepted(verdict, fs));
  }
}
