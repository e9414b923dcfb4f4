/** The hash chain of the audit log: what verify_chain accepts, and what the last
    entry hash determines. */
module AuditChain {
  import opened Text
  import opened Decimal
  import opened Hashing

  datatype Entry = Entry(seqNo: int, eventType: string, payloadHash: string,
                         timestamp: int, prevHash: string, entryHash: string)

  const GENESIS_PREIMAGE := "ae402-audit-log-genesis"

  function Genesis(h: HashFn): Digest {
    h(GENESIS_PREIMAGE)
  }

  function Preimage(e: Entry): string {
    IntStr(e.seqNo) + ":" + (e.eventType + ":" + e.payloadHash) + ":" + IntStr(e.timestamp) + ":" + e.prevHash
  }

  /** The hash an entry must carry. */
  function ExpectedHash(h: HashFn, e: Entry): Digest {
    h(Preimage(e))
  }

  /** What entry i of a list must name as its predecessor. */
  function PrevOf(es: seq<Entry>, genesis: string, i: nat): string
    requires i < |es|
  {
    if i == 0 then genesis else es[i - 1].entryHash
  }

  ghost predicate LinkOk(h: HashFn, es: seq<Entry>, genesis: string, i: nat)
    requires i < |es|
  {
    es[i].prevHash == PrevOf(es, genesis, i) && es[i].entryHash == ExpectedHash(h, es[i])
  }

  ghost predicate ChainOk(h: HashFn, es: seq<Entry>, genesis: string) {
    forall i | 0 <= i < |es| :: LinkOk(h, es, genesis, i)
  }

  method VerifyChain(h: HashFn, es: seq<Entry>, genesis: string) returns (ok: bool)
    ensures ok <==> ChainOk(h, es, genesis)
  {
    var expectedPrev := genesis;
    for n := 0 to |es|
      invariant expectedPrev == if n == 0 then genesis else es[n - 1].entryHash
      invariant forall i | 0 <= i < n :: LinkOk(h, es, genesis, i)
    {
      if es[n].prevHash != expectedPrev {
        assert !LinkOk(h, es, genesis, n);
        return false;
      }
      if es[n].entryHash != ExpectedHash(h, es[n]) {
        assert !LinkOk(h, es, genesis, n);
        return false;
      }
      expectedPrev := es[n].entryHash;
    }
    return true;
  }

  function Tail(es: seq<Entry>, genesis: string): string {
    if es == [] then genesis else es[|es| - 1].entryHash
  }

  // ----- what one preimage determines -----------------------------------------

  /** All fields that are hashed agree, but for where the event type ends and the payload
      hash begins. */
  ghost predicate SameFields(e: Entry, f: Entry) {
    && e.seqNo == f.seqNo && e.timestamp == f.timestamp && e.prevHash == f.prevHash
    && e.eventType + ":" + e.payloadHash == f.eventType + ":" + f.payloadHash
  }

  ghost predicate SameUpToSplit(e: Entry, f: Entry) {
    SameFields(e, f) && e.entryHash == f.entryHash
  }

  /** What stands between the sequence number and the predecessor. */
  function Middle(e: Entry): string {
    (e.eventType + ":" + e.payloadHash) + ":" + IntStr(e.timestamp)
  }

  lemma PreimageParts(e: Entry)
    ensures Preimage(e) == IntStr(e.seqNo) + [':'] + (Middle(e) + [':'] + e.prevHash)
    ensures Preimage(e) == (IntStr(e.seqNo) + [':'] + Middle(e)) + [':'] + e.prevHash
  {
    var m := e.eventType + ":" + e.payloadHash;
    assert Preimage(e) == IntStr(e.seqNo) + ":" + m + ":" + IntStr(e.timestamp) + ":" + e.prevHash;
  }

  /** The sequence number ends at the first colon. */
  lemma PreimageFixesNumber(e: Entry, f: Entry)
    requires Preimage(e) == Preimage(f)
    ensures e.seqNo == f.seqNo && Middle(e) + [':'] + e.prevHash == Middle(f) + [':'] + f.prevHash
  {
    PreimageParts(e);
    PreimageParts(f);
    IntStrLacks(e.seqNo, ':');
    IntStrLacks(f.seqNo, ':');
    CutAtFirst(':', IntStr(e.seqNo), Middle(e) + [':'] + e.prevHash, IntStr(f.seqNo), Middle(f) + [':'] + f.prevHash);
    IntStrInjective(e.seqNo, f.seqNo);
  }

  lemma MiddleFixesFields(e: Entry, f: Entry)
    requires Middle(e) == Middle(f)
    ensures e.timestamp == f.timestamp
    ensures e.eventType + ":" + e.payloadHash == f.eventType + ":" + f.payloadHash
  {
    IntStrLacks(e.timestamp, ':');
    IntStrLacks(f.timestamp, ':');
    CutAtLast(':', e.eventType + ":" + e.payloadHash, IntStr(e.timestamp),
              f.eventType + ":" + f.payloadHash, IntStr(f.timestamp));
    IntStrInjective(e.timestamp, f.timestamp);
  }

  /** Equal hash inputs fix the sequence number, and the other fields exactly if the
      predecessors are equally long; beside a predecessor without a colon, exactly if the
      other one has none either. */
  lemma PreimageDetermines(e: Entry, f: Entry)
    requires Preimage(e) == Preimage(f)
    ensures e.seqNo == f.seqNo
    ensures SameFields(e, f) <==> |e.prevHash| == |f.prevHash|
    ensures Lacks(e.prevHash, ':') ==> (SameFields(e, f) <==> Lacks(f.prevHash, ':'))
  {
    PreimageFixesNumber(e, f);
    if Lacks(e.prevHash, ':') && Lacks(f.prevHash, ':') {
      CutAtLast(':', Middle(e), e.prevHash, Middle(f), f.prevHash);
    }
    if |e.prevHash| == |f.prevHash| {
      SplitsByLength(':', Middle(e), e.prevHash, Middle(f), f.prevHash);
      MiddleFixesFields(e, f);
    }
  }

  /** Two entries alike up to the split are equal exactly when their payload hashes
      have equal length: colons in the event type are harmless, a payload hash of
      free length is not. */
  lemma SplitExact(e: Entry, f: Entry)
    requires SameUpToSplit(e, f)
    ensures e == f <==> |e.payloadHash| == |f.payloadHash|
  {
    if |e.payloadHash| == |f.payloadHash| {
      SplitsByLength(':', e.eventType, e.payloadHash, f.eventType, f.payloadHash);
    }
  }

  function Stamp(h: HashFn, e: Entry): Entry {
    e.(entryHash := ExpectedHash(h, e))
  }

  /** Exactly when an entry can be told from every other entry by its hash input:
      neither free-text field holds a colon. */
  lemma PreimageIdentifies(h: HashFn, e: Entry)
    requires Lacks(e.prevHash, ':')
    ensures (forall f: Entry | Preimage(f) == Preimage(e) :: Stamp(h, f) == Stamp(h, e))
            <==> Lacks(e.eventType, ':') && Lacks(e.payloadHash, ':')
  {
    if Lacks(e.eventType, ':') && Lacks(e.payloadHash, ':') {
      forall f: Entry | Preimage(f) == Preimage(e)
        ensures Stamp(h, f) == Stamp(h, e)
      {
        PreimageDetermines(e, f);
        if !SameFields(e, f) {
          MovedTime(e, f);
          OneColonNoTime(e.eventType, e.payloadHash);
        }
        OneSplit(':', f.eventType, f.payloadHash, e.eventType, e.payloadHash);
      }
    } else {
      var f := Twin(e);
      assert Stamp(h, f) != Stamp(h, e);
    }
  }

  // ----- other predecessors for one hash input ------------------------------------

  /** A text with a colon, a decimal integer behind it, and nothing or another text behind
      that. */
  ghost predicate TimeWithin(m: string, head: string, t: int, rest: string) {
    ':' in head && (m == head + ":" + IntStr(t) || m == head + ":" + IntStr(t) + ":" + rest)
  }

  ghost predicate HoldsTime(m: string) {
    exists head: string, t: int, rest: string :: TimeWithin(m, head, t, rest)
  }

  lemma OneColonAt(p: string, q: string)
    requires Lacks(p, ':') && Lacks(q, ':')
    ensures forall i | 0 <= i < |p + ":" + q| && (p + ":" + q)[i] == ':' :: i == |p|
  {
    var m := p + ":" + q;
    assert forall i | 0 <= i < |p| :: m[i] == p[i];
    assert forall i | |p| < i < |m| :: m[i] == q[i - |p| - 1];
  }

  lemma TimeHasTwoColons(m: string, head: string, t: int, rest: string)
    requires TimeWithin(m, head, t, rest)
    ensures exists i, j :: 0 <= i < j < |m| && m[i] == ':' && m[j] == ':'
  {
    var k :| 0 <= k < |head| && head[k] == ':';
    assert m[k] == ':' && m[|head|] == ':';
  }

  lemma OneColonNoTime(p: string, q: string)
    requires Lacks(p, ':') && Lacks(q, ':')
    ensures !HoldsTime(p + ":" + q)
  {
    OneColonAt(p, q);
    if head: string, t: int, rest: string :| TimeWithin(p + ":" + q, head, t, rest) {
      TimeHasTwoColons(p + ":" + q, head, t, rest);
    }
  }

  /** Another predecessor for this hash input takes over the end of the event text. */
  lemma MovedTime(e: Entry, f: Entry)
    requires Preimage(f) == Preimage(e) && Lacks(e.prevHash, ':') && !SameFields(e, f)
    ensures HoldsTime(e.eventType + ":" + e.payloadHash)
  {
    PreimageDetermines(e, f);
    PreimageFixesNumber(e, f);
    var moved := PredecessorEnds(Middle(e), e.prevHash, Middle(f), f.prevHash);
    assert Middle(e) == Middle(f) + [':'] + moved;
    TimeMoved(e.eventType + ":" + e.payloadHash, IntStr(e.timestamp), f.eventType + ":" + f.payloadHash, f.timestamp,
              moved);
  }

  /** What a longer right part has in front of the shorter one. */
  lemma PredecessorEnds(x: string, p: string, y: string, q: string) returns (moved: string)
    requires x + [':'] + p == y + [':'] + q && Lacks(p, ':') && ':' in q
    ensures x == y + [':'] + moved && q == moved + [':'] + p
  {
    var s := x + [':'] + p;
    assert |p| < |q| by {
      var k :| 0 <= k < |q| && q[k] == ':';
      assert s[|y| + 1 + k] == ':';
      assert forall i | |x| < i < |s| :: s[i] == p[i - |x| - 1];
    }
    var d := |q| - |p| - 1;
    moved := q[..d];
    assert s[|y| + 1 + d] == s[|x|] == ':' == q[d];
    assert q[d + 1..] == s[|x| + 1..] == p;
    assert x == s[..|x|] == y + [':'] + moved;
  }

  lemma TimeMoved(m: string, time: string, n: string, t: int, moved: string)
    requires m + [':'] + time == (n + ":" + IntStr(t)) + [':'] + moved
    requires Lacks(time, ':') && ':' in n
    ensures HoldsTime(m)
  {
    if Lacks(moved, ':') {
      CutAtLast(':', m, time, n + ":" + IntStr(t), moved);
      assert TimeWithin(m, n, t, "");
    } else {
      var rest := PredecessorEnds(m, time, n + ":" + IntStr(t), moved);
      assert m == n + ":" + IntStr(t) + ":" + rest;
      assert TimeWithin(m, n, t, rest);
    }
  }

  lemma MovedText(n: string, head: string, t: string, rest: string, time: string, prev: string)
    ensures n + ":" + head + ":" + t + ":" + (time + ":" + prev) == n + ":" + (head + ":" + t) + ":" + time + ":" + prev
    ensures n + ":" + head + ":" + t + ":" + (rest + ":" + (time + ":" + prev))
            == n + ":" + (head + ":" + t + ":" + rest) + ":" + time + ":" + prev
  {
  }

  lemma SplitAt(head: string, k: nat)
    requires k < |head| && head[k] == ':'
    ensures head[..k] + ":" + head[k + 1..] == head
  {
  }

  /** An entry with this hash input whose predecessor starts earlier. */
  lemma TimeTwin(e: Entry, head: string, t: int, rest: string) returns (f: Entry)
    requires TimeWithin(e.eventType + ":" + e.payloadHash, head, t, rest)
    ensures Preimage(f) == Preimage(e) && |f.prevHash| > |e.prevHash|
  {
    var k :| 0 <= k < |head| && head[k] == ':';
    SplitAt(head, k);
    MovedText(IntStr(e.seqNo), head, IntStr(t), rest, IntStr(e.timestamp), e.prevHash);
    var prev := IntStr(e.timestamp) + ":" + e.prevHash;
    if e.eventType + ":" + e.payloadHash != head + ":" + IntStr(t) {
      prev := rest + ":" + prev;
    }
    f := Entry(e.seqNo, head[..k], head[k + 1..], t, prev, e.entryHash);
  }

  /** Exactly which entries share their hash input with an entry of another predecessor:
      those whose event text reads as a text with a colon and an integer behind it. */
  lemma OtherPredecessorExactly(e: Entry)
    requires Lacks(e.prevHash, ':')
    ensures (exists f: Entry :: Preimage(f) == Preimage(e) && !SameFields(e, f))
            <==> HoldsTime(e.eventType + ":" + e.payloadHash)
  {
    if f: Entry :| Preimage(f) == Preimage(e) && !SameFields(e, f) {
      MovedTime(e, f);
    }
    if head: string, t: int, rest: string :| TimeWithin(e.eventType + ":" + e.payloadHash, head, t, rest) {
      var f := TimeTwin(e, head, t, rest);
      PreimageDetermines(e, f);
    }
  }

  /** A different entry with the same preimage, for an entry with a colon to spare. */
  lemma Twin(e: Entry) returns (f: Entry)
    requires !(Lacks(e.eventType, ':') && Lacks(e.payloadHash, ':'))
    ensures Preimage(f) == Preimage(e) && f.prevHash == e.prevHash && f.eventType != e.eventType
  {
    var u, v := OtherSplit(':', e.eventType, e.payloadHash);
    f := e.(eventType := u, payloadHash := v);
    assert f.eventType + ":" + f.payloadHash == e.eventType + ":" + e.payloadHash;
  }

  // ----- what the tail hash determines ----------------------------------------

  ghost function EntryInputs(es: seq<Entry>): set<string> {
    set i | 0 <= i < |es| :: Preimage(es[i])
  }

  lemma EntryInput(es: seq<Entry>, i: nat)
    requires i < |es|
    ensures Preimage(es[i]) in EntryInputs(es)
  {
  }

  lemma PreimageHasColon(e: Entry)
    ensures ':' in Preimage(e)
  {
    assert Preimage(e)[|IntStr(e.seqNo)|] == ':';
  }

  /** A genesis value without a colon that is no entry's hash. */
  ghost predicate FreshFor(es: seq<Entry>, genesis: string) {
    Lacks(genesis, ':') && forall i | 0 <= i < |es| :: es[i].entryHash != genesis
  }

  /** In a verified chain no predecessor field holds a colon. */
  lemma PrevLacksColon(h: HashFn, es: seq<Entry>, genesis: string, i: nat)
    requires ChainOk(h, es, genesis) && Lacks(genesis, ':') && i < |es|
    ensures Lacks(es[i].prevHash, ':')
  {
    assert LinkOk(h, es, genesis, i);
    if i > 0 {
      assert LinkOk(h, es, genesis, i - 1);
    }
  }

  /** Equal entry hashes inside verified chains mean entries alike up to the split. */
  lemma EqualHashes(h: HashFn, a: seq<Entry>, b: seq<Entry>, genesis: string, i: nat, j: nat, inputs: set<string>)
    requires ChainOk(h, a, genesis) && ChainOk(h, b, genesis) && Lacks(genesis, ':')
    requires EntryInputs(a) + EntryInputs(b) <= inputs && CollisionFree(h, inputs)
    requires i < |a| && j < |b| && a[i].entryHash == b[j].entryHash
    ensures SameUpToSplit(a[i], b[j])
  {
    assert LinkOk(h, a, genesis, i) && LinkOk(h, b, genesis, j);
    EntryInput(a, i);
    EntryInput(b, j);
    PrevLacksColon(h, a, genesis, i);
    PrevLacksColon(h, b, genesis, j);
    PreimageDetermines(a[i], b[j]);
  }

  lemma NotGenesis(h: HashFn, e: Entry, inputs: set<string>)
    requires e.entryHash == ExpectedHash(h, e)
    requires Preimage(e) in inputs && GENESIS_PREIMAGE in inputs && CollisionFree(h, inputs)
    ensures e.entryHash != Genesis(h)
  {
    PreimageHasColon(e);
    assert ':' !in GENESIS_PREIMAGE;
  }

  /** The default genesis value is fresh. */
  lemma DefaultIsFresh(h: HashFn, es: seq<Entry>, inputs: set<string>)
    requires ChainOk(h, es, Genesis(h))
    requires EntryInputs(es) + {GENESIS_PREIMAGE} <= inputs && CollisionFree(h, inputs)
    ensures FreshFor(es, Genesis(h))
  {
    forall i | 0 <= i < |es|
      ensures es[i].entryHash != Genesis(h)
    {
      assert LinkOk(h, es, Genesis(h), i);
      EntryInput(es, i);
      NotGenesis(h, es[i], inputs);
    }
  }

  // ----- chains of links, whatever is hashed ----------------------------------

  datatype Link = Link(prev: string, hash: string)

  function Links(es: seq<Entry>): (ls: seq<Link>)
    ensures |ls| == |es| && forall i | 0 <= i < |es| :: ls[i] == Link(es[i].prevHash, es[i].entryHash)
  {
    seq(|es|, i requires 0 <= i < |es| => Link(es[i].prevHash, es[i].entryHash))
  }

  ghost predicate LinkedAt(ls: seq<Link>, genesis: string, i: nat)
    requires i < |ls|
  {
    ls[i].prev == if i == 0 then genesis else ls[i - 1].hash
  }

  ghost predicate Linked(ls: seq<Link>, genesis: string) {
    forall i | 0 <= i < |ls| :: LinkedAt(ls, genesis, i)
  }

  ghost predicate NeverHash(ls: seq<Link>, genesis: string) {
    forall i | 0 <= i < |ls| :: ls[i].hash != genesis
  }

  ghost predicate HashFixesPrev(a: seq<Link>, b: seq<Link>) {
    forall i, j | 0 <= i < |a| && 0 <= j < |b| && a[i].hash == b[j].hash :: a[i].prev == b[j].prev
  }

  lemma {:induction false} LinksDistinct(ls: seq<Link>, genesis: string, i: nat, j: nat)
    requires Linked(ls, genesis) && NeverHash(ls, genesis) && HashFixesPrev(ls, ls)
    requires i < j < |ls|
    ensures ls[i].hash != ls[j].hash
  {
    assert LinkedAt(ls, genesis, i) && LinkedAt(ls, genesis, j);
    if i > 0 {
      LinksDistinct(ls, genesis, i - 1, j - 1);
    }
  }

  lemma {:induction false} LinksAlign(a: seq<Link>, b: seq<Link>, genesis: string, m: nat, n: nat)
    requires Linked(a, genesis) && NeverHash(a, genesis)
    requires Linked(b, genesis) && NeverHash(b, genesis)
    requires HashFixesPrev(a, b)
    requires m <= |a| && n <= |b|
    requires (if m == 0 then genesis else a[m - 1].hash) == (if n == 0 then genesis else b[n - 1].hash)
    ensures m == n && forall i | 0 <= i < m :: a[i].hash == b[i].hash
  {
    if m > 0 && n > 0 {
      assert LinkedAt(a, genesis, m - 1) && LinkedAt(b, genesis, n - 1);
      LinksAlign(a, b, genesis, m - 1, n - 1);
    }
  }

  /** A verified chain, seen as links. */
  lemma ChainLinks(h: HashFn, es: seq<Entry>, genesis: string)
    requires ChainOk(h, es, genesis) && FreshFor(es, genesis)
    ensures Linked(Links(es), genesis) && NeverHash(Links(es), genesis)
  {
    forall i | 0 <= i < |es|
      ensures LinkedAt(Links(es), genesis, i)
    {
      assert LinkOk(h, es, genesis, i);
    }
  }

  lemma ChainFixesPrev(h: HashFn, a: seq<Entry>, b: seq<Entry>, genesis: string, inputs: set<string>)
    requires ChainOk(h, a, genesis) && ChainOk(h, b, genesis) && Lacks(genesis, ':')
    requires EntryInputs(a) + EntryInputs(b) <= inputs && CollisionFree(h, inputs)
    ensures HashFixesPrev(Links(a), Links(b))
  {
    forall i, j | 0 <= i < |a| && 0 <= j < |b| && a[i].entryHash == b[j].entryHash
      ensures a[i].prevHash == b[j].prevHash
    {
      EqualHashes(h, a, b, genesis, i, j, inputs);
    }
  }

  /** The entry hashes of one verified chain are pairwise distinct. */
  lemma ChainDistinct(h: HashFn, es: seq<Entry>, genesis: string, i: nat, j: nat, inputs: set<string>)
    requires ChainOk(h, es, genesis) && FreshFor(es, genesis) && i < j < |es|
    requires EntryInputs(es) <= inputs && CollisionFree(h, inputs)
    ensures es[i].entryHash != es[j].entryHash
  {
    ChainLinks(h, es, genesis);
    ChainFixesPrev(h, es, es, genesis, inputs);
    LinksDistinct(Links(es), genesis, i, j);
  }

  /** Of all deletions of one entry only that of the last goes unnoticed. */
  lemma DeletionNoticed(h: HashFn, es: seq<Entry>, genesis: string, i: nat)
    requires ChainOk(h, es, genesis) && FreshFor(es, genesis) && i < |es|
    requires CollisionFree(h, EntryInputs(es))
    ensures ChainOk(h, es[..i] + es[i + 1..], genesis) <==> i == |es| - 1
  {
    var rest := es[..i] + es[i + 1..];
    if i == |es| - 1 {
      forall k | 0 <= k < |rest|
        ensures LinkOk(h, rest, genesis, k)
      {
        assert LinkOk(h, es, genesis, k);
      }
    } else {
      assert rest[i] == es[i + 1] && (i > 0 ==> rest[i - 1] == es[i - 1]);
      assert LinkOk(h, es, genesis, i + 1);
      if i > 0 {
        ChainDistinct(h, es, genesis, i - 1, i, EntryInputs(es));
      }
      assert !LinkOk(h, rest, genesis, i);
    }
  }

  ghost predicate SameHistory(a: seq<Entry>, b: seq<Entry>) {
    |a| == |b| && forall i | 0 <= i < |a| :: SameUpToSplit(a[i], b[i])
  }

  ghost predicate SamePayloadLengths(a: seq<Entry>, b: seq<Entry>)
    requires |a| == |b|
  {
    forall i | 0 <= i < |a| :: |a[i].payloadHash| == |b[i].payloadHash|
  }

  /** Two verified chains with the same tail hash tell the same history. */
  lemma TailDeterminesHistory(h: HashFn, a: seq<Entry>, b: seq<Entry>, genesis: string, inputs: set<string>)
    requires ChainOk(h, a, genesis) && ChainOk(h, b, genesis) && FreshFor(a, genesis) && FreshFor(b, genesis)
    requires Tail(a, genesis) == Tail(b, genesis)
    requires EntryInputs(a) + EntryInputs(b) <= inputs && CollisionFree(h, inputs)
    ensures SameHistory(a, b)
  {
    ChainLinks(h, a, genesis);
    ChainLinks(h, b, genesis);
    ChainFixesPrev(h, a, b, genesis, inputs);
    AlignedHashes(a, b, genesis);
    EqualHashLists(h, a, b, genesis, inputs);
  }

  lemma AlignedHashes(a: seq<Entry>, b: seq<Entry>, genesis: string)
    requires Linked(Links(a), genesis) && NeverHash(Links(a), genesis)
    requires Linked(Links(b), genesis) && NeverHash(Links(b), genesis)
    requires HashFixesPrev(Links(a), Links(b))
    requires Tail(a, genesis) == Tail(b, genesis)
    ensures |a| == |b| && forall i | 0 <= i < |a| :: a[i].entryHash == b[i].entryHash
  {
    LinksAlign(Links(a), Links(b), genesis, |a|, |b|);
    assert forall i | 0 <= i < |a| :: Links(a)[i].hash == Links(b)[i].hash;
  }

  lemma EqualHashLists(h: HashFn, a: seq<Entry>, b: seq<Entry>, genesis: string, inputs: set<string>)
    requires ChainOk(h, a, genesis) && ChainOk(h, b, genesis) && Lacks(genesis, ':')
    requires EntryInputs(a) + EntryInputs(b) <= inputs && CollisionFree(h, inputs)
    requires |a| == |b| && forall i | 0 <= i < |a| :: a[i].entryHash == b[i].entryHash
    ensures SameHistory(a, b)
  {
    forall i | 0 <= i < |a|
      ensures SameUpToSplit(a[i], b[i])
    {
      EqualHashes(h, a, b, genesis, i, i, inputs);
    }
  }

  /** The tail hash commits to the whole log, length included; the one thing it
      leaves open is the split of event type and payload hash, and it leaves that
      open exactly when some pair of payload hashes differs in length. */
  lemma TailCommits(h: HashFn, a: seq<Entry>, b: seq<Entry>, genesis: string)
    requires ChainOk(h, a, genesis) && ChainOk(h, b, genesis) && FreshFor(a, genesis) && FreshFor(b, genesis)
    requires Tail(a, genesis) == Tail(b, genesis)
    requires CollisionFree(h, EntryInputs(a) + EntryInputs(b))
    ensures SameHistory(a, b)
    ensures a == b <==> SamePayloadLengths(a, b)
  {
    TailDeterminesHistory(h, a, b, genesis, EntryInputs(a) + EntryInputs(b));
    SameHistoryExact(a, b);
  }

  /** From the default genesis, with no condition on it. */
  lemma DefaultTailCommits(h: HashFn, a: seq<Entry>, b: seq<Entry>)
    requires ChainOk(h, a, Genesis(h)) && ChainOk(h, b, Genesis(h))
    requires Tail(a, Genesis(h)) == Tail(b, Genesis(h))
    requires CollisionFree(h, EntryInputs(a) + EntryInputs(b) + {GENESIS_PREIMAGE})
    ensures SameHistory(a, b)
    ensures a == b <==> SamePayloadLengths(a, b)
  {
    DefaultIsFresh(h, a, EntryInputs(a) + EntryInputs(b) + {GENESIS_PREIMAGE});
    DefaultIsFresh(h, b, EntryInputs(a) + EntryInputs(b) + {GENESIS_PREIMAGE});
    TailCommits(h, a, b, Genesis(h));
  }

  lemma SameHistoryExact(a: seq<Entry>, b: seq<Entry>)
    requires SameHistory(a, b)
    ensures a == b <==> SamePayloadLengths(a, b)
  {
    if SamePayloadLengths(a, b) {
      forall i | 0 <= i < |a|
        ensures a[i] == b[i]
      {
        SplitExact(a[i], b[i]);
      }
    }
  }

  /** The code's promise at full strength fails: two one-entry logs that differ, both
      verified, with the same tail, whatever the hash. */
  lemma SplitIsNotCommitted(h: HashFn)
    ensures
      var a := [Stamp(h, Entry(0, "a", "b:c", 7, Genesis(h), ""))];
      var b := [Stamp(h, Entry(0, "a:b", "c", 7, Genesis(h), ""))];
      && ChainOk(h, a, Genesis(h)) && ChainOk(h, b, Genesis(h))
      && Tail(a, Genesis(h)) == Tail(b, Genesis(h)) && a != b
  {
    var e, f := Entry(0, "a", "b:c", 7, Genesis(h), ""), Entry(0, "a:b", "c", 7, Genesis(h), "");
    assert e.eventType + ":" + e.payloadHash == "a:b:c" == f.eventType + ":" + f.payloadHash;
  }
}
