/** Checkpoint roots over verified chains and signed checkpoints: what they accept and
    what they commit to. */
module Checkpoint {
  import opened Text
  import opened Decimal
  import opened Hex
  import opened Wrappers
  import opened Hashing
  import opened Signatures
  import opened AuditChain
  import Merkle

  const EMPTY_PREIMAGE := "empty"

  function JoinOf(h: HashFn): (string, string) -> string {
    (x: string, y: string) => h(x + y)
  }

  function MerkleRoot(h: HashFn, leaves: seq<string>): string {
    if leaves == [] then h(EMPTY_PREIMAGE) else Merkle.Root(JoinOf(h), leaves)
  }

  function EntryHashes(es: seq<Entry>): (r: seq<string>)
    ensures |r| == |es| && forall i | 0 <= i < |es| :: r[i] == es[i].entryHash
  {
    seq(|es|, i requires 0 <= i < |es| => es[i].entryHash)
  }

  function CheckpointRoot(h: HashFn, es: seq<Entry>): string {
    MerkleRoot(h, EntryHashes(es))
  }

  method BuildLevels(h: HashFn, leaves: seq<string>) returns (levels: seq<seq<string>>)
    ensures levels != [] && levels[|levels| - 1] == [MerkleRoot(h, leaves)]
    ensures leaves != [] ==> levels == Merkle.Levels(JoinOf(h), leaves)
  {
    if leaves == [] {
      return [[h(EMPTY_PREIMAGE)]];
    }
    levels := [leaves];
    var current := leaves;
    ghost var below: seq<seq<string>> := [];
    assert below + Merkle.Levels(JoinOf(h), current) == Merkle.Levels(JoinOf(h), leaves);
    while |current| > 1
      invariant current != []
      invariant levels == below + [current]
      invariant below + Merkle.Levels(JoinOf(h), current) == Merkle.Levels(JoinOf(h), leaves)
      decreases |current|
    {
      var nxt := BuildParents(h, current);
      assert below + Merkle.Levels(JoinOf(h), current) == (below + [current]) + Merkle.Levels(JoinOf(h), nxt);
      below := below + [current];
      levels := levels + [nxt];
      current := nxt;
    }
  }

  /** The inner loop of the level builder. */
  method BuildParents(h: HashFn, current: seq<string>) returns (nxt: seq<string>)
    ensures nxt == Merkle.Up(JoinOf(h), current)
  {
    nxt := [];
    var i := 0;
    while i < |current|
      invariant i % 2 == 0 && 0 <= i <= |current| + 1
      invariant |nxt| == i / 2
      invariant forall k | 0 <= k < |nxt| :: nxt[k] == Merkle.Up(JoinOf(h), current)[k]
    {
      var left := current[i];
      var right := if i + 1 < |current| then current[i + 1] else current[i];
      assert right == Merkle.RightOf(current, i / 2);
      nxt := nxt + [h(left + right)];
      i := i + 2;
    }
  }

  // ----- what a checkpoint root determines ------------------------------------

  ghost function JoinInputs(pairs: set<(string, string)>): set<string> {
    set p | p in pairs :: p.0 + p.1
  }

  ghost function TreePairs(h: HashFn, es: seq<Entry>): set<(string, string)> {
    Merkle.Pairs(JoinOf(h), EntryHashes(es))
  }

  /** Every string hashed while checking a log and computing its root. */
  ghost function LogInputs(h: HashFn, es: seq<Entry>): set<string> {
    EntryInputs(es) + JoinInputs(TreePairs(h, es)) + {GENESIS_PREIMAGE, EMPTY_PREIMAGE}
  }

  ghost predicate IsNode(s: string) {
    |s| == 64 && Lacks(s, ':')
  }

  lemma DigestIsNode(d: Digest)
    ensures IsNode(d)
  {
  }

  ghost predicate NodePairs(pairs: set<(string, string)>) {
    forall p | p in pairs :: IsNode(p.0) && IsNode(p.1)
  }

  lemma {:induction false} PairsAreNodes(h: HashFn, level: seq<string>)
    requires forall i | 0 <= i < |level| :: IsNode(level[i])
    ensures NodePairs(Merkle.Pairs(JoinOf(h), level))
    decreases |level|
  {
    if |level| > 1 {
      var up := Merkle.Up(JoinOf(h), level);
      forall i | 0 <= i < |up|
        ensures IsNode(up[i])
      {
        DigestIsNode(h(level[2 * i] + Merkle.RightOf(level, i)));
      }
      PairsAreNodes(h, up);
    }
  }

  lemma JoinInjective(h: HashFn, pairs: set<(string, string)>, inputs: set<string>)
    requires NodePairs(pairs) && JoinInputs(pairs) <= inputs && CollisionFree(h, inputs)
    ensures Merkle.InjectiveOn(JoinOf(h), pairs)
  {
    var join := JoinOf(h);
    forall p, q | p in pairs && q in pairs && join(p.0, p.1) == join(q.0, q.1)
      ensures p == q
    {
      assert p.0 + p.1 in JoinInputs(pairs) && q.0 + q.1 in JoinInputs(pairs);
      assert h(p.0 + p.1) == h(q.0 + q.1);
      assert p.0 == (p.0 + p.1)[..64] && q.0 == (q.0 + q.1)[..64];
      assert p.1 == (p.0 + p.1)[64..] && q.1 == (q.0 + q.1)[64..];
    }
  }

  /** The hash of a string with a colon joins no two nodes. */
  lemma ColonHashIsLeaf(h: HashFn, p: string, pairs: set<(string, string)>, inputs: set<string>)
    requires NodePairs(pairs) && JoinInputs(pairs) + {p} <= inputs && CollisionFree(h, inputs)
    requires ':' in p
    ensures Merkle.NotInterior(JoinOf(h), h(p), pairs)
  {
    var join := JoinOf(h);
    forall q | q in pairs
      ensures join(q.0, q.1) != h(p)
    {
      assert q.0 + q.1 in JoinInputs(pairs);
      assert Lacks(q.0 + q.1, ':');
    }
  }

  /** Entries each carrying the hash of its own fields. */
  ghost predicate SelfConsistent(h: HashFn, es: seq<Entry>) {
    forall i | 0 <= i < |es| :: es[i].entryHash == ExpectedHash(h, es[i])
  }

  ghost predicate DistinctHashes(es: seq<Entry>) {
    Merkle.Distinct(EntryHashes(es))
  }

  lemma HashesAreNodes(h: HashFn, es: seq<Entry>)
    requires SelfConsistent(h, es)
    ensures NodePairs(TreePairs(h, es))
  {
    forall i | 0 <= i < |es|
      ensures IsNode(EntryHashes(es)[i])
    {
      DigestIsNode(ExpectedHash(h, es[i]));
    }
    PairsAreNodes(h, EntryHashes(es));
  }

  /** The root of a nonempty checkpoint is not the root of the empty one. */
  lemma RootNotEmpty(h: HashFn, es: seq<Entry>)
    requires es != [] && SelfConsistent(h, es) && CollisionFree(h, LogInputs(h, es))
    ensures CheckpointRoot(h, es) != CheckpointRoot(h, [])
  {
    var hashes := EntryHashes(es);
    assert ':' !in EMPTY_PREIMAGE;
    Merkle.RootIsTop(JoinOf(h), hashes);
    if |es| == 1 {
      EntryInput(es, 0);
      PreimageHasColon(es[0]);
    } else {
      var p := Merkle.InteriorPair(JoinOf(h), hashes, Merkle.Height(|hashes|), 0);
      HashesAreNodes(h, es);
      assert p.0 + p.1 in JoinInputs(TreePairs(h, es));
    }
  }

  /** The entry hashes of two checkpoints are leaves of collision-free trees. */
  lemma TreesApart(h: HashFn, a: seq<Entry>, b: seq<Entry>) returns (pairs: set<(string, string)>)
    requires a != [] && b != [] && SelfConsistent(h, a) && SelfConsistent(h, b)
    requires CollisionFree(h, LogInputs(h, a) + LogInputs(h, b))
    ensures TreePairs(h, a) <= pairs && TreePairs(h, b) <= pairs && Merkle.InjectiveOn(JoinOf(h), pairs)
    ensures Merkle.NotInterior(JoinOf(h), EntryHashes(a)[0], pairs)
    ensures Merkle.NotInterior(JoinOf(h), EntryHashes(b)[0], pairs)
  {
    var inputs := LogInputs(h, a) + LogInputs(h, b);
    pairs := TreePairs(h, a) + TreePairs(h, b);
    HashesAreNodes(h, a);
    HashesAreNodes(h, b);
    assert JoinInputs(pairs) <= inputs;
    JoinInjective(h, pairs, inputs);
    EntryInput(a, 0);
    EntryInput(b, 0);
    PreimageHasColon(a[0]);
    PreimageHasColon(b[0]);
    ColonHashIsLeaf(h, Preimage(a[0]), pairs, inputs);
    ColonHashIsLeaf(h, Preimage(b[0]), pairs, inputs);
  }

  /** Equal roots mean equal padded lists of entry hashes, repetitions or not. */
  lemma RootsExactly(h: HashFn, a: seq<Entry>, b: seq<Entry>)
    requires a != [] && b != [] && SelfConsistent(h, a) && SelfConsistent(h, b)
    requires CollisionFree(h, LogInputs(h, a) + LogInputs(h, b))
    ensures CheckpointRoot(h, a) == CheckpointRoot(h, b)
            <==> Merkle.Padded(EntryHashes(a)) == Merkle.Padded(EntryHashes(b))
  {
    var pairs := TreesApart(h, a, b);
    Merkle.RootExactly(JoinOf(h), EntryHashes(a), EntryHashes(b), pairs);
  }

  /** Equal roots of two checkpoints with distinct entry hashes: equal hash lists. */
  lemma RootFixesHashes(h: HashFn, a: seq<Entry>, b: seq<Entry>)
    requires SelfConsistent(h, a) && SelfConsistent(h, b) && DistinctHashes(a) && DistinctHashes(b)
    requires CollisionFree(h, LogInputs(h, a) + LogInputs(h, b))
    requires CheckpointRoot(h, a) == CheckpointRoot(h, b)
    ensures EntryHashes(a) == EntryHashes(b)
  {
    if a == [] || b == [] {
      if a != [] {
        RootNotEmpty(h, a);
      } else if b != [] {
        RootNotEmpty(h, b);
      }
    } else {
      var pairs := TreesApart(h, a, b);
      Merkle.RootDetermines(JoinOf(h), EntryHashes(a), EntryHashes(b), pairs);
    }
  }

  lemma ChainIsConsistent(h: HashFn, es: seq<Entry>, genesis: string)
    requires ChainOk(h, es, genesis)
    ensures SelfConsistent(h, es)
  {
    forall i | 0 <= i < |es|
      ensures es[i].entryHash == ExpectedHash(h, es[i])
    {
      assert LinkOk(h, es, genesis, i);
    }
  }

  lemma ChainHashesDistinct(h: HashFn, es: seq<Entry>, genesis: string)
    requires ChainOk(h, es, genesis) && FreshFor(es, genesis) && CollisionFree(h, LogInputs(h, es))
    ensures DistinctHashes(es)
  {
    forall i, j | 0 <= i < j < |es|
      ensures EntryHashes(es)[i] != EntryHashes(es)[j]
    {
      ChainDistinct(h, es, genesis, i, j, LogInputs(h, es));
    }
  }

  /** Two complete logs that verify from genesis and have the same checkpoint root tell
      the same history, length included, odd-node duplication notwithstanding; they are
      the same list exactly when their payload hashes agree in length. */
  lemma RootCommits(h: HashFn, a: seq<Entry>, b: seq<Entry>, genesis: string)
    requires ChainOk(h, a, genesis) && ChainOk(h, b, genesis) && FreshFor(a, genesis) && FreshFor(b, genesis)
    requires CollisionFree(h, LogInputs(h, a) + LogInputs(h, b))
    requires CheckpointRoot(h, a) == CheckpointRoot(h, b)
    ensures SameHistory(a, b)
    ensures a == b <==> SamePayloadLengths(a, b)
  {
    ChainIsConsistent(h, a, genesis);
    ChainIsConsistent(h, b, genesis);
    ChainHashesDistinct(h, a, genesis);
    ChainHashesDistinct(h, b, genesis);
    RootFixesHashes(h, a, b);
    assert |a| == |EntryHashes(a)| == |EntryHashes(b)| == |b|;
    assert forall i | 0 <= i < |a| :: EntryHashes(a)[i] == EntryHashes(b)[i];
    EqualHashLists(h, a, b, genesis, LogInputs(h, a) + LogInputs(h, b));
    SameHistoryExact(a, b);
  }

  /** Logs whose payload hashes all have one width, as every appended entry's has, are
      told apart by root and by tail. */
  lemma FixedWidthLogsEqual(h: HashFn, a: seq<Entry>, b: seq<Entry>, genesis: string)
    requires ChainOk(h, a, genesis) && ChainOk(h, b, genesis) && FreshFor(a, genesis) && FreshFor(b, genesis)
    requires CollisionFree(h, LogInputs(h, a) + LogInputs(h, b))
    requires forall e | e in a + b :: |e.payloadHash| == 64
    ensures CheckpointRoot(h, a) == CheckpointRoot(h, b) <==> a == b
    ensures Tail(a, genesis) == Tail(b, genesis) <==> a == b
  {
    if CheckpointRoot(h, a) == CheckpointRoot(h, b) {
      RootCommits(h, a, b, genesis);
      WidthsAgree(a, b);
    }
    if Tail(a, genesis) == Tail(b, genesis) {
      TailDeterminesHistory(h, a, b, genesis, LogInputs(h, a) + LogInputs(h, b));
      SameHistoryExact(a, b);
      WidthsAgree(a, b);
    }
  }

  /** Both from the default genesis, with no condition on it. */
  lemma DefaultRootCommits(h: HashFn, a: seq<Entry>, b: seq<Entry>)
    requires ChainOk(h, a, Genesis(h)) && ChainOk(h, b, Genesis(h))
    requires CollisionFree(h, LogInputs(h, a) + LogInputs(h, b))
    ensures CheckpointRoot(h, a) == CheckpointRoot(h, b)
            ==> SameHistory(a, b) && (a == b <==> SamePayloadLengths(a, b))
    ensures (forall e | e in a + b :: |e.payloadHash| == 64)
            ==> (CheckpointRoot(h, a) == CheckpointRoot(h, b) <==> a == b)
                && (Tail(a, Genesis(h)) == Tail(b, Genesis(h)) <==> a == b)
  {
    DefaultIsFresh(h, a, LogInputs(h, a) + LogInputs(h, b));
    DefaultIsFresh(h, b, LogInputs(h, a) + LogInputs(h, b));
    if CheckpointRoot(h, a) == CheckpointRoot(h, b) {
      RootCommits(h, a, b, Genesis(h));
    }
    if forall e | e in a + b :: |e.payloadHash| == 64 {
      FixedWidthLogsEqual(h, a, b, Genesis(h));
    }
  }

  lemma WidthsAgree(a: seq<Entry>, b: seq<Entry>)
    requires |a| == |b| && forall e | e in a + b :: |e.payloadHash| == 64
    ensures SamePayloadLengths(a, b)
  {
    assert forall i | 0 <= i < |a| :: a[i] in a + b && b[i] in a + b;
  }

  // ----- signed checkpoints ---------------------------------------------------

  const ED25519_TAG_HEX := "01"

  datatype SignedCheckpoint = SignedCheckpoint(root: string, startSeq: int, endSeq: int,
                                               signatureHex: string, pubkeyHex: string)

  datatype CheckpointError = NoEntries

  function Message(root: string, startSeq: int, endSeq: int): string {
    "audit-checkpoint:" + (IntStr(startSeq) + ":" + (IntStr(endSeq) + ":" + root))
  }

  function Sign(scheme: Scheme, secret: Key, h: HashFn, es: seq<Entry>): Result<SignedCheckpoint, CheckpointError> {
    if es == [] then Err(NoEntries)
    else
      var root, startSeq, endSeq := CheckpointRoot(h, es), es[0].seqNo, es[|es| - 1].seqNo;
      var signature := scheme.sign(secret, Message(root, startSeq, endSeq));
      Ok(SignedCheckpoint(root, startSeq, endSeq, ED25519_TAG_HEX + ToHex(signature),
                          ED25519_TAG_HEX + ToHex(scheme.publicKey(secret))))
  }

  predicate VerifySignature(scheme: Scheme, cp: SignedCheckpoint) {
    && StartsWith(cp.pubkeyHex, ED25519_TAG_HEX) && StartsWith(cp.signatureHex, ED25519_TAG_HEX)
    && var pk, signature := FromHex(cp.pubkeyHex[|ED25519_TAG_HEX|..]), FromHex(cp.signatureHex[|ED25519_TAG_HEX|..]);
    && pk.Some? && |pk.value| == 32 && signature.Some?
    && scheme.verify(pk.value, signature.value, Message(cp.root, cp.startSeq, cp.endSeq))
  }

  predicate VerifyAgainst(scheme: Scheme, h: HashFn, cp: SignedCheckpoint, es: seq<Entry>) {
    && es != []
    && es[0].seqNo == cp.startSeq && es[|es| - 1].seqNo == cp.endSeq
    && CheckpointRoot(h, es) == cp.root
    && VerifySignature(scheme, cp)
  }

  /** Signing works on exactly the nonempty slices, and what it returns verifies
      against the slice it was made from. */
  lemma SignThenVerify(scheme: Scheme, secret: Key, h: HashFn, es: seq<Entry>)
    requires scheme.Correct(secret)
    ensures Sign(scheme, secret, h, es).Ok? <==> es != []
    ensures es != [] ==> VerifyAgainst(scheme, h, Sign(scheme, secret, h, es).value, es)
  {
    if es != [] {
      var cp := Sign(scheme, secret, h, es).value;
      FromHexInvertsToHex(scheme.publicKey(secret));
      FromHexInvertsToHex(scheme.sign(secret, Message(cp.root, cp.startSeq, cp.endSeq)));
      assert cp.pubkeyHex[2..] == ToHex(scheme.publicKey(secret));
      assert cp.signatureHex[2..] == ToHex(scheme.sign(secret, Message(cp.root, cp.startSeq, cp.endSeq)));
    }
  }

  /** The text behind the tag is hex of these bytes. */
  predicate Shows(text: string, bytes: seq<byte>) {
    |text| >= 2 && text[0] == '0' && text[1] == '1' && FromHex(text[2..]) == Some(bytes)
  }

  /** When a checkpoint is accepted for a slice: it names the range and the root of a nonempty
      slice, and its key of 32 bytes signed just these three. */
  lemma AcceptedExactly(scheme: Scheme, h: HashFn, cp: SignedCheckpoint, es: seq<Entry>)
    ensures VerifyAgainst(scheme, h, cp, es)
            <==> && es != [] && cp.startSeq == es[0].seqNo && cp.endSeq == es[|es| - 1].seqNo
                 && cp.root == CheckpointRoot(h, es)
                 && exists key, sig ::
                      && Shows(cp.pubkeyHex, key) && |key| == 32 && Shows(cp.signatureHex, sig)
                      && scheme.verify(key, sig, "audit-checkpoint:" + IntStr(es[0].seqNo) + ":"
                                                 + IntStr(es[|es| - 1].seqNo) + ":" + CheckpointRoot(h, es))
  {
    SignatureExactly(scheme, cp);
  }

  lemma SignatureExactly(scheme: Scheme, cp: SignedCheckpoint)
    ensures VerifySignature(scheme, cp)
            <==> exists key, sig ::
                   && Shows(cp.pubkeyHex, key) && |key| == 32 && Shows(cp.signatureHex, sig)
                   && scheme.verify(key, sig, "audit-checkpoint:" + IntStr(cp.startSeq) + ":" + IntStr(cp.endSeq)
                                              + ":" + cp.root)
  {
    TagExactly(cp.pubkeyHex);
    TagExactly(cp.signatureHex);
    MessageText(cp.root, cp.startSeq, cp.endSeq);
  }

  lemma TagExactly(text: string)
    ensures StartsWith(text, "01") <==> |text| >= 2 && text[0] == '0' && text[1] == '1'
  {
  }

  lemma MessageText(root: string, s: int, e: int)
    ensures Message(root, s, e) == "audit-checkpoint:" + IntStr(s) + ":" + IntStr(e) + ":" + root
  {
    assert "audit-checkpoint:" + (IntStr(s) + ":" + (IntStr(e) + ":" + root))
        == "audit-checkpoint:" + IntStr(s) + ":" + IntStr(e) + ":" + root;
  }

  /** What signing a nonempty slice returns: its range and root, the signer's key, and the
      signature over the message naming the three. */
  lemma SignedSays(scheme: Scheme, secret: Key, h: HashFn, es: seq<Entry>)
    requires es != []
    ensures
      var r := Sign(scheme, secret, h, es);
      && r.Ok? && r.value.startSeq == es[0].seqNo && r.value.endSeq == es[|es| - 1].seqNo
      && r.value.root == CheckpointRoot(h, es)
      && Shows(r.value.pubkeyHex, scheme.publicKey(secret))
      && Shows(r.value.signatureHex,
               scheme.sign(secret, "audit-checkpoint:" + IntStr(es[0].seqNo) + ":"
                                   + IntStr(es[|es| - 1].seqNo) + ":" + CheckpointRoot(h, es)))
  {
    var cp := Sign(scheme, secret, h, es).value;
    MessageText(CheckpointRoot(h, es), es[0].seqNo, es[|es| - 1].seqNo);
    FromHexInvertsToHex(scheme.publicKey(secret));
    FromHexInvertsToHex(scheme.sign(secret, Message(cp.root, cp.startSeq, cp.endSeq)));
    assert cp.pubkeyHex[2..] == ToHex(scheme.publicKey(secret));
    assert cp.signatureHex[2..] == ToHex(scheme.sign(secret, Message(cp.root, cp.startSeq, cp.endSeq)));
  }

  /** The signed message pins root and range. */
  lemma MessageInjective(root: string, s: int, e: int, root': string, s': int, e': int)
    requires Message(root, s, e) == Message(root', s', e')
    ensures root == root' && s == s' && e == e'
  {
    var prefix := "audit-checkpoint:";
    var t, t' := IntStr(e) + ":" + root, IntStr(e') + ":" + root';
    assert IntStr(s) + ":" + t == Message(root, s, e)[|prefix|..];
    assert IntStr(s') + ":" + t' == Message(root', s', e')[|prefix|..];
    IntStrLacks(s, ':');
    IntStrLacks(s', ':');
    CutAtFirst(':', IntStr(s), t, IntStr(s'), t');
    IntStrLacks(e, ':');
    IntStrLacks(e', ':');
    CutAtFirst(':', IntStr(e), root, IntStr(e'), root');
    IntStrInjective(s, s');
    IntStrInjective(e, e');
  }

  function SignedText(cp: SignedCheckpoint): string {
    Message(cp.root, cp.startSeq, cp.endSeq)
  }

  /** One signature cannot be replayed for another root or another range. */
  lemma NoReplay(scheme: Scheme, cp: SignedCheckpoint, cp': SignedCheckpoint)
    requires VerifySignature(scheme, cp) && VerifySignature(scheme, cp')
    requires cp.signatureHex == cp'.signatureHex && cp.pubkeyHex == cp'.pubkeyHex
    requires scheme.Binding(FromHex(cp.pubkeyHex[|ED25519_TAG_HEX|..]).value, {SignedText(cp), SignedText(cp')})
    ensures cp == cp'
  {
    MessageInjective(cp.root, cp.startSeq, cp.endSeq, cp'.root, cp'.startSeq, cp'.endSeq);
  }

  ghost predicate IncreasingSeq(es: seq<Entry>) {
    forall i, j | 0 <= i < j < |es| :: es[i].seqNo < es[j].seqNo
  }

  ghost predicate PlainPrevs(es: seq<Entry>) {
    forall i | 0 <= i < |es| :: Lacks(es[i].prevHash, ':')
  }

  lemma SliceHashesDistinct(h: HashFn, es: seq<Entry>)
    requires SelfConsistent(h, es) && IncreasingSeq(es)
    requires CollisionFree(h, LogInputs(h, es))
    ensures DistinctHashes(es)
  {
    forall i, j | 0 <= i < j < |es|
      ensures EntryHashes(es)[i] != EntryHashes(es)[j]
    {
      EntryInput(es, i);
      EntryInput(es, j);
      if EntryHashes(es)[i] == EntryHashes(es)[j] {
        PreimageFixesNumber(es[i], es[j]);
      }
    }
  }

  ghost predicate SamePrevLengths(a: seq<Entry>, b: seq<Entry>) {
    |a| == |b| && forall i | 0 <= i < |a| :: |a[i].prevHash| == |b[i].prevHash|
  }

  lemma EqualPreimages(h: HashFn, a: seq<Entry>, b: seq<Entry>)
    requires SelfConsistent(h, a) && SelfConsistent(h, b)
    requires CollisionFree(h, LogInputs(h, a) + LogInputs(h, b)) && EntryHashes(a) == EntryHashes(b)
    ensures |a| == |b|
    ensures forall i | 0 <= i < |a| :: a[i].entryHash == b[i].entryHash && Preimage(a[i]) == Preimage(b[i])
  {
    assert |a| == |EntryHashes(a)| == |EntryHashes(b)| == |b|;
    forall i | 0 <= i < |a|
      ensures a[i].entryHash == b[i].entryHash && Preimage(a[i]) == Preimage(b[i])
    {
      assert EntryHashes(a)[i] == EntryHashes(b)[i];
      EntryInput(a, i);
      EntryInput(b, i);
    }
  }

  /** Slices with equal entry hashes tell the same history exactly if predecessors are equally
      long, or, beside predecessors without colons, exactly if these are without colons. */
  lemma EqualHashesAlike(h: HashFn, a: seq<Entry>, b: seq<Entry>)
    requires SelfConsistent(h, a) && SelfConsistent(h, b)
    requires CollisionFree(h, LogInputs(h, a) + LogInputs(h, b)) && EntryHashes(a) == EntryHashes(b)
    ensures SameHistory(a, b) <==> SamePrevLengths(a, b)
    ensures PlainPrevs(a) ==> (SameHistory(a, b) <==> PlainPrevs(b))
  {
    EqualPreimages(h, a, b);
    forall i | 0 <= i < |a|
      ensures SameUpToSplit(a[i], b[i]) <==> |a[i].prevHash| == |b[i].prevHash|
      ensures Lacks(a[i].prevHash, ':') ==> (SameUpToSplit(a[i], b[i]) <==> Lacks(b[i].prevHash, ':'))
    {
      PreimageDetermines(a[i], b[i]);
    }
  }

  lemma AlikeHashesEqual(a: seq<Entry>, b: seq<Entry>)
    requires SameHistory(a, b)
    ensures EntryHashes(a) == EntryHashes(b)
  {
    assert forall i | 0 <= i < |a| :: SameUpToSplit(a[i], b[i]);
  }

  /** Any slices, not only complete logs: of two slices that a checkpoint accepts, the first
      without repetitions, the second tells the same history exactly if it is free of
      repetitions too and its predecessors are as long; beside a slice of a verified log,
      exactly if they hold no colon. It is the same list exactly if payload hashes agree in
      length besides. */
  lemma CheckpointFixesSlice(scheme: Scheme, h: HashFn, cp: SignedCheckpoint, a: seq<Entry>, b: seq<Entry>)
    requires SelfConsistent(h, a) && SelfConsistent(h, b)
    requires CollisionFree(h, LogInputs(h, a) + LogInputs(h, b))
    requires DistinctHashes(a) && VerifyAgainst(scheme, h, cp, a) && VerifyAgainst(scheme, h, cp, b)
    ensures SameHistory(a, b) <==> DistinctHashes(b) && SamePrevLengths(a, b)
    ensures PlainPrevs(a) ==> (SameHistory(a, b) <==> DistinctHashes(b) && PlainPrevs(b))
    ensures a == b <==> DistinctHashes(b) && SamePrevLengths(a, b) && SamePayloadLengths(a, b)
  {
    if DistinctHashes(b) {
      RootFixesHashes(h, a, b);
      EqualHashesAlike(h, a, b);
    }
    if SameHistory(a, b) {
      AlikeHashesEqual(a, b);
      EqualHashesAlike(h, a, b);
      SameHistoryExact(a, b);
    }
  }

  /** In general, repetitions or not: a checkpoint that accepts one slice accepts exactly the
      slices with its first and last number and the same padded list of entry hashes. */
  lemma CheckpointAcceptsExactly(scheme: Scheme, h: HashFn, cp: SignedCheckpoint, a: seq<Entry>, b: seq<Entry>)
    requires SelfConsistent(h, a) && SelfConsistent(h, b)
    requires CollisionFree(h, LogInputs(h, a) + LogInputs(h, b)) && VerifyAgainst(scheme, h, cp, a)
    ensures VerifyAgainst(scheme, h, cp, b)
            <==> && b != [] && b[0].seqNo == a[0].seqNo && b[|b| - 1].seqNo == a[|a| - 1].seqNo
                 && Merkle.Padded(EntryHashes(b)) == Merkle.Padded(EntryHashes(a))
  {
    if b != [] {
      RootsExactly(h, a, b);
    }
  }

  /** Growing sequence numbers, which no check asks for, rule out repetitions but not other
      predecessors. */
  lemma CheckpointFixesGrowingSlice(scheme: Scheme, h: HashFn, cp: SignedCheckpoint, a: seq<Entry>, b: seq<Entry>)
    requires SelfConsistent(h, a) && SelfConsistent(h, b)
    requires IncreasingSeq(a) && IncreasingSeq(b) && CollisionFree(h, LogInputs(h, a) + LogInputs(h, b))
    requires VerifyAgainst(scheme, h, cp, a) && VerifyAgainst(scheme, h, cp, b)
    ensures SameHistory(a, b) <==> SamePrevLengths(a, b)
    ensures PlainPrevs(a) ==> (SameHistory(a, b) <==> PlainPrevs(b))
  {
    SliceHashesDistinct(h, a);
    SliceHashesDistinct(h, b);
    CheckpointFixesSlice(scheme, h, cp, a, b);
  }

  /** A slice with one entry replaced by one of the same hash is accepted alike. */
  lemma TwinAccepted(scheme: Scheme, h: HashFn, cp: SignedCheckpoint, es: seq<Entry>, i: nat, f: Entry)
    requires i < |es| && f.seqNo == es[i].seqNo && f.entryHash == es[i].entryHash
    ensures VerifyAgainst(scheme, h, cp, es[i := f]) <==> VerifyAgainst(scheme, h, cp, es)
  {
    assert EntryHashes(es[i := f]) == EntryHashes(es);
  }

  /** Exactly which slices of a verified log share every checkpoint with another history that
      replaces one entry: those with an event text that holds an integer behind a text with
      a colon. */
  lemma OtherHistoryExactly(h: HashFn, es: seq<Entry>, i: nat)
    requires SelfConsistent(h, es) && PlainPrevs(es) && i < |es|
    ensures (exists f: Entry :: Preimage(f) == Preimage(es[i]) && SelfConsistent(h, es[i := f])
                                && EntryHashes(es[i := f]) == EntryHashes(es) && !SameHistory(es, es[i := f]))
            <==> HoldsTime(es[i].eventType + ":" + es[i].payloadHash)
  {
    OtherPredecessorExactly(es[i]);
    if f: Entry :| Preimage(f) == Preimage(es[i]) && SelfConsistent(h, es[i := f])
                   && EntryHashes(es[i := f]) == EntryHashes(es) && !SameHistory(es, es[i := f]) {
      StandInDiffers(h, es, i, f);
    }
    if HoldsTime(es[i].eventType + ":" + es[i].payloadHash) {
      var f: Entry :| Preimage(f) == Preimage(es[i]) && !SameFields(es[i], f);
      StandIn(h, es, i, f);
    }
  }

  lemma StandInDiffers(h: HashFn, es: seq<Entry>, i: nat, f: Entry)
    requires i < |es| && !SameHistory(es, es[i := f]) && EntryHashes(es[i := f]) == EntryHashes(es)
    ensures !SameFields(es[i], f)
  {
    assert EntryHashes(es[i := f])[i] == f.entryHash && EntryHashes(es)[i] == es[i].entryHash;
  }

  lemma StandIn(h: HashFn, es: seq<Entry>, i: nat, f: Entry)
    requires SelfConsistent(h, es) && i < |es| && Preimage(f) == Preimage(es[i]) && !SameFields(es[i], f)
    ensures
      var g := Stamp(h, f);
      && Preimage(g) == Preimage(es[i]) && SelfConsistent(h, es[i := g])
      && EntryHashes(es[i := g]) == EntryHashes(es) && !SameHistory(es, es[i := g])
  {
    var g := Stamp(h, f);
    assert !SameUpToSplit(es[i], es[i := g][i]);
  }

  /** An entry as append makes it, and one with its hash. */
  function ReleasedEntry(h: HashFn): Entry {
    Stamp(h, Entry(0, "escrow:released:7", h("{}"), 1700000000, Genesis(h), ""))
  }

  function ReleasedTwin(h: HashFn): Entry {
    Stamp(h, Entry(0, "escrow", "released", 7, h("{}") + ":" + IntStr(1700000000) + ":" + Genesis(h), ""))
  }

  /** The end of an event type stands in for a timestamp, the timestamp for a predecessor. */
  lemma MovedAlike(n: int, x: string, y: string, t: int, p: string, time: int, prev: string, u: string, v: string)
    ensures Preimage(Entry(n, x, y, t, p + ":" + IntStr(time) + ":" + prev, v))
            == Preimage(Entry(n, x + ":" + y + ":" + IntStr(t), p, time, prev, u))
  {
  }

  lemma ReleasedAlike(h: HashFn)
    ensures Preimage(ReleasedTwin(h)) == Preimage(ReleasedEntry(h))
  {
    var e, f := ReleasedEntry(h), ReleasedTwin(h);
    assert "escrow" + ":" + "released" + ":" + IntStr(7) == "escrow:released:7" by {
      assert IntStr(7) == "7";
    }
    MovedAlike(0, "escrow", "released", 7, h("{}"), 1700000000, Genesis(h), e.entryHash, f.entryHash);
  }

  /** The input that shows it: the signed checkpoint of a verified log of one entry, made by
      append, also accepts another entry with another timestamp and predecessor. */
  lemma OtherEntryAccepted(scheme: Scheme, secret: Key, h: HashFn)
    requires scheme.Correct(secret)
    ensures
      var e, f := ReleasedEntry(h), ReleasedTwin(h);
      && ChainOk(h, [e], Genesis(h)) && SelfConsistent(h, [f]) && IncreasingSeq([e]) && IncreasingSeq([f])
      && VerifyAgainst(scheme, h, Sign(scheme, secret, h, [e]).value, [f]) && !SameHistory([e], [f])
  {
    var e, f := ReleasedEntry(h), ReleasedTwin(h);
    ReleasedAlike(h);
    assert f.entryHash == e.entryHash;
    SignThenVerify(scheme, secret, h, [e]);
    assert [e][0 := f] == [f];
    TwinAccepted(scheme, h, Sign(scheme, secret, h, [e]).value, [e], 0, f);
    assert [e][0].timestamp != [f][0].timestamp;
  }

  /** Without growing numbers: a checkpoint accepts a slice of odd length, above one, exactly if it
      accepts that slice with its last entry repeated. */
  lemma RepeatedEntryAccepted(scheme: Scheme, h: HashFn, cp: SignedCheckpoint, es: seq<Entry>)
    requires |es| % 2 == 1 && |es| > 1
    ensures VerifyAgainst(scheme, h, cp, es + [es[|es| - 1]]) <==> VerifyAgainst(scheme, h, cp, es)
  {
    var longer := es + [es[|es| - 1]];
    assert EntryHashes(longer) == EntryHashes(es) + [EntryHashes(es)[|es| - 1]];
    Merkle.DuplicationIsInvisible(JoinOf(h), EntryHashes(es));
  }

  /** Three linked entries. */
  function ThreeEntries(h: HashFn): seq<Entry> {
    var first := Stamp(h, Entry(1, "created", "", 10, Genesis(h), ""));
    var second := Stamp(h, Entry(2, "funded", "", 20, first.entryHash, ""));
    [first, second, Stamp(h, Entry(3, "released", "", 30, second.entryHash, ""))]
  }

  /** The input that shows it: the checkpoint of a verified log of three entries also
      accepts four entries, the last one twice. */
  lemma ThreeOrFourEntries(scheme: Scheme, secret: Key, h: HashFn)
    requires scheme.Correct(secret)
    ensures
      var es := ThreeEntries(h);
      ChainOk(h, es, Genesis(h)) && VerifyAgainst(scheme, h, Sign(scheme, secret, h, es).value, es + [es[2]])
  {
    var es := ThreeEntries(h);
    assert LinkOk(h, es, Genesis(h), 0) && LinkOk(h, es, Genesis(h), 1) && LinkOk(h, es, Genesis(h), 2);
    SignThenVerify(scheme, secret, h, es);
    RepeatedEntryAccepted(scheme, h, Sign(scheme, secret, h, es).value, es);
  }
}
