/** The texts the audit log hashes, written out, and the roots they add up to. */
module AuditText {
  import opened Text
  import opened Decimal
  import opened Hashing
  import opened AuditChain
  import opened Checkpoint
  import Merkle
  import AuditTrace

  /** The entry carries the hash of its own five fields in this order and names the hash
      before it, the first one the genesis. */
  ghost predicate Sealed(h: HashFn, es: seq<Entry>, genesis: string, i: nat)
    requires i < |es|
  {
    var e := es[i];
    && e.entryHash == h(IntStr(e.seqNo) + ":" + e.eventType + ":" + e.payloadHash + ":" + IntStr(e.timestamp)
                        + ":" + e.prevHash)
    && e.prevHash == (if i == 0 then genesis else es[i - 1].entryHash)
  }

  lemma ChainExactly(h: HashFn, es: seq<Entry>, genesis: string)
    ensures Genesis(h) == h("ae402-audit-log-genesis")
    ensures ChainOk(h, es, genesis) <==> forall i | 0 <= i < |es| :: Sealed(h, es, genesis, i)
  {
    forall i | 0 <= i < |es|
      ensures LinkOk(h, es, genesis, i) <==> Sealed(h, es, genesis, i)
    {
      EntryText(es[i]);
    }
  }

  lemma EntryText(e: Entry)
    ensures Preimage(e)
            == IntStr(e.seqNo) + ":" + e.eventType + ":" + e.payloadHash + ":" + IntStr(e.timestamp) + ":" + e.prevHash
  {
    assert IntStr(e.seqNo) + ":" + (e.eventType + ":" + e.payloadHash)
        == IntStr(e.seqNo) + ":" + e.eventType + ":" + e.payloadHash;
  }

  /** The nodes above these: neighbours hashed left before right, a last one left over with
      itself. */
  ghost predicate Above(h: HashFn, level: seq<string>, above: seq<string>) {
    && 2 * |above| - 1 <= |level| <= 2 * |above|
    && forall i | 0 <= i < |above| ::
         above[i] == h(level[2 * i] + if 2 * i + 1 < |level| then level[2 * i + 1] else level[2 * i])
  }

  /** The root of no leaf, of one, and of several, which is that of the nodes above. */
  lemma RootExactly(h: HashFn, leaves: seq<string>, above: seq<string>)
    ensures leaves == [] ==> MerkleRoot(h, leaves) == h("empty")
    ensures |leaves| == 1 ==> MerkleRoot(h, leaves) == leaves[0]
    ensures |leaves| > 1 && Above(h, leaves, above) ==> MerkleRoot(h, leaves) == MerkleRoot(h, above)
  {
    if |leaves| > 1 && Above(h, leaves, above) {
      var join := JoinOf(h);
      forall i | 0 <= i < |above|
        ensures above[i] == Merkle.Up(join, leaves)[i]
      {
        assert above[i] == join(leaves[2 * i], Merkle.RightOf(leaves, i));
      }
      assert above == Merkle.Up(join, leaves);
      assert Merkle.Levels(join, leaves) == [leaves] + Merkle.Levels(join, above);
    }
  }

  /** Four entries, the smallest tree with two full levels. */
  lemma RootOfFour(h: HashFn, a: string, b: string, c: string, d: string)
    ensures MerkleRoot(h, [a, b, c, d]) == h(h(a + b) + h(c + d))
    ensures MerkleRoot(h, [a, b, c]) == h(h(a + b) + h(c + c))
  {
    RootExactly(h, [a, b, c, d], [h(a + b), h(c + d)]);
    RootExactly(h, [h(a + b), h(c + d)], [h(h(a + b) + h(c + d))]);
    RootExactly(h, [a, b, c], [h(a + b), h(c + c)]);
    RootExactly(h, [h(a + b), h(c + c)], [h(h(a + b) + h(c + c))]);
    RootExactly(h, [h(h(a + b) + h(c + d))], []);
    RootExactly(h, [h(h(a + b) + h(c + c))], []);
  }

  /** The linear chain: one more event is hashed behind the root so far, unless its id is
      empty or no string. */
  lemma ChainRootExactly(h: HashFn, events: seq<AuditTrace.EventId>, e: AuditTrace.EventId)
    ensures
      var root := (es: seq<AuditTrace.EventId>) => AuditTrace.Fold(h, AuditTrace.Ids(es));
      && root([]) == h("chain:genesis")
      && root(events + [e])
         == match e
            case Text(id) => if id == "" then root(events) else h(root(events) + id)
            case NotAString => root(events)
  {
    var all := events + [e];
    assert all[..|all| - 1] == events;
    var ids := AuditTrace.Ids(events);
    if e.Text? && e.id != "" {
      assert (ids + [e.id])[..|ids|] == ids;
    }
  }
}
