/** The append-only log object. */
module AuditLog {
  import opened Wrappers
  import opened Hashing
  import opened Signatures
  import opened AuditChain
  import opened Checkpoint

  class AuditLog {
    const h: HashFn
    const genesisHash: string
    var entries: seq<Entry>

    /** The log verifies, numbers its entries from zero and holds fixed-width payload hashes. */
    ghost predicate Valid()
      reads this
    {
      && ChainOk(h, entries, genesisHash)
      && (forall i | 0 <= i < |entries| :: entries[i].seqNo == i)
      && (forall i | 0 <= i < |entries| :: |entries[i].payloadHash| == 64)
    }

    constructor (h: HashFn, genesisHash: string)
      ensures Valid() && entries == []
      ensures this.h == h && this.genesisHash == genesisHash
    {
      this.h := h;
      this.genesisHash := genesisHash;
      entries := [];
    }

    /** `payload` is the canonical JSON text of the event, `clock` the wall clock that
        stands in for a missing timestamp. */
    method Append(eventType: string, payload: string, timestamp: Option<int>, clock: int) returns (entry: Entry)
      requires Valid()
      modifies this
      ensures Valid()
      ensures entries == old(entries) + [entry]
      ensures entry.seqNo == |old(entries)| && entry.eventType == eventType && entry.payloadHash == h(payload)
      ensures entry.timestamp == (if timestamp.Some? then timestamp.value else clock)
      ensures entry.prevHash == Tail(old(entries), genesisHash) && entry.entryHash == ExpectedHash(h, entry)
    {
      var ts := if timestamp.Some? then timestamp.value else clock;
      entry := Stamp(h, Entry(|entries|, eventType, h(payload), ts, Tail(entries, genesisHash), ""));
      ghost var before := entries;
      entries := entries + [entry];
      forall i | 0 <= i < |entries|
        ensures LinkOk(h, entries, genesisHash, i)
      {
        if i < |before| {
          assert LinkOk(h, before, genesisHash, i);
        }
      }
    }

    /** A log grown by Append always verifies. */
    method Verify() returns (ok: bool)
      requires Valid()
      ensures ok
    {
      ok := VerifyChain(h, entries, genesisHash);
    }

    /** Signs the entries from `sinceSeq` on; fails exactly when there are none. */
    method SignSince(scheme: Scheme, secret: Key, sinceSeq: int) returns (r: Result<SignedCheckpoint, CheckpointError>)
      requires Valid() && scheme.Correct(secret)
      ensures r.Ok? <==> sinceSeq < |entries| && entries != []
      ensures r.Ok? ==> VerifyAgainst(scheme, h, r.value, entries[if sinceSeq < 0 then 0 else sinceSeq..])
      ensures r.Ok? ==> r.value.startSeq == (if sinceSeq < 0 then 0 else sinceSeq) && r.value.endSeq == |entries| - 1
    {
      ghost var start := if sinceSeq < 0 then 0 else if sinceSeq < |entries| then sinceSeq else |entries|;
      var slice: seq<Entry> := [];
      for n := 0 to |entries|
        invariant slice == if n <= start then [] else entries[start..n]
      {
        if entries[n].seqNo >= sinceSeq {
          slice := slice + [entries[n]];
        }
      }
      assert slice == entries[start..];
      SignThenVerify(scheme, secret, h, slice);
      r := Sign(scheme, secret, h, slice);
    }
  }
}
