/** What lock, claim and refund do to the registry, field by field. */
module HtlcEffects {
  import opened Wrappers
  import opened Text
  import opened Decimal
  import opened Hashing
  import opened Htlc
  import opened Relay
  import opened SwapRuns
  import Hex

  /** Where a leg id leads: through the index to a swap, to its Casper leg first. */
  predicate LeadsTo(reg: Registry, legId: string, p: Place) {
    && legId in reg.legIndex && reg.legIndex[legId] == p.swapId && p.swapId != "" && p.swapId in reg.swaps
    && (p.side == Casper ==> reg.swaps[p.swapId].casper.legId == legId)
    && (p.side == Evm ==> reg.swaps[p.swapId].evm.legId == legId && reg.swaps[p.swapId].casper.legId != legId)
  }

  lemma FindExactly(reg: Registry, legId: string, p: Place)
    ensures Find(reg, legId) == Some(p) <==> LeadsTo(reg, legId, p)
  {
  }

  /** Everything but one leg is as before. */
  ghost predicate OnlyLeg(reg: Registry, reg': Registry, p: Place) {
    && reg'.order == reg.order && reg'.legIndex == reg.legIndex && reg'.swaps.Keys == reg.swaps.Keys
    && (forall id | id in reg.swaps && id != p.swapId :: reg'.swaps[id] == reg.swaps[id])
    && (p.swapId in reg.swaps ==>
          var s, t := reg.swaps[p.swapId], reg'.swaps[p.swapId];
          && t.swapId == s.swapId && t.hashlock == s.hashlock && t.createdAt == s.createdAt
          && (p.side == Casper ==> t.evm == s.evm) && (p.side == Evm ==> t.casper == s.casper))
  }

  /** The transaction hash of the mock chain. */
  predicate IsTx(h: HashFn, tx: Option<string>, leg: Leg, action: string, now: int) {
    var chain := if leg.side == Casper then "casper" else "evm-mock";
    tx == Some("0x" + h(chain + ":" + leg.legId + ":" + action + ":" + IntStr(now)))
  }

  ghost predicate LegStored(reg: Registry, reg': Registry, p: Place, leg: Leg) {
    p.swapId in reg'.swaps && OnlyLeg(reg, reg', p) && LegAt(reg', p) == leg
  }

  // ----- lock --------------------------------------------------------------------------------------

  ghost predicate LockedAs(h: HashFn, a: Leg, b: Leg, now: int) {
    && SameTerms(a, b) && b.status == Locked && b.lockedAt == Some(now) && IsTx(h, b.lockTx, a, "lock", now)
    && b.preimage == a.preimage && b.claimedAt == a.claimedAt && b.refundedAt == a.refundedAt
    && b.claimTx == a.claimTx && b.refundTx == a.refundTx
  }

  /** A proposed leg is locked before its timelock, a locked one is left as it is, and every
      other call is refused without a change. */
  ghost predicate Locks(h: HashFn, reg: Registry, legId: string, now: int, reg': Registry, r: Result<Leg, RejectCode>) {
    && ((forall p: Place :: !LeadsTo(reg, legId, p)) ==> reg' == reg && r == Err(UnknownLeg))
    && forall p: Place | LeadsTo(reg, legId, p) ::
         var leg := LegAt(reg, p);
         match leg.status
         case Locked => reg' == reg && r == Ok(leg)
         case Proposed =>
           if leg.timelock <= now then reg' == reg && r == Err(TimelockExpired)
           else r.Ok? && LegStored(reg, reg', p, r.value) && LockedAs(h, leg, r.value, now)
         case _ => reg' == reg && r == Err(NotProposed)
  }

  lemma NoLead(reg: Registry, legId: string)
    ensures Find(reg, legId) == None <==> forall p: Place :: !LeadsTo(reg, legId, p)
  {
    if Find(reg, legId).Some? {
      FindExactly(reg, legId, Find(reg, legId).value);
    }
    forall p: Place | LeadsTo(reg, legId, p)
      ensures Find(reg, legId) == Some(p)
    {
      FindExactly(reg, legId, p);
    }
  }

  lemma PutStores(reg: Registry, p: Place, leg: Leg)
    requires p.swapId in reg.swaps
    ensures LegStored(reg, Put(reg, p, leg), p, leg)
  {
  }

  lemma PutBack(reg: Registry, p: Place)
    requires p.swapId in reg.swaps
    ensures Put(reg, p, LegAt(reg, p)) == reg
  {
    assert Put(reg, p, LegAt(reg, p)).swaps == reg.swaps;
  }

  lemma LockDoes(h: HashFn, reg: Registry, legId: string, now: int)
    ensures var l := Lock(h, reg, legId, now); Locks(h, reg, legId, now, l.0, l.1)
  {
    NoLead(reg, legId);
    forall p: Place | LeadsTo(reg, legId, p)
      ensures
        var leg, l := LegAt(reg, p), Lock(h, reg, legId, now);
        match leg.status
        case Locked => l == (reg, Ok(leg))
        case Proposed =>
          if leg.timelock <= now then l == (reg, Err(TimelockExpired))
          else l.1.Ok? && LegStored(reg, l.0, p, l.1.value) && LockedAs(h, leg, l.1.value, now)
        case _ => l == (reg, Err(NotProposed))
    {
      FindExactly(reg, legId, p);
      PutBack(reg, p);
      if LockLeg(h, LegAt(reg, p), now).Ok? {
        PutStores(reg, p, LockLeg(h, LegAt(reg, p), now).value);
      }
    }
  }

  // ----- claim -------------------------------------------------------------------------------------

  /** The hex text without 0x, in lower case. */
  function Plain(text: string): string {
    Lower(if "0x" <= text || "0X" <= text then text[2..] else text)
  }

  predicate IsHexText(s: string) {
    s != "" && forall i | 0 <= i < |s| :: '0' <= s[i] <= '9' || 'a' <= s[i] <= 'f'
  }

  /** The bytes of a preimage hash to the hashlock. */
  predicate HashesTo(h: HashFn, text: string, hashlock: string) {
    match Hex.FromHex(text)
    case None => false
    case Some(bytes) => h(BytesText(bytes)) == hashlock
  }

  ghost predicate ClaimedAs(h: HashFn, a: Leg, b: Leg, preimage: string, now: int) {
    && SameTerms(a, b) && b.status == Claimed && b.preimage == Some(preimage) && b.claimedAt == Some(now)
    && IsTx(h, b.claimTx, a, "claim", now)
    && b.lockedAt == a.lockedAt && b.refundedAt == a.refundedAt && b.lockTx == a.lockTx && b.refundTx == a.refundTx
  }

  /** What a claim of this leg comes to. */
  ghost predicate ClaimOf(h: HashFn, reg: Registry, p: Place, preimage: string, now: int,
                          reg': Registry, r: Result<Leg, RejectCode>)
    requires p.swapId in reg.swaps
  {
    var leg := LegAt(reg, p);
    match leg.status
    case Claimed => reg' == reg && r == Err(AlreadyClaimed)
    case Refunded => reg' == reg && r == Err(AlreadyRefunded)
    case Proposed => reg' == reg && r == Err(NotLocked)
    case Locked =>
      if leg.timelock <= now then reg' == reg && r == Err(TimelockExpired)
      else if !HashesTo(h, preimage, leg.hashlock) then reg' == reg && r == Err(PreimageMismatch)
      else r.Ok? && LegStored(reg, reg', p, r.value) && ClaimedAs(h, leg, r.value, preimage, now)
  }

  /** A locked leg is claimed before its timelock with a preimage of its hashlock; every other
      call is refused without a change. */
  ghost predicate Claims(h: HashFn, reg: Registry, legId: string, preimage: string, now: int,
                         reg': Registry, r: Result<Leg, RejectCode>)
  {
    if !IsHexText(Plain(preimage)) || Hex.FromHex(Plain(preimage)) == None then reg' == reg && r == Err(InvalidHashlock)
    else
      && ((forall p: Place :: !LeadsTo(reg, legId, p)) ==> reg' == reg && r == Err(UnknownLeg))
      && forall p: Place | LeadsTo(reg, legId, p) :: ClaimOf(h, reg, p, Plain(preimage), now, reg', r)
  }

  lemma LowerHex(s: string)
    ensures IsHexText(s) <==> s != "" && forall i | 0 <= i < |s| :: IsHexLower(s[i])
  {
    assert IsHexText(s) ==> forall i | 0 <= i < |s| :: IsHexLower(s[i]);
  }

  lemma PlainExactly(text: string)
    ensures NormHex(text) == if IsHexText(Plain(text)) then Some(Plain(text)) else None
  {
    LowerHex(Plain(text));
  }

  lemma ClaimLegDoes(h: HashFn, reg: Registry, p: Place, preimage: string, now: int)
    requires p.swapId in reg.swaps
    ensures var c := Commit(reg, p, ClaimLeg(h, LegAt(reg, p), preimage, now));
            ClaimOf(h, reg, p, preimage, now, c.0, c.1)
  {
    if ClaimLeg(h, LegAt(reg, p), preimage, now).Ok? {
      PutStores(reg, p, ClaimLeg(h, LegAt(reg, p), preimage, now).value);
    }
  }

  lemma ClaimDoes(h: HashFn, reg: Registry, legId: string, preimage: string, now: int)
    ensures var c := Claim(h, reg, legId, preimage, now); Claims(h, reg, legId, preimage, now, c.0, c.1)
  {
    PlainExactly(preimage);
    NoLead(reg, legId);
    forall p: Place | LeadsTo(reg, legId, p)
      ensures Find(reg, legId) == Some(p)
      ensures var c := Commit(reg, p, ClaimLeg(h, LegAt(reg, p), Plain(preimage), now));
              ClaimOf(h, reg, p, Plain(preimage), now, c.0, c.1)
    {
      FindExactly(reg, legId, p);
      ClaimLegDoes(h, reg, p, Plain(preimage), now);
    }
  }

  // ----- refund ------------------------------------------------------------------------------------

  ghost predicate RefundedAs(h: HashFn, a: Leg, b: Leg, now: int) {
    && SameTerms(a, b) && b.status == Refunded && b.refundedAt == Some(now) && IsTx(h, b.refundTx, a, "refund", now)
    && b.preimage == a.preimage && b.lockedAt == a.lockedAt && b.claimedAt == a.claimedAt
    && b.lockTx == a.lockTx && b.claimTx == a.claimTx
  }

  ghost predicate RefundOf(h: HashFn, reg: Registry, p: Place, now: int, reg': Registry, r: Result<Leg, RejectCode>)
    requires p.swapId in reg.swaps
  {
    var leg := LegAt(reg, p);
    match leg.status
    case Refunded => reg' == reg && r == Err(AlreadyRefunded)
    case Claimed => reg' == reg && r == Err(AlreadyClaimed)
    case Proposed => reg' == reg && r == Err(NotLocked)
    case Locked =>
      if leg.timelock > now then reg' == reg && r == Err(TimelockNotExpired)
      else r.Ok? && LegStored(reg, reg', p, r.value) && RefundedAs(h, leg, r.value, now)
  }

  /** A locked leg is refunded at or after its timelock; every other call is refused without
      a change. */
  ghost predicate Refunds(h: HashFn, reg: Registry, legId: string, now: int,
                          reg': Registry, r: Result<Leg, RejectCode>)
  {
    && ((forall p: Place :: !LeadsTo(reg, legId, p)) ==> reg' == reg && r == Err(UnknownLeg))
    && forall p: Place | LeadsTo(reg, legId, p) :: RefundOf(h, reg, p, now, reg', r)
  }

  lemma RefundLegDoes(h: HashFn, reg: Registry, p: Place, now: int)
    requires p.swapId in reg.swaps
    ensures var c := Commit(reg, p, RefundLeg(h, LegAt(reg, p), now)); RefundOf(h, reg, p, now, c.0, c.1)
  {
    if RefundLeg(h, LegAt(reg, p), now).Ok? {
      PutStores(reg, p, RefundLeg(h, LegAt(reg, p), now).value);
    }
  }

  lemma RefundDoes(h: HashFn, reg: Registry, legId: string, now: int)
    ensures var f := Refund(h, reg, legId, now); Refunds(h, reg, legId, now, f.0, f.1)
  {
    NoLead(reg, legId);
    forall p: Place | LeadsTo(reg, legId, p)
      ensures Find(reg, legId) == Some(p)
      ensures var c := Commit(reg, p, RefundLeg(h, LegAt(reg, p), now)); RefundOf(h, reg, p, now, c.0, c.1)
    {
      FindExactly(reg, legId, p);
      RefundLegDoes(h, reg, p, now);
    }
  }

  // ----- what a claimed leg shows ------------------------------------------------------------------------

  /** In every reachable registry the preimage of a claimed leg is lower-case hex of bytes that
      hash to the swap's hashlock. */
  lemma ClaimedShows(h: HashFn, events: seq<Event>, id: string, side: Side)
    requires var reg := Run(h, EMPTY, events); id in reg.swaps && reg.swaps[id].Get(side).status == Claimed
    ensures
      var s := Run(h, EMPTY, events).swaps[id];
      var preimage := s.Get(side).preimage;
      preimage.Some? && IsHexText(preimage.value) && HashesTo(h, preimage.value, s.hashlock)
  {
    var s := Run(h, EMPTY, events).swaps[id];
    ReachableIsSound(h, events);
    assert SwapOk(h, s);
    PlainExactly(s.Get(side).preimage.value);
  }
}
