/** What leg and swap ids tell apart, and what a new swap stores. */
module SwapIds {
  import opened Wrappers
  import opened Text
  import opened Decimal
  import opened Hashing
  import Hex
  import opened Htlc
  import opened Relay
  import opened SwapRuns
  import opened SwapSafety

  // ----- the hashed texts ---------------------------------------------------------------------------

  lemma SideNames(a: Side, b: Side)
    ensures Lacks(SideName(a), ':') && (SideName(a) == SideName(b) <==> a == b)
  {
    assert |SideName(Casper)| == 6 && |SideName(Evm)| == 8;
  }

  function Parties(initiator: string, counterparty: string): string {
    initiator + ":" + counterparty
  }

  lemma LegTextParts(side: Side, i: string, c: string, amount: int, hashlock: string, timelock: int)
    ensures
      var parties := SideName(side) + [':'] + Parties(i, c);
      LegText(side, i, c, amount, hashlock, timelock)
      == ((parties + [':'] + IntStr(amount)) + [':'] + hashlock) + [':'] + IntStr(timelock)
  {
    assert SideName(side) + ":" + i + ":" + c == SideName(side) + [':'] + Parties(i, c);
  }

  lemma CutParts(x: string, m: int, y: string, n: int)
    requires x + [':'] + IntStr(m) == y + [':'] + IntStr(n)
    ensures x == y && m == n
  {
    IntStrLacks(m, ':');
    IntStrLacks(n, ':');
    CutAtLast(':', x, IntStr(m), y, IntStr(n));
    IntStrInjective(m, n);
  }

  /** Read from the right and the left, a leg's text fixes everything but where the two parties
      part. */
  lemma LegTextExactly(side: Side, i: string, c: string, amount: int, hashlock: string, timelock: int,
                       side': Side, i': string, c': string, amount': int, hashlock': string, timelock': int)
    requires Lacks(hashlock, ':') && Lacks(hashlock', ':')
    ensures LegText(side, i, c, amount, hashlock, timelock) == LegText(side', i', c', amount', hashlock', timelock')
            <==> && side == side' && amount == amount' && hashlock == hashlock' && timelock == timelock'
                 && Parties(i, c) == Parties(i', c')
  {
    LegTextParts(side, i, c, amount, hashlock, timelock);
    LegTextParts(side', i', c', amount', hashlock', timelock');
    var p, q := SideName(side) + [':'] + Parties(i, c), SideName(side') + [':'] + Parties(i', c');
    if LegText(side, i, c, amount, hashlock, timelock) == LegText(side', i', c', amount', hashlock', timelock') {
      var x, y := p + [':'] + IntStr(amount), q + [':'] + IntStr(amount');
      CutParts(x + [':'] + hashlock, timelock, y + [':'] + hashlock', timelock');
      CutAtLast(':', x, hashlock, y, hashlock');
      CutParts(p, amount, q, amount');
      SideNames(side, side');
      SideNames(side', side);
      CutAtFirst(':', SideName(side), Parties(i, c), SideName(side'), Parties(i', c'));
    }
  }

  lemma SwapTextParts(hashlock: string, c: string, e: string)
    ensures SwapText(hashlock, c, e) == "swap:" + (hashlock + [':'] + Parties(c, e))
  {
  }

  lemma SwapTextExactly(hashlock: string, c: string, e: string, hashlock': string, c': string, e': string)
    requires Lacks(hashlock, ':') && Lacks(hashlock', ':')
    ensures SwapText(hashlock, c, e) == SwapText(hashlock', c', e')
            <==> hashlock == hashlock' && Parties(c, e) == Parties(c', e')
  {
    SwapTextParts(hashlock, c, e);
    SwapTextParts(hashlock', c', e');
    if SwapText(hashlock, c, e) == SwapText(hashlock', c', e') {
      var x, y := hashlock + [':'] + Parties(c, e), hashlock' + [':'] + Parties(c', e');
      assert ("swap:" + x)[5..] == x && ("swap:" + y)[5..] == y;
      CutAtFirst(':', hashlock, Parties(c, e), hashlock', Parties(c', e'));
    }
  }

  // ----- a new swap ---------------------------------------------------------------------------------

  function TextOf(leg: Leg): string {
    LegText(leg.side, leg.initiator, leg.counterparty, leg.amount, leg.hashlock, leg.timelock)
  }

  /** The ids are hashes of the swap's own terms, and its hashlock holds no colon. */
  predicate OwnIds(h: HashFn, s: Swap) {
    && s.casper.legId == h(TextOf(s.casper)) && s.evm.legId == h(TextOf(s.evm))
    && s.swapId == h(SwapText(s.hashlock, s.casper.initiator, s.evm.initiator))
    && s.casper.side == Casper && s.evm.side == Evm
    && s.casper.hashlock == s.evm.hashlock == s.hashlock && Lacks(s.hashlock, ':')
  }

  predicate FreshLeg(leg: Leg, side: Side, initiator: string, counterparty: string, amount: int, timelock: int) {
    && leg.side == side && leg.initiator == initiator && leg.counterparty == counterparty && leg.amount == amount
    && leg.timelock == timelock && leg.status == Proposed && leg.preimage == None
    && leg.lockedAt == None && leg.claimedAt == None && leg.refundedAt == None
    && leg.lockTx == None && leg.claimTx == None && leg.refundTx == None
  }

  /** 64 hexadecimal characters, after an optional 0x. */
  predicate IsHashlock(text: string) {
    var digits := Digits(text);
    |digits| == 64 && forall i | 0 <= i < |digits| :: Hex.IsHex(digits[i])
  }

  function Digits(text: string): string {
    if "0x" <= text || "0X" <= text then text[2..] else text
  }

  lemma HexLowered(s: string)
    ensures (forall i | 0 <= i < |s| :: Hex.IsHex(s[i]))
            <==> forall i | 0 <= i < |Lower(s)| :: IsHexLower(Lower(s)[i])
  {
    var t := Lower(s);
    if forall i | 0 <= i < |t| :: IsHexLower(t[i]) {
      forall i | 0 <= i < |s|
        ensures Hex.IsHex(s[i])
      {
        assert t[i] == LowerChar(s[i]);
      }
    }
  }

  lemma HashlockExactly(text: string)
    ensures IsHashlock(text) <==> NormHex(text).Some? && |NormHex(text).value| == 64
    ensures IsHashlock(text) ==> NormHex(text).value == Lower(Digits(text)) && Lacks(NormHex(text).value, ':')
  {
    HexLowered(Digits(text));
    assert NormHex(text) == if Lower(Digits(text)) != "" && forall i | 0 <= i < |Lower(Digits(text))| ::
                                 IsHexLower(Lower(Digits(text))[i]) then Some(Lower(Digits(text))) else None;
  }

  /** What a request stores: both legs as asked for, in lower-case hex, under their own ids. */
  ghost predicate Stores(h: HashFn, reg: Registry, r: Request, now: int, reg': Registry, s: Swap) {
    && s.swapId !in reg.swaps && reg'.swaps == reg.swaps[s.swapId := s] && reg'.order == reg.order + [s.swapId]
    && (forall id :: id in reg'.legIndex <==> id in reg.legIndex || id == s.casper.legId || id == s.evm.legId)
    && (forall id | id in reg'.legIndex ::
          reg'.legIndex[id] == if id == s.casper.legId || id == s.evm.legId then s.swapId else reg.legIndex[id])
    && FreshLeg(s.casper, Casper, r.casperInitiator, r.casperCounterparty, r.casperAmount, r.casperTimelock)
    && FreshLeg(s.evm, Evm, r.evmInitiator, r.evmCounterparty, r.evmAmount, r.evmTimelock)
    && s.hashlock == Lower(Digits(r.hashlock))
    && s.createdAt == now && OwnIds(h, s)
  }

  /** A request is stored or refused: first for its hashlock, then its amounts, then its
      timelocks, then because a swap of that id exists. */
  lemma InitiateExactly(h: HashFn, reg: Registry, r: Request, now: int)
    ensures
      var i := Initiate(h, reg, r, now);
      if !IsHashlock(r.hashlock) then i == (reg, Err(InvalidHashlock))
      else if r.casperAmount < 1 || r.evmAmount < 1 then i == (reg, Err(InvalidAmount))
      else if r.casperTimelock <= r.evmTimelock then i == (reg, Err(TimelockOrdering))
      else if i.1.Err? then
        && i == (reg, Err(LegAlreadyExists))
        && h(SwapText(NormHex(r.hashlock).value, r.casperInitiator, r.evmInitiator)) in reg.swaps
      else Stores(h, reg, r, now, i.0, i.1.value)
  {
    HashlockExactly(r.hashlock);
  }

  // ----- when ids agree -----------------------------------------------------------------------------

  ghost predicate SameDeal(a: Leg, b: Leg) {
    && a.side == b.side && a.amount == b.amount && a.hashlock == b.hashlock && a.timelock == b.timelock
    && Parties(a.initiator, a.counterparty) == Parties(b.initiator, b.counterparty)
  }

  /** Two legs have one id if and only if side, amount, hashlock and timelock agree, and the
      parties up to where they part. */
  lemma LegIdsExactly(h: HashFn, a: Leg, b: Leg)
    requires a.legId == h(TextOf(a)) && b.legId == h(TextOf(b)) && Lacks(a.hashlock, ':') && Lacks(b.hashlock, ':')
    requires CollisionFree(h, {TextOf(a), TextOf(b)})
    ensures a.legId == b.legId <==> SameDeal(a, b)
  {
    LegTextExactly(a.side, a.initiator, a.counterparty, a.amount, a.hashlock, a.timelock,
                   b.side, b.initiator, b.counterparty, b.amount, b.hashlock, b.timelock);
  }

  /** Two swaps have one id if and only if the hashlocks agree, and the initiators up to where
      they part. */
  lemma SwapIdsExactly(h: HashFn, s: Swap, t: Swap)
    requires OwnIds(h, s) && OwnIds(h, t)
    requires CollisionFree(h, {SwapText(s.hashlock, s.casper.initiator, s.evm.initiator),
                               SwapText(t.hashlock, t.casper.initiator, t.evm.initiator)})
    ensures s.swapId == t.swapId
            <==> s.hashlock == t.hashlock
                 && Parties(s.casper.initiator, s.evm.initiator) == Parties(t.casper.initiator, t.evm.initiator)
  {
    SwapTextExactly(s.hashlock, s.casper.initiator, s.evm.initiator, t.hashlock, t.casper.initiator, t.evm.initiator);
  }

  /** The two legs of a swap have different ids. */
  lemma LegsApart(h: HashFn, s: Swap)
    requires OwnIds(h, s) && CollisionFree(h, {TextOf(s.casper), TextOf(s.evm)})
    ensures s.casper.legId != s.evm.legId
  {
    LegIdsExactly(h, s.casper, s.evm);
  }

  ghost predicate LegTextsApart(h: HashFn, s: Swap, t: Swap) {
    CollisionFree(h, {TextOf(s.casper), TextOf(s.evm), TextOf(t.casper), TextOf(t.evm)})
  }

  /** Swaps with different hashlocks share no leg id. */
  lemma HashlocksApart(h: HashFn, s: Swap, t: Swap)
    requires OwnIds(h, s) && OwnIds(h, t) && s.hashlock != t.hashlock && LegTextsApart(h, s, t)
    ensures NotOf(s, t.casper.legId) && NotOf(s, t.evm.legId)
  {
    LegIdsExactly(h, s.casper, t.casper);
    LegIdsExactly(h, s.casper, t.evm);
    LegIdsExactly(h, s.evm, t.casper);
    LegIdsExactly(h, s.evm, t.evm);
  }

  // ----- runs ---------------------------------------------------------------------------------------

  ghost predicate AllOwn(h: HashFn, reg: Registry) {
    forall id | id in reg.swaps :: OwnIds(h, reg.swaps[id])
  }

  lemma TermsKeepIds(h: HashFn, s: Swap, t: Swap)
    requires OwnIds(h, s) && SameTerms(s.casper, t.casper) && SameTerms(s.evm, t.evm)
    requires t.hashlock == s.hashlock && t.swapId == s.swapId
    ensures OwnIds(h, t)
  {
  }

  lemma InitiateKeepsIds(h: HashFn, reg: Registry, r: Request, now: int)
    requires AllOwn(h, reg)
    ensures AllOwn(h, Initiate(h, reg, r, now).0)
  {
    InitiateExactly(h, reg, r, now);
  }

  lemma StepKeepsIds(h: HashFn, reg: Registry, e: Event)
    requires Inv(h, reg) && AllOwn(h, reg)
    ensures AllOwn(h, Step(h, reg, e))
  {
    if e.op.DoInitiate? {
      InitiateKeepsIds(h, reg, e.op.request, e.now);
    } else {
      StepKeepsInv(h, reg, e);
      StepEvolves(h, reg, e);
      StepKeepsSwaps(h, reg, e);
      forall id | id in Step(h, reg, e).swaps
        ensures OwnIds(h, Step(h, reg, e).swaps[id])
      {
        TermsKeepIds(h, reg.swaps[id], Step(h, reg, e).swaps[id]);
      }
    }
  }

  lemma StepKeepsSwaps(h: HashFn, reg: Registry, e: Event)
    requires OrderOk(reg) && !e.op.DoInitiate?
    ensures Step(h, reg, e).swaps.Keys == reg.swaps.Keys
  {
    if IsLegCall(e.op) {
      LegCallIsMove(h, reg, e);
      MoveKeepsIndex(h, reg, Step(h, reg, e), e.now);
    } else {
      SweepKeepsIndex(h, reg, Snapshot(reg, reg.order), e.now);
    }
  }

  /** Over every run each leg and swap keeps the id that its own terms give it. */
  lemma {:induction false} RunKeepsIds(h: HashFn, reg: Registry, events: seq<Event>)
    requires Inv(h, reg) && AllOwn(h, reg)
    ensures AllOwn(h, Run(h, reg, events))
    decreases |events|
  {
    if events != [] {
      StepKeepsInv(h, reg, events[0]);
      StepKeepsIds(h, reg, events[0]);
      RunKeepsIds(h, Step(h, reg, events[0]), events[1..]);
    }
  }

  /** In every reachable registry two swaps share a leg id only if they share the hashlock. */
  lemma ReachableHashlocksApart(h: HashFn, events: seq<Event>, id: string, other: string)
    requires
      var reg := Run(h, EMPTY, events);
      && id in reg.swaps && other in reg.swaps && reg.swaps[id].hashlock != reg.swaps[other].hashlock
      && LegTextsApart(h, reg.swaps[id], reg.swaps[other])
    ensures
      var reg := Run(h, EMPTY, events);
      NotOf(reg.swaps[id], reg.swaps[other].casper.legId) && NotOf(reg.swaps[id], reg.swaps[other].evm.legId)
  {
    var reg := Run(h, EMPTY, events);
    RunKeepsIds(h, EMPTY, events);
    HashlocksApart(h, reg.swaps[id], reg.swaps[other]);
  }
}
