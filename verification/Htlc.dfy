/** The hash time-locked swap registry as a state machine on values. HtlcRegistry
    implements it in place; SwapRuns proves what its runs keep. */
module Htlc {
  import opened Wrappers
  import opened Decimal
  import opened Hashing
  import opened Text
  import Hex

  datatype Side = Casper | Evm

  datatype Status = Proposed | Locked | Claimed | Refunded

  datatype RejectCode =
    | PreimageMismatch | TimelockNotExpired | TimelockExpired | AlreadyClaimed | AlreadyRefunded
    | NotLocked | NotProposed | UnknownLeg | LegAlreadyExists | InvalidHashlock | InvalidAmount | TimelockOrdering

  datatype Leg = Leg(legId: string, side: Side, initiator: string, counterparty: string, amount: int,
                     hashlock: string, timelock: int, status: Status, preimage: Option<string>,
                     lockedAt: Option<int>, claimedAt: Option<int>, refundedAt: Option<int>,
                     lockTx: Option<string>, claimTx: Option<string>, refundTx: Option<string>)
  {
    predicate Terminal() {
      status == Claimed || status == Refunded
    }
  }

  datatype Swap = Swap(swapId: string, hashlock: string, casper: Leg, evm: Leg, createdAt: int)
  {
    function Get(side: Side): Leg {
      if side == Casper then casper else evm
    }

    function Set(side: Side, leg: Leg): Swap {
      if side == Casper then this.(casper := leg) else this.(evm := leg)
    }
  }

  /** `order` lists the swap ids in insertion order, as iterating the dict does. */
  datatype Registry = Registry(swaps: map<string, Swap>, order: seq<string>, legIndex: map<string, string>)

  const EMPTY := Registry(map[], [], map[])

  // ----- helpers ------------------------------------------------------------------

  /** Lower-case hex without 0x; None where the code raises INVALID_HASHLOCK. */
  function NormHex(s: string): (r: Option<string>)
    ensures r.Some? ==> r.value != "" && forall i | 0 <= i < |r.value| :: IsHexLower(r.value[i])
  {
    var t := Lower(if "0x" <= s || "0X" <= s then s[2..] else s);
    if t != "" && forall i | 0 <= i < |t| :: IsHexLower(t[i]) then Some(t) else None
  }

  function BytesText(bs: seq<Hex.byte>): string {
    seq(|bs|, i requires 0 <= i < |bs| => bs[i] as char)
  }

  /** Does this hex preimage hash to this hashlock? */
  predicate Opens(h: HashFn, preimage: string, hashlock: string) {
    Hex.FromHex(preimage).Some? && h(BytesText(Hex.FromHex(preimage).value)) == hashlock
  }

  function SideName(side: Side): string {
    if side == Casper then "casper" else "evm-mock"
  }

  /** What a leg id hashes. */
  function LegText(side: Side, initiator: string, counterparty: string, amount: int, hashlock: string, timelock: int)
    : string
  {
    SideName(side) + ":" + initiator + ":" + counterparty + ":" + IntStr(amount) + ":" + hashlock
    + ":" + IntStr(timelock)
  }

  function LegId(h: HashFn, side: Side, initiator: string, counterparty: string, amount: int,
                 hashlock: string, timelock: int): string
  {
    h(LegText(side, initiator, counterparty, amount, hashlock, timelock))
  }

  function SwapText(hashlock: string, casperInitiator: string, evmInitiator: string): string {
    "swap:" + hashlock + ":" + casperInitiator + ":" + evmInitiator
  }

  function SwapId(h: HashFn, hashlock: string, casperInitiator: string, evmInitiator: string): string {
    h(SwapText(hashlock, casperInitiator, evmInitiator))
  }

  function TxHash(h: HashFn, side: Side, legId: string, action: string, now: int): string {
    "0x" + h(SideName(side) + ":" + legId + ":" + action + ":" + IntStr(now))
  }

  // ----- the transitions of one leg -------------------------------------------------

  function LockLeg(h: HashFn, leg: Leg, now: int): Result<Leg, RejectCode> {
    if leg.status == Locked then Ok(leg)
    else if leg.status != Proposed then Err(NotProposed)
    else if now >= leg.timelock then Err(TimelockExpired)
    else Ok(leg.(status := Locked, lockedAt := Some(now), lockTx := Some(TxHash(h, leg.side, leg.legId, "lock", now))))
  }

  function ClaimLeg(h: HashFn, leg: Leg, preimage: string, now: int): Result<Leg, RejectCode> {
    if leg.status == Claimed then Err(AlreadyClaimed)
    else if leg.status == Refunded then Err(AlreadyRefunded)
    else if leg.status != Locked then Err(NotLocked)
    else if now >= leg.timelock then Err(TimelockExpired)
    else if !Opens(h, preimage, leg.hashlock) then Err(PreimageMismatch)
    else Ok(leg.(status := Claimed, preimage := Some(preimage), claimedAt := Some(now),
                 claimTx := Some(TxHash(h, leg.side, leg.legId, "claim", now))))
  }

  function RefundLeg(h: HashFn, leg: Leg, now: int): Result<Leg, RejectCode> {
    if leg.status == Refunded then Err(AlreadyRefunded)
    else if leg.status == Claimed then Err(AlreadyClaimed)
    else if leg.status != Locked then Err(NotLocked)
    else if now < leg.timelock then Err(TimelockNotExpired)
    else Ok(leg.(status := Refunded, refundedAt := Some(now),
                 refundTx := Some(TxHash(h, leg.side, leg.legId, "refund", now))))
  }

  // ----- registry operations ----------------------------------------------------------

  datatype Place = Place(swapId: string, side: Side)

  /** Where the index leads for a leg id. */
  function Find(reg: Registry, legId: string): (p: Option<Place>)
    ensures p.Some? ==> p.value.swapId in reg.swaps && reg.swaps[p.value.swapId].Get(p.value.side).legId == legId
    ensures p.Some? ==> legId in reg.legIndex && reg.legIndex[legId] == p.value.swapId
  {
    if legId !in reg.legIndex then None
    else
      var id := reg.legIndex[legId];
      if id == "" || id !in reg.swaps then None
      else if reg.swaps[id].casper.legId == legId then Some(Place(id, Casper))
      else if reg.swaps[id].evm.legId == legId then Some(Place(id, Evm))
      else None
  }

  function LegAt(reg: Registry, p: Place): Leg
    requires p.swapId in reg.swaps
  {
    reg.swaps[p.swapId].Get(p.side)
  }

  function Put(reg: Registry, p: Place, leg: Leg): Registry
    requires p.swapId in reg.swaps
  {
    reg.(swaps := reg.swaps[p.swapId := reg.swaps[p.swapId].Set(p.side, leg)])
  }

  type Outcome = (Registry, Result<Leg, RejectCode>)

  function Commit(reg: Registry, p: Place, r: Result<Leg, RejectCode>): Outcome
    requires p.swapId in reg.swaps
  {
    match r
    case Ok(leg) => (Put(reg, p, leg), r)
    case Err(_) => (reg, r)
  }

  function Lock(h: HashFn, reg: Registry, legId: string, now: int): Outcome {
    match Find(reg, legId)
    case None => (reg, Err(UnknownLeg))
    case Some(p) => Commit(reg, p, LockLeg(h, LegAt(reg, p), now))
  }

  function Claim(h: HashFn, reg: Registry, legId: string, preimage: string, now: int): Outcome {
    match NormHex(preimage)
    case None => (reg, Err(InvalidHashlock))
    case Some(norm) =>
      if Hex.FromHex(norm) == None then (reg, Err(InvalidHashlock))
      else match Find(reg, legId)
        case None => (reg, Err(UnknownLeg))
        case Some(p) => Commit(reg, p, ClaimLeg(h, LegAt(reg, p), norm, now))
  }

  function Refund(h: HashFn, reg: Registry, legId: string, now: int): Outcome {
    match Find(reg, legId)
    case None => (reg, Err(UnknownLeg))
    case Some(p) => Commit(reg, p, RefundLeg(h, LegAt(reg, p), now))
  }

  datatype Request = Request(hashlock: string,
                             casperInitiator: string, casperCounterparty: string, casperAmount: int,
                             casperTimelock: int,
                             evmInitiator: string, evmCounterparty: string, evmAmount: int, evmTimelock: int)

  function NewLeg(h: HashFn, side: Side, initiator: string, counterparty: string, amount: int,
                  hashlock: string, timelock: int): Leg
  {
    Leg(LegId(h, side, initiator, counterparty, amount, hashlock, timelock), side, initiator, counterparty,
        amount, hashlock, timelock, Proposed, None, None, None, None, None, None, None)
  }

  function NewSwap(h: HashFn, r: Request, hashlock: string, now: int): Swap {
    Swap(SwapId(h, hashlock, r.casperInitiator, r.evmInitiator), hashlock,
         NewLeg(h, Casper, r.casperInitiator, r.casperCounterparty, r.casperAmount, hashlock, r.casperTimelock),
         NewLeg(h, Evm, r.evmInitiator, r.evmCounterparty, r.evmAmount, hashlock, r.evmTimelock), now)
  }

  /** Why a request is refused before the registry is looked at. */
  function RequestError(r: Request): Option<RejectCode> {
    match NormHex(r.hashlock)
    case None => Some(InvalidHashlock)
    case Some(hashlock) =>
      if |hashlock| != 64 then Some(InvalidHashlock)
      else if r.casperAmount <= 0 || r.evmAmount <= 0 then Some(InvalidAmount)
      else if r.evmTimelock >= r.casperTimelock then Some(TimelockOrdering)
      else None
  }

  function Initiate(h: HashFn, reg: Registry, r: Request, now: int): (Registry, Result<Swap, RejectCode>) {
    match RequestError(r)
    case Some(e) => (reg, Err(e))
    case None =>
      var swap := NewSwap(h, r, NormHex(r.hashlock).value, now);
      if swap.swapId in reg.swaps then (reg, Err(LegAlreadyExists))
      else (Add(reg, swap), Ok(swap))
  }

  /** Stores a swap and points the index at it from both leg ids, whatever they pointed
      to before. */
  function Add(reg: Registry, swap: Swap): Registry {
    Registry(reg.swaps[swap.swapId := swap], reg.order + [swap.swapId],
             reg.legIndex[swap.casper.legId := swap.swapId][swap.evm.legId := swap.swapId])
  }

  // ----- observers ------------------------------------------------------------------

  datatype AtomicOutcome = Completed | Aborted | InProgress

  datatype Summary = Summary(casperStatus: Status, evmStatus: Status, revealed: Option<string>,
                             outcome: AtomicOutcome, safetyViolation: bool)

  function Revealed(s: Swap): Option<string> {
    if s.casper.preimage.Some? then s.casper.preimage else s.evm.preimage
  }

  predicate Mixed(s: Swap) {
    (s.casper.status == Claimed && s.evm.status == Refunded) || (s.casper.status == Refunded && s.evm.status == Claimed)
  }

  function Summarize(reg: Registry, swapId: string): Option<Summary> {
    if swapId !in reg.swaps then None
    else
      var s := reg.swaps[swapId];
      var both := (st: Status) => s.casper.status == st && s.evm.status == st;
      Some(Summary(s.casper.status, s.evm.status, Revealed(s),
                   if both(Claimed) then Completed else if both(Refunded) then Aborted else InProgress, Mixed(s)))
  }

  // ----- what every reachable registry satisfies --------------------------------------

  predicate LegOk(h: HashFn, leg: Leg) {
    && leg.amount > 0
    && (leg.status == Claimed <==> leg.claimedAt.Some?)
    && (leg.status == Claimed <==> leg.preimage.Some?)
    && (leg.status == Claimed ==> leg.claimedAt.value < leg.timelock && Opens(h, leg.preimage.value, leg.hashlock)
                                  && NormHex(leg.preimage.value) == leg.preimage)
    && (leg.status == Refunded <==> leg.refundedAt.Some?)
    && (leg.status == Refunded ==> leg.refundedAt.value >= leg.timelock)
    && (leg.status == Proposed <==> leg.lockedAt == None)
    && (leg.lockedAt.Some? ==> leg.lockedAt.value < leg.timelock)
  }

  predicate SwapOk(h: HashFn, s: Swap) {
    && LegOk(h, s.casper) && LegOk(h, s.evm)
    && s.casper.side == Casper && s.evm.side == Evm
    && s.casper.hashlock == s.evm.hashlock == s.hashlock
    && s.evm.timelock < s.casper.timelock
  }

  predicate IndexSound(reg: Registry) {
    forall id | id in reg.legIndex :: Find(reg, id).Some?
  }

  predicate OrderOk(reg: Registry) {
    && (forall i | 0 <= i < |reg.order| :: reg.order[i] in reg.swaps)
    && (forall id | id in reg.swaps :: id in reg.order)
    && (forall i, j | 0 <= i < j < |reg.order| :: reg.order[i] != reg.order[j])
  }

  ghost predicate Inv(h: HashFn, reg: Registry) {
    && (forall id | id in reg.swaps :: id != "" && reg.swaps[id].swapId == id && SwapOk(h, reg.swaps[id]))
    && IndexSound(reg) && OrderOk(reg)
  }

  lemma NormHexIdempotent(s: string)
    requires s != "" && forall i | 0 <= i < |s| :: IsHexLower(s[i])
    ensures NormHex(s) == Some(s)
  {
    assert !("0x" <= s) && !("0X" <= s) by {
      assert "0x"[1] == 'x' && "0X"[1] == 'X';
      assert |s| > 1 ==> IsHexLower(s[1]);
    }
    assert Lower(s) == s;
  }

  /** A leg that passed one of the three transitions. */
  lemma TransitionKeepsLegOk(h: HashFn, leg: Leg, preimage: string, now: int)
    requires LegOk(h, leg)
    ensures LockLeg(h, leg, now).Ok? ==> LegOk(h, LockLeg(h, leg, now).value)
    ensures NormHex(preimage) == Some(preimage) && ClaimLeg(h, leg, preimage, now).Ok?
            ==> LegOk(h, ClaimLeg(h, leg, preimage, now).value)
    ensures RefundLeg(h, leg, now).Ok? ==> LegOk(h, RefundLeg(h, leg, now).value)
  {
  }

  /** What no transition changes. */
  predicate SameTerms(a: Leg, b: Leg) {
    && a.legId == b.legId && a.side == b.side && a.initiator == b.initiator && a.counterparty == b.counterparty
    && a.amount == b.amount && a.hashlock == b.hashlock && a.timelock == b.timelock
  }

  lemma PutKeepsIndex(reg: Registry, p: Place, leg: Leg)
    requires IndexSound(reg) && p.swapId in reg.swaps && LegAt(reg, p).legId == leg.legId
    ensures IndexSound(Put(reg, p, leg))
  {
    var reg' := Put(reg, p, leg);
    forall id | id in reg'.legIndex
      ensures Find(reg', id).Some?
    {
      assert Find(reg, id).Some?;
    }
  }

  lemma SetKeepsSwapOk(h: HashFn, s: Swap, side: Side, leg: Leg)
    requires SwapOk(h, s) && SameTerms(s.Get(side), leg) && LegOk(h, leg)
    ensures SwapOk(h, s.Set(side, leg)) && s.Set(side, leg).swapId == s.swapId
  {
  }

  lemma PutKeepsInv(h: HashFn, reg: Registry, p: Place, leg: Leg)
    requires Inv(h, reg) && p.swapId in reg.swaps
    requires SameTerms(LegAt(reg, p), leg) && LegOk(h, leg)
    ensures Inv(h, Put(reg, p, leg))
  {
    PutKeepsIndex(reg, p, leg);
    SetKeepsSwapOk(h, reg.swaps[p.swapId], p.side, leg);
    assert OrderOk(Put(reg, p, leg));
  }

  lemma AddKeepsIndex(reg: Registry, swap: Swap)
    requires IndexSound(reg) && swap.swapId !in reg.swaps && swap.swapId != ""
    ensures IndexSound(Add(reg, swap))
  {
    var reg' := Add(reg, swap);
    forall id | id in reg'.legIndex
      ensures Find(reg', id).Some?
    {
      if id != swap.casper.legId && id != swap.evm.legId {
        assert Find(reg, id).Some?;
      }
    }
  }

  lemma AddKeepsOrder(reg: Registry, swap: Swap)
    requires OrderOk(reg) && swap.swapId !in reg.swaps
    ensures OrderOk(Add(reg, swap))
  {
    var reg' := Add(reg, swap);
    forall id | id in reg'.swaps
      ensures id in reg'.order
    {
      if id == swap.swapId {
        assert reg'.order[|reg.order|] == id;
      } else {
        assert id in reg.order;
      }
    }
    assert forall i | 0 <= i < |reg.order| :: reg.order[i] in reg.swaps;
  }

  lemma NewSwapOk(h: HashFn, r: Request, now: int)
    requires RequestError(r) == None
    ensures SwapOk(h, NewSwap(h, r, NormHex(r.hashlock).value, now))
    ensures NewSwap(h, r, NormHex(r.hashlock).value, now).swapId != ""
  {
    var hashlock := NormHex(r.hashlock).value;
    var id: Digest := h(SwapText(hashlock, r.casperInitiator, r.evmInitiator));
    assert |id| == 64;
  }

  lemma InitiateKeepsInv(h: HashFn, reg: Registry, r: Request, now: int)
    requires Inv(h, reg)
    ensures Inv(h, Initiate(h, reg, r, now).0)
  {
    if RequestError(r) == None {
      NewSwapOk(h, r, now);
      AddKeepsInv(h, reg, NewSwap(h, r, NormHex(r.hashlock).value, now));
    }
  }

  lemma AddKeepsInv(h: HashFn, reg: Registry, swap: Swap)
    requires Inv(h, reg) && SwapOk(h, swap) && swap.swapId != ""
    ensures swap.swapId !in reg.swaps ==> Inv(h, Add(reg, swap))
  {
    if swap.swapId !in reg.swaps {
      AddKeepsIndex(reg, swap);
      AddKeepsOrder(reg, swap);
    }
  }
}
