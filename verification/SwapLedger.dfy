/** Conservation: on each side, what was ever locked is what is still locked plus what
    was claimed plus what was refunded, over every run. */
module SwapLedger {
  import opened Wrappers
  import opened Hashing
  import opened Htlc
  import opened Relay
  import opened SwapRuns

  function AmountIn(s: Swap, side: Side, st: Status): int {
    if s.Get(side).status == st then s.Get(side).amount else 0
  }

  /** Amounts on one side whose legs are in one status, over the listed swaps. */
  function Total(reg: Registry, ids: seq<string>, side: Side, st: Status): int
    requires forall i | 0 <= i < |ids| :: ids[i] in reg.swaps
  {
    if ids == [] then 0 else AmountIn(reg.swaps[ids[0]], side, st) + Total(reg, ids[1..], side, st)
  }

  function SideTotal(reg: Registry, side: Side, st: Status): int
    requires OrderOk(reg)
  {
    Total(reg, reg.order, side, st)
  }

  function Held(reg: Registry, side: Side): int
    requires OrderOk(reg)
  {
    SideTotal(reg, side, Locked) + SideTotal(reg, side, Claimed) + SideTotal(reg, side, Refunded)
  }

  lemma {:induction false} TotalUnchanged(reg: Registry, reg': Registry, ids: seq<string>, side: Side, st: Status)
    requires forall i | 0 <= i < |ids| :: ids[i] in reg.swaps && ids[i] in reg'.swaps
    requires forall i | 0 <= i < |ids| ::
               AmountIn(reg'.swaps[ids[i]], side, st) == AmountIn(reg.swaps[ids[i]], side, st)
    ensures Total(reg', ids, side, st) == Total(reg, ids, side, st)
  {
    if ids != [] {
      TotalUnchanged(reg, reg', ids[1..], side, st);
    }
  }

  /** Changing one listed swap changes the total by that swap's difference. */
  lemma {:induction false} TotalAfterPut(reg: Registry, p: Place, leg: Leg, ids: seq<string>, side: Side, st: Status)
    requires p.swapId in ids && (forall i | 0 <= i < |ids| :: ids[i] in reg.swaps)
    requires forall i, j | 0 <= i < j < |ids| :: ids[i] != ids[j]
    ensures p.swapId in reg.swaps
    ensures Total(Put(reg, p, leg), ids, side, st) - Total(reg, ids, side, st)
            == AmountIn(reg.swaps[p.swapId].Set(p.side, leg), side, st) - AmountIn(reg.swaps[p.swapId], side, st)
  {
    var reg' := Put(reg, p, leg);
    if ids[0] == p.swapId {
      assert forall i | 0 <= i < |ids[1..]| :: ids[1..][i] == ids[i + 1] != p.swapId;
      TotalUnchanged(reg, reg', ids[1..], side, st);
    } else {
      TotalAfterPut(reg, p, leg, ids[1..], side, st);
    }
  }

  /** What a move adds to the sum over all statuses but Proposed. */
  function Gain(a: Leg, b: Leg): int {
    if a.status == Proposed && b.status == Locked then b.amount else 0
  }

  lemma MoveGain(h: HashFn, reg: Registry, reg': Registry, p: Place, now: int, side: Side)
    requires Inv(h, reg) && MovesAt(h, reg, reg', p, now)
    ensures OrderOk(reg')
    ensures Held(reg', side) == Held(reg, side) + if p.side == side then Gain(LegAt(reg, p), LegAt(reg', p)) else 0
  {
    var leg := LegAt(reg', p);
    assert p.swapId in reg.order;
    TotalAfterPut(reg, p, leg, reg.order, side, Locked);
    TotalAfterPut(reg, p, leg, reg.order, side, Claimed);
    TotalAfterPut(reg, p, leg, reg.order, side, Refunded);
  }

  /** The amount a lock call escrows on a side: nothing when it is refused or repeated. */
  function LockedBy(h: HashFn, reg: Registry, e: Event, side: Side): int {
    if !e.op.DoLock? then 0
    else match Find(reg, e.op.legId)
      case None => 0
      case Some(p) =>
        var leg := LegAt(reg, p);
        if p.side == side && leg.status == Proposed && e.now < leg.timelock then leg.amount else 0
  }

  predicate NeverLocks(reg: Registry, reg': Registry) {
    forall id | id in reg.swaps ::
      && id in reg'.swaps
      && (reg.swaps[id].casper.status == Proposed ==> reg'.swaps[id].casper.status == Proposed)
      && (reg.swaps[id].evm.status == Proposed ==> reg'.swaps[id].evm.status == Proposed)
  }

  lemma MoveWithoutLock(h: HashFn, reg: Registry, reg': Registry, now: int, side: Side)
    requires Inv(h, reg) && IsMove(h, reg, reg', now) && NeverLocks(reg, reg')
    ensures OrderOk(reg') && Held(reg', side) == Held(reg, side)
  {
    if reg' != reg {
      var p: Place :| MovesAt(h, reg, reg', p, now);
      MoveGain(h, reg, reg', p, now, side);
    }
  }

  lemma ClaimNeverLocks(h: HashFn, reg: Registry, legId: string, preimage: string, now: int)
    ensures NeverLocks(reg, Claim(h, reg, legId, preimage, now).0)
  {
  }

  lemma RefundNeverLocks(h: HashFn, reg: Registry, legId: string, now: int)
    ensures NeverLocks(reg, Refund(h, reg, legId, now).0)
  {
  }

  lemma PerformNeverLocks(h: HashFn, reg: Registry, action: Action, now: int)
    ensures NeverLocks(reg, Perform(h, reg, action, now).0)
  {
    match action
    case ClaimCall(legId, preimage) =>
      if preimage.Some? {
        ClaimNeverLocks(h, reg, legId, preimage.value, now);
      }
    case RefundCall(legId) => RefundNeverLocks(h, reg, legId, now);
    case Idle =>
  }

  lemma {:induction false} SweepHolds(h: HashFn, reg: Registry, snaps: seq<RelaySwap>, now: int, side: Side)
    requires Inv(h, reg)
    ensures OrderOk(Sweep(h, reg, snaps, now)) && Held(Sweep(h, reg, snaps, now), side) == Held(reg, side)
    decreases |snaps|
  {
    if snaps != [] {
      var action := Decide(snaps[0], now);
      var reg' := Perform(h, reg, action, now).0;
      PerformIsMove(h, reg, action, now);
      PerformNeverLocks(h, reg, action, now);
      MoveKeepsInv(h, reg, reg', now);
      MoveWithoutLock(h, reg, reg', now, side);
      SweepHolds(h, reg', snaps[1..], now, side);
    }
  }

  lemma LockGain(h: HashFn, reg: Registry, legId: string, now: int, side: Side)
    requires Inv(h, reg)
    ensures OrderOk(Lock(h, reg, legId, now).0)
    ensures Held(Lock(h, reg, legId, now).0, side)
          == Held(reg, side) + LockedBy(h, reg, Event(DoLock(legId), now), side)
  {
    match Find(reg, legId)
    case None =>
    case Some(p) =>
      var reg' := Lock(h, reg, legId, now).0;
      if LockLeg(h, LegAt(reg, p), now).Ok? {
        LockLegMoves(h, LegAt(reg, p), now);
        assert MovesAt(h, reg, reg', p, now);
        MoveGain(h, reg, reg', p, now, side);
      }
  }

  lemma {:induction false} TotalAppend(reg: Registry, ids: seq<string>, id: string, side: Side, st: Status)
    requires id in reg.swaps && forall i | 0 <= i < |ids| :: ids[i] in reg.swaps
    ensures Total(reg, ids + [id], side, st) == Total(reg, ids, side, st) + AmountIn(reg.swaps[id], side, st)
  {
    if ids == [] {
      assert ids + [id] == [id];
      assert Total(reg, [id], side, st) == AmountIn(reg.swaps[id], side, st) + Total(reg, [], side, st);
    } else {
      assert (ids + [id])[1..] == ids[1..] + [id];
      TotalAppend(reg, ids[1..], id, side, st);
    }
  }

  lemma AddHolds(reg: Registry, swap: Swap, side: Side)
    requires OrderOk(reg) && swap.swapId !in reg.swaps
    requires swap.casper.status == Proposed && swap.evm.status == Proposed
    ensures OrderOk(Add(reg, swap)) && Held(Add(reg, swap), side) == Held(reg, side)
  {
    AddKeepsOrder(reg, swap);
    AddTotal(reg, swap, side, Locked);
    AddTotal(reg, swap, side, Claimed);
    AddTotal(reg, swap, side, Refunded);
  }

  lemma AddTotal(reg: Registry, swap: Swap, side: Side, st: Status)
    requires OrderOk(reg) && swap.swapId !in reg.swaps && swap.Get(side).status != st && OrderOk(Add(reg, swap))
    ensures SideTotal(Add(reg, swap), side, st) == SideTotal(reg, side, st)
  {
    var reg' := Add(reg, swap);
    TotalAppend(reg', reg.order, swap.swapId, side, st);
    TotalUnchanged(reg, reg', reg.order, side, st);
  }

  lemma InitiateHolds(h: HashFn, reg: Registry, r: Request, now: int, side: Side)
    requires Inv(h, reg)
    ensures OrderOk(Initiate(h, reg, r, now).0) && Held(Initiate(h, reg, r, now).0, side) == Held(reg, side)
  {
    if RequestError(r) == None {
      var swap := NewSwap(h, r, NormHex(r.hashlock).value, now);
      if swap.swapId !in reg.swaps {
        AddHolds(reg, swap, side);
      }
    }
  }

  lemma StepGain(h: HashFn, reg: Registry, e: Event, side: Side)
    requires Inv(h, reg)
    ensures OrderOk(Step(h, reg, e)) && Held(Step(h, reg, e), side) == Held(reg, side) + LockedBy(h, reg, e, side)
  {
    if e.op.DoLock? {
      LockGain(h, reg, e.op.legId, e.now, side);
    } else if e.op.DoInitiate? {
      InitiateHolds(h, reg, e.op.request, e.now, side);
    } else if e.op.DoPass? {
      SweepHolds(h, reg, Snapshot(reg, reg.order), e.now, side);
    } else {
      LegCallIsMove(h, reg, e);
      if e.op.DoClaim? {
        ClaimNeverLocks(h, reg, e.op.legId, e.op.preimage, e.now);
      } else {
        RefundNeverLocks(h, reg, e.op.legId, e.now);
      }
      MoveWithoutLock(h, reg, Step(h, reg, e), e.now, side);
    }
  }

  /** Everything the lock calls of a run put into escrow on a side. */
  ghost function EverLocked(h: HashFn, reg: Registry, events: seq<Event>, side: Side): int
    requires Inv(h, reg)
    decreases |events|
  {
    if events == [] then 0
    else
      StepKeepsInv(h, reg, events[0]);
      LockedBy(h, reg, events[0], side) + EverLocked(h, Step(h, reg, events[0]), events[1..], side)
  }

  lemma {:induction false} RunGain(h: HashFn, reg: Registry, events: seq<Event>, side: Side)
    requires Inv(h, reg)
    ensures Held(Run(h, reg, events), side) == Held(reg, side) + EverLocked(h, reg, events, side)
    decreases |events|
  {
    if events != [] {
      StepKeepsInv(h, reg, events[0]);
      StepGain(h, reg, events[0], side);
      RunGain(h, Step(h, reg, events[0]), events[1..], side);
    }
  }

  /** For every run from the empty registry and either side: ever locked equals still
      locked plus claimed plus refunded. */
  lemma FundsConserved(h: HashFn, events: seq<Event>, side: Side)
    ensures
      var final := Run(h, EMPTY, events);
      EverLocked(h, EMPTY, events, side)
      == SideTotal(final, side, Locked) + SideTotal(final, side, Claimed) + SideTotal(final, side, Refunded)
  {
    RunGain(h, EMPTY, events, side);
  }
}
