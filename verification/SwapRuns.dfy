/** Whole runs of the registry: any interleaving of initiate, lock, claim, refund and
    relayer passes. */
module SwapRuns {
  import opened Wrappers
  import opened Hashing
  import opened Htlc
  import opened Relay

  datatype Op =
    | DoInitiate(request: Request)
    | DoLock(legId: string)
    | DoClaim(legId: string, preimage: string)
    | DoRefund(legId: string)
    | DoPass(dryRun: bool)

  datatype Event = Event(op: Op, now: int)

  function Step(h: HashFn, reg: Registry, e: Event): Registry
    requires OrderOk(reg)
  {
    match e.op
    case DoInitiate(r) => Initiate(h, reg, r, e.now).0
    case DoLock(legId) => Lock(h, reg, legId, e.now).0
    case DoClaim(legId, preimage) => Claim(h, reg, legId, preimage, e.now).0
    case DoRefund(legId) => Refund(h, reg, legId, e.now).0
    case DoPass(dryRun) => if dryRun then reg else Sweep(h, reg, Snapshot(reg, reg.order), e.now)
  }

  // ----- the three leg operations, uniformly ------------------------------------------------

  /** Nothing happened, or one place moved by one leg transition. */
  ghost predicate IsMove(h: HashFn, reg: Registry, reg': Registry, now: int) {
    reg' == reg || exists p: Place :: MovesAt(h, reg, reg', p, now)
  }

  predicate MovesAt(h: HashFn, reg: Registry, reg': Registry, p: Place, now: int) {
    && p.swapId in reg.swaps && p.swapId in reg'.swaps
    && Find(reg, LegAt(reg, p).legId) == Some(p)
    && reg' == Put(reg, p, LegAt(reg', p))
    && LegMoves(h, LegAt(reg, p), LegAt(reg', p), now)
  }

  /** The transition relation of a single leg. */
  predicate LegMoves(h: HashFn, a: Leg, b: Leg, now: int) {
    && SameTerms(a, b)
    && (LegOk(h, a) ==> LegOk(h, b))
    && (b == a
        || (a.status == Proposed && b.status == Locked && now < a.timelock)
        || (a.status == Locked && b.status == Claimed && now < a.timelock && b.claimedAt == Some(now))
        || (a.status == Locked && b.status == Refunded && now >= a.timelock))
  }

  lemma CommitIsMove(h: HashFn, reg: Registry, p: Place, r: Result<Leg, RejectCode>, now: int)
    requires p.swapId in reg.swaps && Find(reg, LegAt(reg, p).legId) == Some(p)
    requires r.Ok? ==> LegMoves(h, LegAt(reg, p), r.value, now)
    ensures IsMove(h, reg, Commit(reg, p, r).0, now)
  {
    if r.Ok? {
      assert MovesAt(h, reg, Put(reg, p, r.value), p, now);
    }
  }

  lemma LockIsMove(h: HashFn, reg: Registry, legId: string, now: int)
    ensures IsMove(h, reg, Lock(h, reg, legId, now).0, now)
  {
    match Find(reg, legId)
    case Some(p) =>
      LockLegMoves(h, LegAt(reg, p), now);
      CommitIsMove(h, reg, p, LockLeg(h, LegAt(reg, p), now), now);
    case None =>
  }

  lemma LockLegMoves(h: HashFn, leg: Leg, now: int)
    ensures LockLeg(h, leg, now).Ok? ==> LegMoves(h, leg, LockLeg(h, leg, now).value, now)
  {
  }

  lemma ClaimIsMove(h: HashFn, reg: Registry, legId: string, preimage: string, now: int)
    ensures IsMove(h, reg, Claim(h, reg, legId, preimage, now).0, now)
  {
    match (NormHex(preimage), Find(reg, legId))
    case (Some(norm), Some(p)) =>
      NormHexIdempotent(norm);
      if LegOk(h, LegAt(reg, p)) {
        TransitionKeepsLegOk(h, LegAt(reg, p), norm, now);
      }
      CommitIsMove(h, reg, p, ClaimLeg(h, LegAt(reg, p), norm, now), now);
    case _ =>
  }

  lemma RefundIsMove(h: HashFn, reg: Registry, legId: string, now: int)
    ensures IsMove(h, reg, Refund(h, reg, legId, now).0, now)
  {
    match Find(reg, legId)
    case Some(p) =>
      if LegOk(h, LegAt(reg, p)) {
        TransitionKeepsLegOk(h, LegAt(reg, p), "00", now);
      }
      CommitIsMove(h, reg, p, RefundLeg(h, LegAt(reg, p), now), now);
    case None =>
  }

  lemma PerformIsMove(h: HashFn, reg: Registry, action: Action, now: int)
    ensures IsMove(h, reg, Perform(h, reg, action, now).0, now)
  {
    match action
    case ClaimCall(legId, preimage) =>
      if preimage.Some? {
        ClaimIsMove(h, reg, legId, preimage.value, now);
      }
    case RefundCall(legId) => RefundIsMove(h, reg, legId, now);
    case Idle =>
  }

  lemma MoveKeepsInv(h: HashFn, reg: Registry, reg': Registry, now: int)
    requires Inv(h, reg) && IsMove(h, reg, reg', now)
    ensures Inv(h, reg')
  {
    if reg' != reg {
      var p: Place :| MovesAt(h, reg, reg', p, now);
      assert SwapOk(h, reg.swaps[p.swapId]);
      PutKeepsInv(h, reg, p, LegAt(reg', p));
    }
  }

  lemma {:induction false} SweepKeepsInv(h: HashFn, reg: Registry, snaps: seq<RelaySwap>, now: int)
    requires Inv(h, reg)
    ensures Inv(h, Sweep(h, reg, snaps, now))
    decreases |snaps|
  {
    if snaps != [] {
      var reg' := Perform(h, reg, Decide(snaps[0], now), now).0;
      PerformIsMove(h, reg, Decide(snaps[0], now), now);
      MoveKeepsInv(h, reg, reg', now);
      SweepKeepsInv(h, reg', snaps[1..], now);
    }
  }

  predicate IsLegCall(op: Op) {
    op.DoLock? || op.DoClaim? || op.DoRefund?
  }

  lemma LegCallIsMove(h: HashFn, reg: Registry, e: Event)
    requires OrderOk(reg) && IsLegCall(e.op)
    ensures IsMove(h, reg, Step(h, reg, e), e.now)
  {
    match e.op
    case DoLock(legId) => LockIsMove(h, reg, legId, e.now);
    case DoClaim(legId, preimage) => ClaimIsMove(h, reg, legId, preimage, e.now);
    case DoRefund(legId) => RefundIsMove(h, reg, legId, e.now);
  }

  lemma StepKeepsInv(h: HashFn, reg: Registry, e: Event)
    requires Inv(h, reg)
    ensures Inv(h, Step(h, reg, e))
  {
    if IsLegCall(e.op) {
      LegCallIsMove(h, reg, e);
      MoveKeepsInv(h, reg, Step(h, reg, e), e.now);
    } else if e.op.DoInitiate? {
      InitiateKeepsInv(h, reg, e.op.request, e.now);
    } else {
      SweepKeepsInv(h, reg, Snapshot(reg, reg.order), e.now);
    }
  }

  // ----- runs ---------------------------------------------------------------------------

  ghost function Run(h: HashFn, reg: Registry, events: seq<Event>): (r: Registry)
    requires Inv(h, reg)
    ensures Inv(h, r)
    decreases |events|
  {
    if events == [] then reg
    else
      StepKeepsInv(h, reg, events[0]);
      Run(h, Step(h, reg, events[0]), events[1..])
  }

  lemma {:induction false} RunAppend(h: HashFn, reg: Registry, a: seq<Event>, b: seq<Event>)
    requires Inv(h, reg)
    ensures Run(h, reg, a + b) == Run(h, Run(h, reg, a), b)
    decreases |a|
  {
    if a == [] {
      assert a + b == b;
    } else {
      StepKeepsInv(h, reg, a[0]);
      assert (a + b)[1..] == a[1..] + b;
      RunAppend(h, Step(h, reg, a[0]), a[1..], b);
    }
  }

  /** Every state any run reaches from the empty registry is sound: shared hashlocks,
      ordered timelocks, claims before and refunds after the deadline, an index that
      always resolves. */
  lemma ReachableIsSound(h: HashFn, events: seq<Event>)
    ensures Inv(h, EMPTY) && Inv(h, Run(h, EMPTY, events))
  {
  }

  // ----- legs only move forward -----------------------------------------------------------

  predicate Evolves(a: Leg, b: Leg) {
    && SameTerms(a, b)
    && (a.Terminal() ==> b == a)
    && (a.status == Locked ==> b.status != Proposed)
  }

  predicate RegistryEvolves(reg: Registry, reg': Registry) {
    forall id | id in reg.swaps ::
      && id in reg'.swaps
      && reg'.swaps[id].hashlock == reg.swaps[id].hashlock
      && Evolves(reg.swaps[id].casper, reg'.swaps[id].casper)
      && Evolves(reg.swaps[id].evm, reg'.swaps[id].evm)
  }

  lemma MoveEvolves(h: HashFn, reg: Registry, reg': Registry, now: int)
    requires IsMove(h, reg, reg', now)
    ensures RegistryEvolves(reg, reg')
  {
    if reg' != reg {
      var p: Place :| MovesAt(h, reg, reg', p, now);
    }
  }

  lemma EvolvesTransitive(a: Registry, b: Registry, c: Registry)
    requires RegistryEvolves(a, b) && RegistryEvolves(b, c)
    ensures RegistryEvolves(a, c)
  {
  }

  lemma {:induction false} SweepEvolves(h: HashFn, reg: Registry, snaps: seq<RelaySwap>, now: int)
    ensures RegistryEvolves(reg, Sweep(h, reg, snaps, now))
    decreases |snaps|
  {
    if snaps != [] {
      var reg' := Perform(h, reg, Decide(snaps[0], now), now).0;
      PerformIsMove(h, reg, Decide(snaps[0], now), now);
      MoveEvolves(h, reg, reg', now);
      SweepEvolves(h, reg', snaps[1..], now);
      EvolvesTransitive(reg, reg', Sweep(h, reg', snaps[1..], now));
    }
  }

  lemma AddEvolves(reg: Registry, swap: Swap)
    requires swap.swapId !in reg.swaps
    ensures RegistryEvolves(reg, Add(reg, swap))
  {
  }

  lemma InitiateEvolves(h: HashFn, reg: Registry, r: Request, now: int)
    ensures RegistryEvolves(reg, Initiate(h, reg, r, now).0)
  {
    if RequestError(r) == None {
      var swap := NewSwap(h, r, NormHex(r.hashlock).value, now);
      if swap.swapId !in reg.swaps {
        AddEvolves(reg, swap);
      }
    }
  }

  lemma EvolvesReflexive(reg: Registry)
    ensures RegistryEvolves(reg, reg)
  {
  }

  lemma LegCallEvolves(h: HashFn, reg: Registry, e: Event)
    requires OrderOk(reg) && IsLegCall(e.op)
    ensures RegistryEvolves(reg, Step(h, reg, e))
  {
    var reg' := Step(h, reg, e);
    LegCallIsMove(h, reg, e);
    MoveEvolves(h, reg, reg', e.now);
  }

  lemma PassSteps(h: HashFn, reg: Registry, dryRun: bool, now: int)
    requires OrderOk(reg)
    ensures Step(h, reg, Event(DoPass(dryRun), now))
            == if dryRun then reg else Sweep(h, reg, Snapshot(reg, reg.order), now)
  {
  }

  lemma PassEvolves(h: HashFn, reg: Registry, dryRun: bool, now: int)
    requires OrderOk(reg)
    ensures RegistryEvolves(reg, Step(h, reg, Event(DoPass(dryRun), now)))
  {
    PassSteps(h, reg, dryRun, now);
    if dryRun {
      EvolvesReflexive(reg);
    } else {
      SweepEvolves(h, reg, Snapshot(reg, reg.order), now);
    }
  }

  lemma StepEvolves(h: HashFn, reg: Registry, e: Event)
    requires OrderOk(reg)
    ensures RegistryEvolves(reg, Step(h, reg, e))
  {
    match e.op
    case DoInitiate(r) => InitiateEvolves(h, reg, r, e.now);
    case DoPass(dryRun) => PassEvolves(h, reg, dryRun, e.now);
    case _ => LegCallEvolves(h, reg, e);
  }

  /** Over any run no swap disappears, no leg changes its terms, and a claimed or refunded
      leg stays exactly as it is. */
  lemma {:induction false} RunEvolves(h: HashFn, reg: Registry, events: seq<Event>)
    requires Inv(h, reg)
    ensures RegistryEvolves(reg, Run(h, reg, events))
    decreases |events|
  {
    if events != [] {
      var reg' := Step(h, reg, events[0]);
      StepKeepsInv(h, reg, events[0]);
      StepEvolves(h, reg, events[0]);
      RunEvolves(h, reg', events[1..]);
      EvolvesTransitive(reg, reg', Run(h, reg', events[1..]));
    }
  }

  // ----- what a summary says ----------------------------------------------------------------

  /** In a sound registry the summary of a swap shows both statuses, a preimage exactly when a
      leg is claimed, the Casper leg's before the other's, and it opens the swap's hashlock;
      nothing is revealed by an aborted swap; a safety violation is reported as in progress,
      with its preimage. */
  lemma SummaryMeans(h: HashFn, reg: Registry, id: string)
    requires Inv(h, reg)
    ensures Summarize(reg, id).Some? <==> id in reg.swaps
    ensures id in reg.swaps ==>
      var s, summary := reg.swaps[id], Summarize(reg, id).value;
      && (summary.revealed.Some? <==> s.casper.status == Claimed || s.evm.status == Claimed)
      && (summary.revealed.Some? ==> Opens(h, summary.revealed.value, s.hashlock))
      && summary.casperStatus == s.casper.status && summary.evmStatus == s.evm.status
      && (summary.revealed.Some? ==>
            summary.revealed == if s.casper.status == Claimed then s.casper.preimage else s.evm.preimage)
      && (summary.outcome == Completed <==> s.casper.status == Claimed && s.evm.status == Claimed)
      && (summary.outcome == Aborted <==> summary.revealed == None && s.casper.Terminal() && s.evm.Terminal())
      && (summary.safetyViolation <==> summary.outcome == InProgress && s.casper.Terminal() && s.evm.Terminal())
      && (summary.safetyViolation ==> summary.revealed.Some?)
  {
    assert id in reg.swaps ==> SwapOk(h, reg.swaps[id]);
  }

  /** Completed, aborted and violated are final over every run, and what is revealed stays
      revealed. */
  lemma SummaryLasts(h: HashFn, reg: Registry, events: seq<Event>, id: string)
    requires Inv(h, reg) && id in reg.swaps
    ensures
      var before, after := Summarize(reg, id).value, Summarize(Run(h, reg, events), id);
      && after.Some?
      && (before.outcome != InProgress || before.safetyViolation ==> after == Some(before))
      && (before.revealed.Some? ==> after.value.revealed.Some?)
  {
    RunEvolves(h, reg, events);
    SummaryMeans(h, reg, id);
    SummaryMeans(h, Run(h, reg, events), id);
  }
}
