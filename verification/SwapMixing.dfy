/** One leg claimed and the other refunded: which call brings it about, and from which states
    some continuation does. */
module SwapMixing {
  import opened Wrappers
  import opened Hashing
  import opened Htlc
  import opened Relay
  import opened SwapRuns
  import opened SwapSafety
  import opened SwapEffects

  function Other(side: Side): Side {
    if side == Casper then Evm else Casper
  }

  // ----- one call ---------------------------------------------------------------------------------

  /** The refund reaches this leg, in time, with the other leg claimed. */
  predicate RefundMixes(reg: Registry, legId: string, now: int, id: string, side: Side)
    requires id in reg.swaps
  {
    var leg, other := reg.swaps[id].Get(side), reg.swaps[id].Get(Other(side));
    && Find(reg, legId) == Some(Place(id, side))
    && leg.status == Locked && now >= leg.timelock && other.status == Claimed
  }

  /** The claim reaches this leg, in time and with a fitting preimage, the other refunded. */
  predicate ClaimMixes(h: HashFn, reg: Registry, legId: string, preimage: string, now: int, id: string, side: Side)
    requires id in reg.swaps
  {
    var leg, other := reg.swaps[id].Get(side), reg.swaps[id].Get(Other(side));
    && Find(reg, legId) == Some(Place(id, side))
    && NormHex(preimage).Some? && Opens(h, NormHex(preimage).value, leg.hashlock)
    && leg.status == Locked && now < leg.timelock && other.status == Refunded
  }

  lemma RefundMixesExactly(h: HashFn, reg: Registry, legId: string, now: int, id: string)
    requires id in reg.swaps && !Mixed(reg.swaps[id])
    ensures
      var reg' := Refund(h, reg, legId, now).0;
      id in reg'.swaps && (Mixed(reg'.swaps[id]) <==> exists side :: RefundMixes(reg, legId, now, id, side))
  {
    assert RefundMixes(reg, legId, now, id, Casper) || RefundMixes(reg, legId, now, id, Evm)
           <==> exists side :: RefundMixes(reg, legId, now, id, side);
  }

  lemma ClaimMixesExactly(h: HashFn, reg: Registry, legId: string, preimage: string, now: int, id: string)
    requires id in reg.swaps && !Mixed(reg.swaps[id])
    ensures
      var reg' := Claim(h, reg, legId, preimage, now).0;
      id in reg'.swaps
      && (Mixed(reg'.swaps[id]) <==> exists side :: ClaimMixes(h, reg, legId, preimage, now, id, side))
  {
    assert ClaimMixes(h, reg, legId, preimage, now, id, Casper) || ClaimMixes(h, reg, legId, preimage, now, id, Evm)
           <==> exists side :: ClaimMixes(h, reg, legId, preimage, now, id, side);
  }

  lemma LockNeverMixes(h: HashFn, reg: Registry, legId: string, now: int, id: string)
    requires id in reg.swaps && !Mixed(reg.swaps[id])
    ensures var reg' := Lock(h, reg, legId, now).0; id in reg'.swaps && !Mixed(reg'.swaps[id])
  {
  }

  ghost predicate EventMixes(h: HashFn, reg: Registry, e: Event, id: string)
    requires id in reg.swaps
  {
    match e.op
    case DoRefund(legId) => exists side :: RefundMixes(reg, legId, e.now, id, side)
    case DoClaim(legId, preimage) => exists side :: ClaimMixes(h, reg, legId, preimage, e.now, id, side)
    case DoPass(dryRun) => !dryRun && MixesNow(h, reg, id, e.now)
    case _ => false
  }

  lemma LegCallMixesExactly(h: HashFn, reg: Registry, e: Event, id: string)
    requires OrderOk(reg) && id in reg.swaps && !Mixed(reg.swaps[id]) && IsLegCall(e.op)
    ensures id in Step(h, reg, e).swaps
    ensures Mixed(Step(h, reg, e).swaps[id]) <==> EventMixes(h, reg, e, id)
  {
    match e.op
    case DoLock(legId) => LockNeverMixes(h, reg, legId, e.now, id);
    case DoClaim(legId, preimage) => ClaimMixesExactly(h, reg, legId, preimage, e.now, id);
    case DoRefund(legId) => RefundMixesExactly(h, reg, legId, e.now, id);
  }

  lemma PassStepMixesExactly(h: HashFn, reg: Registry, dryRun: bool, now: int, id: string)
    requires Inv(h, reg) && id in reg.swaps && !Mixed(reg.swaps[id])
    ensures
      var reg' := Step(h, reg, Event(DoPass(dryRun), now));
      id in reg'.swaps && (Mixed(reg'.swaps[id]) <==> !dryRun && MixesNow(h, reg, id, now))
  {
    PassSteps(h, reg, dryRun, now);
    if !dryRun {
      PassMixesExactly(h, reg, id, now);
    }
  }

  /** Any call or pass mixes the outcome of a swap exactly as described. */
  lemma StepMixesExactly(h: HashFn, reg: Registry, e: Event, id: string)
    requires Inv(h, reg) && id in reg.swaps && !Mixed(reg.swaps[id])
    ensures id in Step(h, reg, e).swaps
    ensures Mixed(Step(h, reg, e).swaps[id]) <==> EventMixes(h, reg, e, id)
  {
    match e.op
    case DoInitiate(r) => InitiateKeepsSwaps(h, reg, r, e.now, id);
    case DoPass(dryRun) => PassStepMixesExactly(h, reg, dryRun, e.now, id);
    case _ => LegCallMixesExactly(h, reg, e, id);
  }

  // ----- what a leg can still become ----------------------------------------------------------------

  ghost predicate Openable(h: HashFn, hashlock: string) {
    exists preimage: string :: NormHex(preimage) == Some(preimage) && Opens(h, preimage, hashlock)
  }

  /** The leg is locked, or proposed with time left to lock it, and can be addressed. */
  predicate CanBeLocked(reg: Registry, p: Place, now: int)
    requires p.swapId in reg.swaps
  {
    var leg := LegAt(reg, p);
    Addressable(reg, p) && (leg.status == Locked || (leg.status == Proposed && now < leg.timelock))
  }

  ghost predicate MayClaim(h: HashFn, reg: Registry, p: Place, now: int)
    requires p.swapId in reg.swaps
  {
    var leg := LegAt(reg, p);
    leg.status == Claimed || (CanBeLocked(reg, p, now) && now < leg.timelock && Openable(h, leg.hashlock))
  }

  predicate MayRefund(reg: Registry, p: Place, now: int)
    requires p.swapId in reg.swaps
  {
    LegAt(reg, p).status == Refunded || CanBeLocked(reg, p, now)
  }

  /** One leg may still be claimed and the other still refunded. */
  ghost predicate MayMix(h: HashFn, reg: Registry, id: string, now: int)
    requires id in reg.swaps
  {
    exists side :: MayClaim(h, reg, Place(id, side), now) && MayRefund(reg, Place(id, Other(side)), now)
  }

  // ----- nothing else comes of it ------------------------------------------------------------------

  lemma ClaimedOpens(h: HashFn, leg: Leg)
    requires LegOk(h, leg) && leg.status == Claimed
    ensures Openable(h, leg.hashlock)
  {
  }

  lemma MoveKeepsAddress(h: HashFn, reg: Registry, reg': Registry, p: Place, at: int)
    requires IsMove(h, reg, reg', at) && p.swapId in reg.swaps
    ensures p.swapId in reg'.swaps && LegMoves(h, LegAt(reg, p), LegAt(reg', p), at)
    ensures Addressable(reg', p) <==> Addressable(reg, p)
    ensures !Addressable(reg, p) ==> LegAt(reg', p) == LegAt(reg, p)
  {
    MoveIsAt(h, reg, reg', p, at);
    MoveKeepsIndex(h, reg, reg', at);
    SameIndexSameFind(reg, reg', LegAt(reg, p).legId);
  }

  /** A move after now takes away possibilities only. */
  lemma MoveNarrows(h: HashFn, reg: Registry, reg': Registry, p: Place, at: int, now: int)
    requires Inv(h, reg) && IsMove(h, reg, reg', at) && now <= at && p.swapId in reg.swaps
    ensures p.swapId in reg'.swaps
    ensures MayClaim(h, reg', p, now) ==> MayClaim(h, reg, p, now)
    ensures MayRefund(reg', p, now) ==> MayRefund(reg, p, now)
  {
    MoveKeepsAddress(h, reg, reg', p, at);
    assert SwapOk(h, reg.swaps[p.swapId]);
    if LegAt(reg', p).status == Claimed {
      ClaimedOpens(h, LegAt(reg', p));
    }
  }

  lemma {:induction false} SweepNarrows(h: HashFn, reg: Registry, snaps: seq<RelaySwap>, p: Place, at: int, now: int)
    requires Inv(h, reg) && now <= at && p.swapId in reg.swaps
    ensures p.swapId in Sweep(h, reg, snaps, at).swaps
    ensures MayClaim(h, Sweep(h, reg, snaps, at), p, now) ==> MayClaim(h, reg, p, now)
    ensures MayRefund(Sweep(h, reg, snaps, at), p, now) ==> MayRefund(reg, p, now)
    decreases |snaps|
  {
    if snaps != [] {
      var reg' := Perform(h, reg, Decide(snaps[0], at), at).0;
      PerformIsMove(h, reg, Decide(snaps[0], at), at);
      MoveKeepsInv(h, reg, reg', at);
      MoveNarrows(h, reg, reg', p, at, now);
      SweepNarrows(h, reg', snaps[1..], p, at, now);
    }
  }

  lemma InitiateNarrows(h: HashFn, reg: Registry, r: Request, at: int, p: Place, now: int)
    requires p.swapId in reg.swaps
    ensures
      var reg' := Initiate(h, reg, r, at).0;
      && p.swapId in reg'.swaps
      && (MayClaim(h, reg', p, now) ==> MayClaim(h, reg, p, now))
      && (MayRefund(reg', p, now) ==> MayRefund(reg, p, now))
  {
    InitiateKeepsSwaps(h, reg, r, at, p.swapId);
    if !Addressable(reg, p) {
      UnaddressableInitiate(h, reg, r, at, p);
    }
  }

  lemma StepNarrows(h: HashFn, reg: Registry, e: Event, p: Place, now: int)
    requires Inv(h, reg) && now <= e.now && p.swapId in reg.swaps
    ensures
      var reg' := Step(h, reg, e);
      && p.swapId in reg'.swaps
      && (MayClaim(h, reg', p, now) ==> MayClaim(h, reg, p, now))
      && (MayRefund(reg', p, now) ==> MayRefund(reg, p, now))
  {
    match e.op
    case DoInitiate(r) => InitiateNarrows(h, reg, r, e.now, p, now);
    case DoPass(dryRun) => SweepNarrows(h, reg, Snapshot(reg, reg.order), p, e.now, now);
    case _ =>
      LegCallIsMove(h, reg, e);
      MoveNarrows(h, reg, Step(h, reg, e), p, e.now, now);
  }

  lemma {:induction false} RunNarrows(h: HashFn, reg: Registry, events: seq<Event>, p: Place, now: int)
    requires Inv(h, reg) && ClockFrom(events, now) && p.swapId in reg.swaps
    ensures p.swapId in Run(h, reg, events).swaps
    ensures MayClaim(h, Run(h, reg, events), p, now) ==> MayClaim(h, reg, p, now)
    ensures MayRefund(Run(h, reg, events), p, now) ==> MayRefund(reg, p, now)
    decreases |events|
  {
    if events != [] {
      StepKeepsInv(h, reg, events[0]);
      StepNarrows(h, reg, events[0], p, now);
      RunNarrows(h, Step(h, reg, events[0]), events[1..], p, now);
    }
  }

  // ----- it does come of it --------------------------------------------------------------------------

  ghost predicate Reaches(h: HashFn, reg: Registry, reg': Registry, now: int)
    requires Inv(h, reg)
  {
    exists events: seq<Event> :: ClockFrom(events, now) && Run(h, reg, events) == reg'
  }

  lemma ReachesItself(h: HashFn, reg: Registry, now: int)
    requires Inv(h, reg)
    ensures Reaches(h, reg, reg, now)
  {
    assert ClockFrom([], now) && Run(h, reg, []) == reg;
  }

  lemma ReachesStep(h: HashFn, reg: Registry, e: Event, now: int)
    requires Inv(h, reg) && e.now >= now
    ensures Inv(h, Step(h, reg, e)) && Reaches(h, reg, Step(h, reg, e), now)
  {
    RunStep(h, reg, e, []);
    assert [e] + [] == [e];
    assert ClockFrom([e], now) && Run(h, reg, [e]) == Step(h, reg, e);
  }

  lemma ReachesOn(h: HashFn, a: Registry, b: Registry, c: Registry, now: int)
    requires Inv(h, a) && Inv(h, b) && Reaches(h, a, b, now) && Reaches(h, b, c, now)
    ensures Reaches(h, a, c, now)
  {
    var x: seq<Event> :| ClockFrom(x, now) && Run(h, a, x) == b;
    var y: seq<Event> :| ClockFrom(y, now) && Run(h, b, y) == c;
    RunAppend(h, a, x, y);
    assert ClockFrom(x + y, now);
  }

  /** Only the leg at p differs, in nothing but how far it got. */
  ghost predicate OnlyAt(reg: Registry, reg': Registry, p: Place) {
    && SameIndex(reg, reg')
    && forall q: Place | q.swapId in reg.swaps && q != p :: LegAt(reg', q) == LegAt(reg, q)
  }

  lemma PutOnlyAt(reg: Registry, p: Place, leg: Leg)
    requires p.swapId in reg.swaps && SameTerms(LegAt(reg, p), leg)
    ensures OnlyAt(reg, Put(reg, p, leg), p)
  {
  }

  lemma StillAddressable(reg: Registry, reg': Registry, p: Place, q: Place)
    requires OnlyAt(reg, reg', p) && q.swapId in reg.swaps
    ensures Addressable(reg', q) <==> Addressable(reg, q)
  {
    SameIndexSameFind(reg, reg', LegAt(reg, q).legId);
  }

  lemma OnlyAtOn(a: Registry, b: Registry, c: Registry, p: Place)
    requires OnlyAt(a, b, p) && OnlyAt(b, c, p)
    ensures OnlyAt(a, c, p)
  {
    forall q: Place | q.swapId in a.swaps && q != p
      ensures LegAt(c, q) == LegAt(a, q)
    {
      assert LegAt(b, q) == LegAt(a, q);
    }
  }

  lemma SameTermsAt(reg: Registry, reg': Registry, p: Place)
    requires SameIndex(reg, reg') && p.swapId in reg.swaps
    ensures SameTerms(LegAt(reg, p), LegAt(reg', p))
  {
  }

  /** A call that puts a leg forward reaches the registry with that leg. */
  lemma PutReaches(h: HashFn, reg: Registry, p: Place, leg: Leg, e: Event, now: int)
    requires Inv(h, reg) && p.swapId in reg.swaps && SameTerms(LegAt(reg, p), leg)
    requires Step(h, reg, e) == Put(reg, p, leg) && e.now >= now
    ensures Inv(h, Put(reg, p, leg)) && Reaches(h, reg, Put(reg, p, leg), now) && OnlyAt(reg, Put(reg, p, leg), p)
  {
    ReachesStep(h, reg, e, now);
    PutOnlyAt(reg, p, leg);
  }

  lemma LockSteps(h: HashFn, reg: Registry, p: Place, now: int)
    requires OrderOk(reg) && Addressable(reg, p) && LegAt(reg, p).status == Proposed && now < LegAt(reg, p).timelock
    ensures
      var r := LockLeg(h, LegAt(reg, p), now);
      && r.Ok? && SameTerms(LegAt(reg, p), r.value) && r.value.status == Locked
      && Step(h, reg, Event(DoLock(LegAt(reg, p).legId), now)) == Put(reg, p, r.value)
  {
  }

  lemma RefundSteps(h: HashFn, reg: Registry, p: Place, now: int)
    requires OrderOk(reg) && Addressable(reg, p) && LegAt(reg, p).status == Locked && now >= LegAt(reg, p).timelock
    ensures
      var r := RefundLeg(h, LegAt(reg, p), now);
      && r.Ok? && SameTerms(LegAt(reg, p), r.value) && r.value.status == Refunded
      && Step(h, reg, Event(DoRefund(LegAt(reg, p).legId), now)) == Put(reg, p, r.value)
  {
  }

  lemma ClaimFits(h: HashFn, leg: Leg, preimage: string, now: int)
    requires leg.status == Locked && now < leg.timelock && Opens(h, preimage, leg.hashlock)
    ensures ClaimLeg(h, leg, preimage, now).Ok?
    ensures var c := ClaimLeg(h, leg, preimage, now).value; SameTerms(leg, c) && c.status == Claimed
  {
  }

  lemma ClaimSteps(h: HashFn, reg: Registry, legId: string, preimage: string, now: int)
    requires OrderOk(reg)
    ensures Step(h, reg, Event(DoClaim(legId, preimage), now)) == Claim(h, reg, legId, preimage, now).0
  {
  }

  lemma MakeLocked(h: HashFn, reg: Registry, p: Place, now: int) returns (reg': Registry)
    requires Inv(h, reg) && p.swapId in reg.swaps && CanBeLocked(reg, p, now)
    ensures Inv(h, reg') && Reaches(h, reg, reg', now) && OnlyAt(reg, reg', p)
    ensures LegAt(reg', p).status == Locked
  {
    if LegAt(reg, p).status == Locked {
      reg' := reg;
      ReachesItself(h, reg, now);
    } else {
      LockSteps(h, reg, p, now);
      var leg := LockLeg(h, LegAt(reg, p), now).value;
      reg' := Put(reg, p, leg);
      PutReaches(h, reg, p, leg, Event(DoLock(LegAt(reg, p).legId), now), now);
    }
  }

  lemma MakeClaimed(h: HashFn, reg: Registry, p: Place, now: int) returns (reg': Registry)
    requires Inv(h, reg) && p.swapId in reg.swaps && Addressable(reg, p)
    requires LegAt(reg, p).status == Locked && now < LegAt(reg, p).timelock && Openable(h, LegAt(reg, p).hashlock)
    ensures Inv(h, reg') && Reaches(h, reg, reg', now) && OnlyAt(reg, reg', p)
    ensures LegAt(reg', p).status == Claimed
  {
    var leg := LegAt(reg, p);
    var preimage: string :| NormHex(preimage) == Some(preimage) && Opens(h, preimage, leg.hashlock);
    ClaimFits(h, leg, preimage, now);
    ClaimAt(h, reg, p, preimage, now);
    ClaimSteps(h, reg, leg.legId, preimage, now);
    var claimed := ClaimLeg(h, leg, preimage, now).value;
    reg' := Put(reg, p, claimed);
    PutReaches(h, reg, p, claimed, Event(DoClaim(leg.legId, preimage), now), now);
  }

  lemma MakeRefunded(h: HashFn, reg: Registry, p: Place, now: int) returns (reg': Registry)
    requires Inv(h, reg) && p.swapId in reg.swaps && Addressable(reg, p) && LegAt(reg, p).status == Locked
    ensures Inv(h, reg') && Reaches(h, reg, reg', now) && OnlyAt(reg, reg', p)
    ensures LegAt(reg', p).status == Refunded
  {
    var late := if now >= LegAt(reg, p).timelock then now else LegAt(reg, p).timelock;
    RefundSteps(h, reg, p, late);
    var leg := RefundLeg(h, LegAt(reg, p), late).value;
    reg' := Put(reg, p, leg);
    PutReaches(h, reg, p, leg, Event(DoRefund(LegAt(reg, p).legId), late), now);
  }

  /** Locks the leg, if need be, and claims it. */
  lemma ClaimNow(h: HashFn, reg: Registry, p: Place, now: int) returns (reg': Registry)
    requires Inv(h, reg) && p.swapId in reg.swaps && MayClaim(h, reg, p, now)
    ensures Inv(h, reg') && Reaches(h, reg, reg', now) && OnlyAt(reg, reg', p)
    ensures LegAt(reg', p).status == Claimed
  {
    if LegAt(reg, p).status == Claimed {
      reg' := reg;
      ReachesItself(h, reg, now);
    } else {
      var locked := MakeLocked(h, reg, p, now);
      StillAddressable(reg, locked, p, p);
      SameTermsAt(reg, locked, p);
      reg' := MakeClaimed(h, locked, p, now);
      OnlyAtOn(reg, locked, reg', p);
      ReachesOn(h, reg, locked, reg', now);
    }
  }

  /** Locks the leg, if need be, waits and refunds it. */
  lemma RefundLate(h: HashFn, reg: Registry, p: Place, now: int) returns (reg': Registry)
    requires Inv(h, reg) && p.swapId in reg.swaps && MayRefund(reg, p, now)
    ensures Inv(h, reg') && Reaches(h, reg, reg', now) && OnlyAt(reg, reg', p)
    ensures LegAt(reg', p).status == Refunded
  {
    if LegAt(reg, p).status == Refunded {
      reg' := reg;
      ReachesItself(h, reg, now);
    } else {
      var locked := MakeLocked(h, reg, p, now);
      StillAddressable(reg, locked, p, p);
      reg' := MakeRefunded(h, locked, p, now);
      OnlyAtOn(reg, locked, reg', p);
      ReachesOn(h, reg, locked, reg', now);
    }
  }

  lemma StillMayRefund(reg: Registry, reg': Registry, p: Place, q: Place, now: int)
    requires OnlyAt(reg, reg', p) && p != q && q.swapId in reg.swaps && MayRefund(reg, q, now)
    ensures MayRefund(reg', q, now)
  {
    StillAddressable(reg, reg', p, q);
    assert LegAt(reg', q) == LegAt(reg, q);
  }

  lemma MixedBySides(reg: Registry, id: string, side: Side)
    requires id in reg.swaps
    requires LegAt(reg, Place(id, side)).status == Claimed && LegAt(reg, Place(id, Other(side))).status == Refunded
    ensures Mixed(reg.swaps[id])
  {
  }

  lemma MixHappens(h: HashFn, reg: Registry, id: string, side: Side, now: int) returns (reg': Registry)
    requires Inv(h, reg) && id in reg.swaps
    requires MayClaim(h, reg, Place(id, side), now) && MayRefund(reg, Place(id, Other(side)), now)
    ensures Inv(h, reg') && Reaches(h, reg, reg', now) && id in reg'.swaps && Mixed(reg'.swaps[id])
  {
    var p, o := Place(id, side), Place(id, Other(side));
    var claimed := ClaimNow(h, reg, p, now);
    StillMayRefund(reg, claimed, p, o, now);
    reg' := RefundLate(h, claimed, o, now);
    ReachesOn(h, reg, claimed, reg', now);
    MixedBySides(reg', id, side);
  }

  ghost predicate EndsMixed(h: HashFn, reg: Registry, id: string, events: seq<Event>)
    requires Inv(h, reg)
  {
    var final := Run(h, reg, events);
    id in final.swaps && Mixed(final.swaps[id])
  }

  /** From a state on, over all continuations whose clock does not fall behind: some run of
      calls and passes leaves a swap with one leg claimed and the other refunded if and only
      if one leg is claimed or may be and the other is refunded or may be. */
  lemma MixReachableExactly(h: HashFn, reg: Registry, id: string, now: int)
    requires Inv(h, reg) && id in reg.swaps
    ensures (exists events: seq<Event> :: ClockFrom(events, now) && EndsMixed(h, reg, id, events))
            <==> MayMix(h, reg, id, now)
  {
    if events: seq<Event> :| ClockFrom(events, now) && EndsMixed(h, reg, id, events) {
      MixedMayMix(h, reg, id, now, events);
    }
    if side :| MayClaim(h, reg, Place(id, side), now) && MayRefund(reg, Place(id, Other(side)), now) {
      var reg' := MixHappens(h, reg, id, side, now);
      var events: seq<Event> :| ClockFrom(events, now) && Run(h, reg, events) == reg';
      assert EndsMixed(h, reg, id, events);
    }
  }

  lemma MixedMayMix(h: HashFn, reg: Registry, id: string, now: int, events: seq<Event>)
    requires Inv(h, reg) && id in reg.swaps && ClockFrom(events, now) && EndsMixed(h, reg, id, events)
    ensures MayMix(h, reg, id, now)
  {
    var final := Run(h, reg, events);
    var side := if final.swaps[id].casper.status == Claimed then Casper else Evm;
    RunNarrows(h, reg, events, Place(id, side), now);
    RunNarrows(h, reg, events, Place(id, Other(side)), now);
    assert MayClaim(h, final, Place(id, side), now) && MayRefund(final, Place(id, Other(side)), now);
  }
}
