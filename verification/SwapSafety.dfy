/** What the relayer guarantees about swaps, over single passes and whole runs. */
module SwapSafety {
  import opened Wrappers
  import opened Hashing
  import opened Htlc
  import opened Relay
  import opened SwapRuns

  /** The index leads from a leg's id back to that leg. Initiating a second swap with an
      identical leg redirects the index, so this is not automatic. */
  predicate Addressable(reg: Registry, p: Place) {
    p.swapId in reg.swaps && Find(reg, LegAt(reg, p).legId) == Some(p)
  }

  predicate SameIndex(reg: Registry, reg': Registry) {
    && reg'.legIndex == reg.legIndex && reg'.order == reg.order && reg'.swaps.Keys == reg.swaps.Keys
    && forall id | id in reg.swaps :: SameTerms(reg.swaps[id].casper, reg'.swaps[id].casper)
                                      && SameTerms(reg.swaps[id].evm, reg'.swaps[id].evm)
  }

  lemma SameIndexSameFind(reg: Registry, reg': Registry, legId: string)
    requires SameIndex(reg, reg')
    ensures Find(reg', legId) == Find(reg, legId)
  {
  }

  lemma MoveKeepsIndex(h: HashFn, reg: Registry, reg': Registry, now: int)
    requires IsMove(h, reg, reg', now)
    ensures SameIndex(reg, reg')
  {
    if reg' != reg {
      var p: Place :| MovesAt(h, reg, reg', p, now);
    }
  }

  lemma {:induction false} SweepKeepsIndex(h: HashFn, reg: Registry, snaps: seq<RelaySwap>, now: int)
    ensures SameIndex(reg, Sweep(h, reg, snaps, now))
    decreases |snaps|
  {
    if snaps != [] {
      PerformIsMove(h, reg, Decide(snaps[0], now), now);
      MoveKeepsIndex(h, reg, Perform(h, reg, Decide(snaps[0], now), now).0, now);
      SweepKeepsIndex(h, Perform(h, reg, Decide(snaps[0], now), now).0, snaps[1..], now);
    }
  }

  /** The one place a move may touch is the one its leg id addresses. */
  lemma MoveIsAt(h: HashFn, reg: Registry, reg': Registry, p: Place, now: int)
    requires IsMove(h, reg, reg', now) && p.swapId in reg.swaps
    ensures p.swapId in reg'.swaps
    ensures LegMoves(h, LegAt(reg, p), LegAt(reg', p), now)
    ensures !Addressable(reg, p) ==> LegAt(reg', p) == LegAt(reg, p)
  {
    if reg' != reg {
      var q: Place :| MovesAt(h, reg, reg', q, now);
      assert q == p || q.swapId != p.swapId || q.side != p.side;
    }
  }

  // ----- an atomic pass ----------------------------------------------------------------------

  /** A leg the index does not lead to is out of reach for every pass. */
  lemma {:induction false} UnaddressableFrozen(h: HashFn, reg: Registry, snaps: seq<RelaySwap>, now: int, p: Place)
    requires p.swapId in reg.swaps && !Addressable(reg, p)
    ensures p.swapId in Sweep(h, reg, snaps, now).swaps
    ensures LegAt(Sweep(h, reg, snaps, now), p) == LegAt(reg, p)
    decreases |snaps|
  {
    if snaps != [] {
      var reg' := Perform(h, reg, Decide(snaps[0], now), now).0;
      PerformIsMove(h, reg, Decide(snaps[0], now), now);
      MoveIsAt(h, reg, reg', p, now);
      MoveKeepsIndex(h, reg, reg', now);
      SameIndexSameFind(reg, reg', LegAt(reg, p).legId);
      UnaddressableFrozen(h, reg', snaps[1..], now, p);
    }
  }

  /** Before its deadline a locked leg can only become claimed. */
  predicate OnTheWay(h: HashFn, leg: Leg, preimage: string, now: int) {
    && (leg.status == Locked || leg.status == Claimed) && now < leg.timelock
    && NormHex(preimage) == Some(preimage) && Opens(h, preimage, leg.hashlock)
  }

  lemma SweepClaimsNow(h: HashFn, reg: Registry, snaps: seq<RelaySwap>, now: int, p: Place, preimage: string)
    requires Addressable(reg, p) && OnTheWay(h, LegAt(reg, p), preimage, now)
    requires snaps != [] && Decide(snaps[0], now) == ClaimCall(LegAt(reg, p).legId, Some(preimage))
    ensures p.swapId in Sweep(h, reg, snaps, now).swaps
    ensures LegAt(Sweep(h, reg, snaps, now), p).status == Claimed
  {
    var reg' := Perform(h, reg, Decide(snaps[0], now), now).0;
    ClaimSucceeds(h, reg, p, preimage, now);
    SweepEvolves(h, reg', snaps[1..], now);
  }

  lemma StaysOnTheWay(h: HashFn, reg: Registry, action: Action, now: int, p: Place, preimage: string)
    requires Addressable(reg, p) && OnTheWay(h, LegAt(reg, p), preimage, now)
    ensures
      var reg' := Perform(h, reg, action, now).0;
      Addressable(reg', p) && OnTheWay(h, LegAt(reg', p), preimage, now) && LegAt(reg', p).legId == LegAt(reg, p).legId
  {
    var reg' := Perform(h, reg, action, now).0;
    PerformIsMove(h, reg, action, now);
    MoveIsAt(h, reg, reg', p, now);
    MoveKeepsIndex(h, reg, reg', now);
    SameIndexSameFind(reg, reg', LegAt(reg, p).legId);
  }

  lemma {:induction false} SweepClaims(h: HashFn, reg: Registry, snaps: seq<RelaySwap>, now: int, p: Place,
                                       preimage: string, k: nat)
    requires Addressable(reg, p) && OnTheWay(h, LegAt(reg, p), preimage, now)
    requires k < |snaps| && Decide(snaps[k], now) == ClaimCall(LegAt(reg, p).legId, Some(preimage))
    ensures p.swapId in Sweep(h, reg, snaps, now).swaps
    ensures LegAt(Sweep(h, reg, snaps, now), p).status == Claimed
    decreases |snaps|
  {
    if k == 0 {
      SweepClaimsNow(h, reg, snaps, now, p, preimage);
    } else {
      var reg' := Perform(h, reg, Decide(snaps[0], now), now).0;
      StaysOnTheWay(h, reg, Decide(snaps[0], now), now, p, preimage);
      assert snaps[1..][k - 1] == snaps[k];
      SweepClaims(h, reg', snaps[1..], now, p, preimage, k - 1);
      SweepUnfold(h, reg, snaps, now);
    }
  }

  lemma ClaimSucceeds(h: HashFn, reg: Registry, p: Place, preimage: string, now: int)
    requires Addressable(reg, p) && OnTheWay(h, LegAt(reg, p), preimage, now)
    ensures LegAt(Claim(h, reg, LegAt(reg, p).legId, preimage, now).0, p).status == Claimed
  {
  }

  lemma ClaimAt(h: HashFn, reg: Registry, p: Place, preimage: string, now: int)
    requires Addressable(reg, p) && NormHex(preimage) == Some(preimage)
    requires ClaimLeg(h, LegAt(reg, p), preimage, now).Ok?
    ensures Claim(h, reg, LegAt(reg, p).legId, preimage, now).0
            == Put(reg, p, ClaimLeg(h, LegAt(reg, p), preimage, now).value)
  {
  }

  function FullPass(h: HashFn, reg: Registry, now: int): Registry
    requires OrderOk(reg)
  {
    Sweep(h, reg, Snapshot(reg, reg.order), now)
  }

  /** Once the EVM leg is claimed, a pass before the Casper deadline claims the locked
      Casper leg, exactly when the index still leads to that leg. */
  lemma PassCompletesSwap(h: HashFn, reg: Registry, id: string, now: int)
    requires Inv(h, reg) && id in reg.swaps
    requires reg.swaps[id].evm.status == Claimed && reg.swaps[id].casper.status == Locked
    requires now < reg.swaps[id].casper.timelock
    ensures id in FullPass(h, reg, now).swaps
    ensures FullPass(h, reg, now).swaps[id].casper.status == Claimed <==> Addressable(reg, Place(id, Casper))
    ensures !Addressable(reg, Place(id, Casper)) ==> FullPass(h, reg, now).swaps[id].casper == reg.swaps[id].casper
  {
    var p, s := Place(id, Casper), reg.swaps[id];
    var snaps := Snapshot(reg, reg.order);
    assert SwapOk(h, s);
    if Addressable(reg, p) {
      var k :| 0 <= k < |reg.order| && reg.order[k] == id;
      DecideAdapted(s, now);
      SweepClaims(h, reg, snaps, now, p, s.evm.preimage.value, k);
    } else {
      UnaddressableFrozen(h, reg, snaps, now, p);
    }
  }

  ghost predicate ClockFrom(events: seq<Event>, t: int) {
    forall i | 0 <= i < |events| :: events[i].now >= t
  }

  /** At or after its deadline a leg is never claimed. */
  lemma {:induction false} NoLateClaim(h: HashFn, reg: Registry, events: seq<Event>, id: string, side: Side)
    requires Inv(h, reg) && id in reg.swaps && ClockFrom(events, reg.swaps[id].Get(side).timelock)
    requires reg.swaps[id].Get(side).status != Claimed
    ensures id in Run(h, reg, events).swaps && Run(h, reg, events).swaps[id].Get(side).status != Claimed
    decreases |events|
  {
    if events != [] {
      var reg' := Step(h, reg, events[0]);
      assert events[0].now >= reg.swaps[id].Get(side).timelock;
      StepKeepsInv(h, reg, events[0]);
      StepEvolves(h, reg, events[0]);
      NoLateClaimStep(h, reg, events[0], Place(id, side));
      NoLateClaim(h, reg', events[1..], id, side);
    }
  }

  lemma NoLateClaimStep(h: HashFn, reg: Registry, e: Event, p: Place)
    requires Inv(h, reg) && p.swapId in reg.swaps
    requires LegAt(reg, p).status != Claimed && e.now >= LegAt(reg, p).timelock
    ensures p.swapId in Step(h, reg, e).swaps && LegAt(Step(h, reg, e), p).status != Claimed
  {
    if IsLegCall(e.op) {
      LegCallIsMove(h, reg, e);
      MoveIsAt(h, reg, Step(h, reg, e), p, e.now);
    } else if e.op.DoPass? {
      NoLateClaimSweep(h, reg, Snapshot(reg, reg.order), e.now, p);
    } else {
      InitiateKeepsSwaps(h, reg, e.op.request, e.now, p.swapId);
    }
  }

  lemma InitiateKeepsSwaps(h: HashFn, reg: Registry, r: Request, now: int, id: string)
    requires id in reg.swaps
    ensures id in Initiate(h, reg, r, now).0.swaps && Initiate(h, reg, r, now).0.swaps[id] == reg.swaps[id]
  {
  }

  lemma {:induction false} NoLateClaimSweep(h: HashFn, reg: Registry, snaps: seq<RelaySwap>, now: int, p: Place)
    requires p.swapId in reg.swaps && LegAt(reg, p).status != Claimed && now >= LegAt(reg, p).timelock
    ensures p.swapId in Sweep(h, reg, snaps, now).swaps && LegAt(Sweep(h, reg, snaps, now), p).status != Claimed
    decreases |snaps|
  {
    if snaps != [] {
      var reg' := Perform(h, reg, Decide(snaps[0], now), now).0;
      PerformIsMove(h, reg, Decide(snaps[0], now), now);
      MoveIsAt(h, reg, reg', p, now);
      NoLateClaimSweep(h, reg', snaps[1..], now, p);
    }
  }

  // ----- legs out of reach ------------------------------------------------------------------------

  lemma UnaddressableMove(h: HashFn, reg: Registry, reg': Registry, p: Place, now: int)
    requires IsMove(h, reg, reg', now) && p.swapId in reg.swaps && !Addressable(reg, p)
    ensures p.swapId in reg'.swaps && LegAt(reg', p) == LegAt(reg, p) && !Addressable(reg', p)
  {
    MoveIsAt(h, reg, reg', p, now);
    MoveKeepsIndex(h, reg, reg', now);
    SameIndexSameFind(reg, reg', LegAt(reg, p).legId);
  }

  lemma UnaddressablePass(h: HashFn, reg: Registry, now: int, p: Place)
    requires OrderOk(reg) && p.swapId in reg.swaps && !Addressable(reg, p)
    ensures var reg' := FullPass(h, reg, now);
            p.swapId in reg'.swaps && LegAt(reg', p) == LegAt(reg, p) && !Addressable(reg', p)
  {
    UnaddressableFrozen(h, reg, Snapshot(reg, reg.order), now, p);
    SweepKeepsIndex(h, reg, Snapshot(reg, reg.order), now);
    SameIndexSameFind(reg, FullPass(h, reg, now), LegAt(reg, p).legId);
  }

  lemma UnaddressableInitiate(h: HashFn, reg: Registry, r: Request, now: int, p: Place)
    requires p.swapId in reg.swaps && !Addressable(reg, p)
    ensures var reg' := Initiate(h, reg, r, now).0;
            p.swapId in reg'.swaps && LegAt(reg', p) == LegAt(reg, p) && !Addressable(reg', p)
  {
  }

  lemma UnaddressableStep(h: HashFn, reg: Registry, e: Event, p: Place)
    requires OrderOk(reg) && p.swapId in reg.swaps && !Addressable(reg, p)
    ensures var reg' := Step(h, reg, e);
            p.swapId in reg'.swaps && LegAt(reg', p) == LegAt(reg, p) && !Addressable(reg', p)
  {
    match e.op
    case DoInitiate(r) => UnaddressableInitiate(h, reg, r, e.now, p);
    case DoPass(dryRun) =>
      if !dryRun {
        UnaddressablePass(h, reg, e.now, p);
      }
    case _ =>
      LegCallIsMove(h, reg, e);
      UnaddressableMove(h, reg, Step(h, reg, e), p, e.now);
  }

  /** A leg the index does not lead to stays as it is over every run. */
  lemma {:induction false} UnaddressableForever(h: HashFn, reg: Registry, events: seq<Event>, p: Place)
    requires Inv(h, reg) && p.swapId in reg.swaps && !Addressable(reg, p)
    ensures p.swapId in Run(h, reg, events).swaps && LegAt(Run(h, reg, events), p) == LegAt(reg, p)
    decreases |events|
  {
    if events != [] {
      UnaddressableStep(h, reg, events[0], p);
      StepKeepsInv(h, reg, events[0]);
      UnaddressableForever(h, Step(h, reg, events[0]), events[1..], p);
    }
  }

  // ----- one pass between the deadlines -----------------------------------------------------------

  /** The EVM leg claimed beside a Casper leg that could still be locked and refunded. */
  predicate Exposed(reg: Registry, id: string)
    requires id in reg.swaps
  {
    && reg.swaps[id].evm.status == Claimed && reg.swaps[id].casper.status == Proposed
    && Addressable(reg, Place(id, Casper))
  }

  predicate Lost(s: Swap) {
    s.evm.status == Claimed && s.casper.status == Refunded
  }

  /** Swap atomicity over runs: one live pass anywhere between the two deadlines rules out
      for ever that the EVM leg ends claimed while the Casper leg ends refunded, unless the
      EVM leg was claimed before the Casper leg was locked at all. */
  lemma PassBetweenDeadlinesIsEnough(h: HashFn, reg: Registry, id: string, now: int, later: seq<Event>)
    requires Inv(h, reg) && id in reg.swaps && !Lost(reg.swaps[id]) && !Exposed(reg, id)
    requires reg.swaps[id].evm.timelock <= now < reg.swaps[id].casper.timelock
    requires ClockFrom(later, now)
    ensures
      var final := Run(h, reg, [Event(DoPass(false), now)] + later);
      id in final.swaps && !Lost(final.swaps[id])
  {
    RunPass(h, reg, now, later);
    KeptAfterPass(h, reg, id, now, later);
  }

  lemma KeptAfterPass(h: HashFn, reg: Registry, id: string, now: int, later: seq<Event>)
    requires Inv(h, reg) && id in reg.swaps && !Lost(reg.swaps[id]) && !Exposed(reg, id)
    requires reg.swaps[id].evm.timelock <= now < reg.swaps[id].casper.timelock
    requires ClockFrom(later, now) && Inv(h, FullPass(h, reg, now))
    ensures
      var final := Run(h, FullPass(h, reg, now), later);
      id in final.swaps && !Lost(final.swaps[id])
  {
    if CasperOutOfReach(reg, id) {
      UnaddressablePass(h, reg, now, Place(id, Casper));
      UnaddressableForever(h, FullPass(h, reg, now), later, Place(id, Casper));
    } else {
      PassSettles(h, reg, id, now);
      StaysSettled(h, FullPass(h, reg, now), id, now, later);
    }
  }

  predicate CasperOutOfReach(reg: Registry, id: string)
    requires id in reg.swaps
  {
    reg.swaps[id].casper.status != Refunded && !Addressable(reg, Place(id, Casper))
  }

  lemma RunStep(h: HashFn, reg: Registry, e: Event, later: seq<Event>)
    requires Inv(h, reg)
    ensures Inv(h, Step(h, reg, e)) && Run(h, reg, [e] + later) == Run(h, Step(h, reg, e), later)
  {
    StepKeepsInv(h, reg, e);
    assert ([e] + later)[1..] == later;
  }

  lemma PassIsStep(h: HashFn, reg: Registry, now: int)
    requires OrderOk(reg)
    ensures Step(h, reg, Event(DoPass(false), now)) == FullPass(h, reg, now)
  {
  }

  lemma RunPass(h: HashFn, reg: Registry, now: int, later: seq<Event>)
    requires Inv(h, reg)
    ensures Inv(h, FullPass(h, reg, now))
    ensures Run(h, reg, [Event(DoPass(false), now)] + later) == Run(h, FullPass(h, reg, now), later)
  {
    PassIsStep(h, reg, now);
    RunStep(h, reg, Event(DoPass(false), now), later);
  }

  /** Either the Casper leg is claimed, or the EVM leg is not and its time is up. */
  predicate Settled(s: Swap, now: int) {
    s.casper.status == Claimed || (s.evm.status != Claimed && s.evm.timelock <= now)
  }

  lemma PassSettles(h: HashFn, reg: Registry, id: string, now: int)
    requires Inv(h, reg) && id in reg.swaps
    requires reg.swaps[id].evm.timelock <= now < reg.swaps[id].casper.timelock
    requires reg.swaps[id].evm.status != Claimed || reg.swaps[id].casper.status == Claimed
             || (reg.swaps[id].casper.status == Locked && Addressable(reg, Place(id, Casper)))
    ensures id in FullPass(h, reg, now).swaps && Settled(FullPass(h, reg, now).swaps[id], now)
  {
    SweepEvolves(h, reg, Snapshot(reg, reg.order), now);
    if reg.swaps[id].evm.status == Claimed {
      PassLeavesClaimed(h, reg, id, now);
    } else {
      NoLateClaimSweep(h, reg, Snapshot(reg, reg.order), now, Place(id, Evm));
    }
  }

  lemma StaysSettled(h: HashFn, reg: Registry, id: string, now: int, later: seq<Event>)
    requires Inv(h, reg) && id in reg.swaps && Settled(reg.swaps[id], now) && ClockFrom(later, now)
    ensures
      var final := Run(h, reg, later);
      id in final.swaps && !Lost(final.swaps[id])
  {
    RunEvolves(h, reg, later);
    if reg.swaps[id].casper.status != Claimed {
      NoLateClaim(h, reg, later, id, Evm);
    }
  }

  lemma PassLeavesClaimed(h: HashFn, reg: Registry, id: string, now: int)
    requires Inv(h, reg) && id in reg.swaps
    requires reg.swaps[id].evm.status == Claimed && now < reg.swaps[id].casper.timelock
    requires reg.swaps[id].casper.status == Claimed
             || (reg.swaps[id].casper.status == Locked && Addressable(reg, Place(id, Casper)))
    ensures id in FullPass(h, reg, now).swaps && FullPass(h, reg, now).swaps[id].casper.status == Claimed
  {
    if reg.swaps[id].casper.status == Locked {
      PassCompletesSwap(h, reg, id, now);
    } else {
      SweepEvolves(h, reg, Snapshot(reg, reg.order), now);
    }
  }

  // ----- passes alone ------------------------------------------------------------------------

  /** No other swap carries a leg id of this one, and the index leads to both its legs. */
  ghost predicate Private(reg: Registry, id: string) {
    && Addressable(reg, Place(id, Casper)) && Addressable(reg, Place(id, Evm))
    && forall other | other in reg.swaps && other != id ::
         NotOf(reg.swaps[id], reg.swaps[other].casper.legId) && NotOf(reg.swaps[id], reg.swaps[other].evm.legId)
  }

  predicate NotOf(s: Swap, legId: string) {
    legId != s.casper.legId && legId != s.evm.legId
  }

  function Applied(s: Swap, side: Side, r: Result<Leg, RejectCode>): Swap {
    if r.Ok? then s.Set(side, r.value) else s
  }

  /** A pass as seen by one swap on its own. */
  function Drive(h: HashFn, s: Swap, now: int): Swap {
    if s.casper.status == Claimed && s.evm.status == Locked then
      if s.casper.preimage == None then s else Applied(s, Evm, ClaimLeg(h, s.evm, s.casper.preimage.value, now))
    else if s.evm.status == Claimed && s.casper.status == Locked then
      if s.evm.preimage == None then s else Applied(s, Casper, ClaimLeg(h, s.casper, s.evm.preimage.value, now))
    else if s.casper.status == Locked && now >= s.casper.timelock then Applied(s, Casper, RefundLeg(h, s.casper, now))
    else if s.evm.status == Locked && now >= s.evm.timelock then Applied(s, Evm, RefundLeg(h, s.evm, now))
    else s
  }

  lemma OwnTurn(h: HashFn, reg: Registry, id: string, now: int)
    requires id in reg.swaps && SwapOk(h, reg.swaps[id])
    requires Addressable(reg, Place(id, Casper)) && Addressable(reg, Place(id, Evm))
    ensures
      var reg' := Perform(h, reg, Decide(AdaptSwap(reg.swaps[id]), now), now).0;
      id in reg'.swaps && reg'.swaps[id] == Drive(h, reg.swaps[id], now)
  {
    DecideAdapted(reg.swaps[id], now);
  }

  /** The leg a decision calls for belongs to the swap decided on. */
  lemma OthersTurn(h: HashFn, reg: Registry, id: string, s: Swap, now: int)
    requires id in reg.swaps && NotOf(reg.swaps[id], s.casper.legId) && NotOf(reg.swaps[id], s.evm.legId)
    ensures
      var reg' := Perform(h, reg, Decide(AdaptSwap(s), now), now).0;
      id in reg'.swaps && reg'.swaps[id] == reg.swaps[id]
  {
    DecideAdapted(s, now);
    var action := Decide(AdaptSwap(s), now);
    match action
    case ClaimCall(legId, preimage) =>
      assert NotOf(reg.swaps[id], legId);
    case RefundCall(legId) =>
      assert NotOf(reg.swaps[id], legId);
    case Idle =>
  }

  lemma SnapshotRest(reg: Registry, ids: seq<string>)
    requires ids != [] && forall i | 0 <= i < |ids| :: ids[i] in reg.swaps
    ensures Snapshot(reg, ids)[1..] == Snapshot(reg, ids[1..])
  {
  }

  /** One turn of a pass, as seen by the private swap `id`. */
  lemma LocalTurn(h: HashFn, start: Registry, reg: Registry, x: string, id: string, now: int)
    requires SameIndex(start, reg) && id in start.swaps && Private(start, id) && SwapOk(h, start.swaps[id])
    requires x in start.swaps && (x == id ==> reg.swaps[id] == start.swaps[id])
    ensures
      var reg' := Perform(h, reg, Decide(AdaptSwap(start.swaps[x]), now), now).0;
      && SameIndex(start, reg') && id in reg'.swaps
      && reg'.swaps[id] == if x == id then Drive(h, start.swaps[id], now) else reg.swaps[id]
  {
    var s := start.swaps[x];
    var action := Decide(AdaptSwap(s), now);
    PerformIsMove(h, reg, action, now);
    MoveKeepsIndex(h, reg, Perform(h, reg, action, now).0, now);
    if x == id {
      SameIndexSameFind(start, reg, s.casper.legId);
      SameIndexSameFind(start, reg, s.evm.legId);
      OwnTurn(h, reg, id, now);
    } else {
      assert SameTerms(start.swaps[id].casper, reg.swaps[id].casper)
            && SameTerms(start.swaps[id].evm, reg.swaps[id].evm);
      OthersTurn(h, reg, id, s, now);
    }
  }

  /** What the private swap looks like with `ids` still to come. */
  ghost predicate Pending(h: HashFn, start: Registry, reg: Registry, ids: seq<string>, id: string, now: int) {
    && SameIndex(start, reg) && id in start.swaps && id in reg.swaps
    && reg.swaps[id] == if id in ids then start.swaps[id] else Drive(h, start.swaps[id], now)
  }

  lemma PendingTurn(h: HashFn, start: Registry, reg: Registry, ids: seq<string>, id: string, now: int)
    requires Pending(h, start, reg, ids, id, now) && Private(start, id) && SwapOk(h, start.swaps[id])
    requires ids != [] && ids[0] in start.swaps && ids[0] !in ids[1..]
    ensures Pending(h, start, Perform(h, reg, Decide(AdaptSwap(start.swaps[ids[0]]), now), now).0, ids[1..], id, now)
  {
    assert ids == [ids[0]] + ids[1..];
    assert id in ids <==> ids[0] == id || id in ids[1..];
    LocalTurn(h, start, reg, ids[0], id, now);
  }

  /** Stored swap ids, each once. */
  predicate Listed(start: Registry, ids: seq<string>) {
    && (forall i | 0 <= i < |ids| :: ids[i] in start.swaps)
    && (forall i, j | 0 <= i < j < |ids| :: ids[i] != ids[j])
  }

  lemma ListedRest(start: Registry, ids: seq<string>)
    requires Listed(start, ids) && ids != []
    ensures ids[0] in start.swaps && ids[0] !in ids[1..] && Listed(start, ids[1..])
  {
  }

  lemma {:induction false} SweepIsLocal(h: HashFn, start: Registry, reg: Registry, ids: seq<string>, id: string,
                                        now: int)
    requires Pending(h, start, reg, ids, id, now) && Private(start, id) && SwapOk(h, start.swaps[id])
    requires Listed(start, ids)
    ensures Pending(h, start, Sweep(h, reg, Snapshot(start, ids), now), [], id, now)
    decreases |ids|
  {
    if ids != [] {
      ListedRest(start, ids);
      PendingTurn(h, start, reg, ids, id, now);
      SweepIsLocal(h, start, Perform(h, reg, Decide(AdaptSwap(start.swaps[ids[0]]), now), now).0, ids[1..], id, now);
      SnapshotRest(start, ids);
      SweepUnfold(h, reg, Snapshot(start, ids), now);
    }
  }

  lemma SweepUnfold(h: HashFn, reg: Registry, snaps: seq<RelaySwap>, now: int)
    requires snaps != []
    ensures Sweep(h, reg, snaps, now) == Sweep(h, Perform(h, reg, Decide(snaps[0], now), now).0, snaps[1..], now)
  {
  }

  /** A pass over the whole registry does to a private swap what it would do to that swap
      alone, stale snapshots and swallowed failures included. */
  lemma PassIsLocal(h: HashFn, reg: Registry, id: string, now: int)
    requires Inv(h, reg) && id in reg.swaps && Private(reg, id)
    ensures id in FullPass(h, reg, now).swaps && FullPass(h, reg, now).swaps[id] == Drive(h, reg.swaps[id], now)
  {
    assert Pending(h, reg, reg, reg.order, id, now);
    SweepIsLocal(h, reg, reg, reg.order, id, now);
  }

  ghost function Passes(h: HashFn, reg: Registry, times: seq<int>): Registry
    requires Inv(h, reg)
    decreases |times|
  {
    if times == [] then reg
    else
      SweepKeepsInv(h, reg, Snapshot(reg, reg.order), times[0]);
      Passes(h, FullPass(h, reg, times[0]), times[1..])
  }

  function Drives(h: HashFn, s: Swap, times: seq<int>): Swap
    decreases |times|
  {
    if times == [] then s else Drives(h, Drive(h, s, times[0]), times[1..])
  }

  lemma SameIndexKeepsPrivate(reg: Registry, reg': Registry, id: string)
    requires SameIndex(reg, reg') && id in reg.swaps && Private(reg, id)
    ensures Private(reg', id)
  {
    SameIndexSameFind(reg, reg', reg.swaps[id].casper.legId);
    SameIndexSameFind(reg, reg', reg.swaps[id].evm.legId);
  }

  lemma PassKeepsPrivate(h: HashFn, reg: Registry, id: string, now: int)
    requires Inv(h, reg) && id in reg.swaps && Private(reg, id)
    ensures id in FullPass(h, reg, now).swaps && Private(FullPass(h, reg, now), id)
  {
    SweepKeepsIndex(h, reg, Snapshot(reg, reg.order), now);
    SameIndexKeepsPrivate(reg, FullPass(h, reg, now), id);
  }

  lemma {:induction false} PassesAreLocal(h: HashFn, reg: Registry, id: string, times: seq<int>)
    requires Inv(h, reg) && id in reg.swaps && Private(reg, id)
    ensures id in Passes(h, reg, times).swaps && Passes(h, reg, times).swaps[id] == Drives(h, reg.swaps[id], times)
    decreases |times|
  {
    if times != [] {
      PassIsLocal(h, reg, id, times[0]);
      PassKeepsPrivate(h, reg, id, times[0]);
      SweepKeepsInv(h, reg, Snapshot(reg, reg.order), times[0]);
      PassesAreLocal(h, FullPass(h, reg, times[0]), id, times[1..]);
    }
  }

  lemma {:induction false} DrivesNeverMix(h: HashFn, s: Swap, times: seq<int>)
    requires !Mixed(s)
    ensures !Mixed(Drives(h, s, times))
    decreases |times|
  {
    if times != [] {
      DrivesNeverMix(h, Drive(h, s, times[0]), times[1..]);
    }
  }

  /** Relayer passes alone, at any times in any order, never produce one claimed and one
      refunded leg in a private swap. */
  lemma RelayerAloneIsSafe(h: HashFn, reg: Registry, id: string, times: seq<int>)
    requires Inv(h, reg) && id in reg.swaps && Private(reg, id) && !Mixed(reg.swaps[id])
    ensures id in Passes(h, reg, times).swaps && !Mixed(Passes(h, reg, times).swaps[id])
  {
    PassesAreLocal(h, reg, id, times);
    DrivesNeverMix(h, reg.swaps[id], times);
  }

  /** The documentation has a leg refunded once its timelock expired without both claims. A
      pass does so for a private swap if and only if the other leg is not claimed and, for
      the EVM leg, the Casper leg is not overdue itself. */
  lemma PassRefundsExactly(h: HashFn, reg: Registry, id: string, side: Side, now: int)
    requires Inv(h, reg) && id in reg.swaps && Private(reg, id)
    requires reg.swaps[id].Get(side).status == Locked && now >= reg.swaps[id].Get(side).timelock
    ensures
      var s := reg.swaps[id];
      && id in FullPass(h, reg, now).swaps
      && (FullPass(h, reg, now).swaps[id].Get(side).status == Refunded
          <==> if side == Casper then s.evm.status != Claimed
               else s.casper.status != Claimed && !(s.casper.status == Locked && now >= s.casper.timelock))
  {
    PassIsLocal(h, reg, id, now);
    assert SwapOk(h, reg.swaps[id]);
  }

  /** With one leg claimed and the other overdue, passes alone never settle a private swap:
      the claim comes first, and is too late. */
  lemma OverdueNeverSettled(h: HashFn, reg: Registry, id: string, side: Side, times: seq<int>)
    requires Inv(h, reg) && id in reg.swaps && Private(reg, id)
    requires reg.swaps[id].Get(side).status == Locked
    requires reg.swaps[id].Get(if side == Casper then Evm else Casper).status == Claimed
    requires forall k | 0 <= k < |times| :: times[k] >= reg.swaps[id].Get(side).timelock
    ensures id in Passes(h, reg, times).swaps && Passes(h, reg, times).swaps[id] == reg.swaps[id]
  {
    PassesAreLocal(h, reg, id, times);
    DrivesStayOverdue(h, reg.swaps[id], side, times);
  }

  lemma {:induction false} DrivesStayOverdue(h: HashFn, s: Swap, side: Side, times: seq<int>)
    requires s.Get(side).status == Locked && s.Get(if side == Casper then Evm else Casper).status == Claimed
    requires forall k | 0 <= k < |times| :: times[k] >= s.Get(side).timelock
    ensures Drives(h, s, times) == s
    decreases |times|
  {
    if times != [] {
      assert times[0] >= s.Get(side).timelock;
      assert Drive(h, s, times[0]) == s;
      DrivesStayOverdue(h, s, side, times[1..]);
    }
  }

  /** Privacy cannot be dropped: when the index leads from a leg id shared by two swaps to
      the one whose other leg is already refunded, a single pass claims that one on behalf
      of the other and mixes its outcome. */
  lemma SharedLegMixes(h: HashFn, reg: Registry, a: string, b: string, now: int)
    requires Inv(h, reg) && a in reg.swaps && b in reg.swaps && a != b
    requires reg.swaps[a].casper.legId == reg.swaps[b].casper.legId && Addressable(reg, Place(b, Casper))
    requires reg.swaps[a].hashlock == reg.swaps[b].hashlock
    requires reg.swaps[a].evm.status == Claimed && reg.swaps[a].casper.status == Locked
    requires reg.swaps[b].evm.status == Refunded && reg.swaps[b].casper.status == Locked
    requires now < reg.swaps[b].casper.timelock
    ensures b in FullPass(h, reg, now).swaps && !Mixed(reg.swaps[b]) && Mixed(FullPass(h, reg, now).swaps[b])
  {
    SharedPreimage(h, reg, a, b, now);
    SharedClaim(h, reg, a, b, reg.swaps[a].evm.preimage.value, now);
    SweepEvolves(h, reg, Snapshot(reg, reg.order), now);
  }

  lemma SharedClaim(h: HashFn, reg: Registry, a: string, b: string, preimage: string, now: int)
    requires OrderOk(reg) && a in reg.swaps && b in reg.swaps
    requires reg.swaps[a].casper.legId == reg.swaps[b].casper.legId && Addressable(reg, Place(b, Casper))
    requires reg.swaps[a].evm.status == Claimed && reg.swaps[a].casper.status == Locked
    requires reg.swaps[a].evm.preimage == Some(preimage) && OnTheWay(h, reg.swaps[b].casper, preimage, now)
    ensures b in FullPass(h, reg, now).swaps && FullPass(h, reg, now).swaps[b].casper.status == Claimed
  {
    assert a in reg.order;
    var k :| 0 <= k < |reg.order| && reg.order[k] == a;
    DecideAdapted(reg.swaps[a], now);
    SweepClaims(h, reg, Snapshot(reg, reg.order), now, Place(b, Casper), preimage, k);
  }

  lemma SharedPreimage(h: HashFn, reg: Registry, a: string, b: string, now: int)
    requires Inv(h, reg) && a in reg.swaps && b in reg.swaps && reg.swaps[a].hashlock == reg.swaps[b].hashlock
    requires reg.swaps[a].evm.status == Claimed && reg.swaps[b].casper.status == Locked
    requires now < reg.swaps[b].casper.timelock
    ensures reg.swaps[a].evm.preimage.Some?
    ensures OnTheWay(h, reg.swaps[b].casper, reg.swaps[a].evm.preimage.value, now)
  {
    assert SwapOk(h, reg.swaps[a]) && SwapOk(h, reg.swaps[b]);
  }
}
