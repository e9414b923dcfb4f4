/** Atomicity of one swap over whole runs of callers and relayer passes. */
module SwapAtomicity {
  import opened Hashing
  import opened Htlc
  import opened Relay
  import opened SwapRuns
  import opened SwapSafety

  ghost predicate ClockBelow(events: seq<Event>, t: int) {
    forall i | 0 <= i < |events| :: events[i].now < t
  }

  lemma {:induction false} NoEarlyRefundSweep(h: HashFn, reg: Registry, snaps: seq<RelaySwap>, now: int, p: Place)
    requires p.swapId in reg.swaps && LegAt(reg, p).status != Refunded && now < LegAt(reg, p).timelock
    ensures p.swapId in Sweep(h, reg, snaps, now).swaps && LegAt(Sweep(h, reg, snaps, now), p).status != Refunded
    decreases |snaps|
  {
    if snaps != [] {
      var reg' := Perform(h, reg, Decide(snaps[0], now), now).0;
      PerformIsMove(h, reg, Decide(snaps[0], now), now);
      MoveIsAt(h, reg, reg', p, now);
      NoEarlyRefundSweep(h, reg', snaps[1..], now, p);
    }
  }

  lemma NoEarlyRefundStep(h: HashFn, reg: Registry, e: Event, p: Place)
    requires Inv(h, reg) && p.swapId in reg.swaps
    requires LegAt(reg, p).status != Refunded && e.now < LegAt(reg, p).timelock
    ensures p.swapId in Step(h, reg, e).swaps && LegAt(Step(h, reg, e), p).status != Refunded
  {
    if IsLegCall(e.op) {
      LegCallIsMove(h, reg, e);
      MoveIsAt(h, reg, Step(h, reg, e), p, e.now);
    } else if e.op.DoPass? {
      NoEarlyRefundSweep(h, reg, Snapshot(reg, reg.order), e.now, p);
    } else {
      InitiateKeepsSwaps(h, reg, e.op.request, e.now, p.swapId);
    }
  }

  /** Before its deadline a leg is never refunded. */
  lemma {:induction false} NoEarlyRefund(h: HashFn, reg: Registry, events: seq<Event>, id: string, side: Side)
    requires Inv(h, reg) && id in reg.swaps && ClockBelow(events, reg.swaps[id].Get(side).timelock)
    requires reg.swaps[id].Get(side).status != Refunded
    ensures id in Run(h, reg, events).swaps && Run(h, reg, events).swaps[id].Get(side).status != Refunded
    decreases |events|
  {
    if events != [] {
      var reg' := Step(h, reg, events[0]);
      assert events[0].now < reg.swaps[id].Get(side).timelock;
      StepKeepsInv(h, reg, events[0]);
      StepEvolves(h, reg, events[0]);
      NoEarlyRefundStep(h, reg, events[0], Place(id, side));
      NoEarlyRefund(h, reg', events[1..], id, side);
    }
  }

  lemma StillPending(h: HashFn, reg: Registry, between: seq<Event>, id: string)
    requires Inv(h, reg) && id in reg.swaps
    requires reg.swaps[id].evm.status == Claimed && reg.swaps[id].casper.status == Locked
    requires ClockBelow(between, reg.swaps[id].casper.timelock)
    ensures
      var mid := Run(h, reg, between);
      && id in mid.swaps && mid.swaps[id].evm.status == Claimed
      && mid.swaps[id].casper.timelock == reg.swaps[id].casper.timelock
      && (mid.swaps[id].casper.status == Locked || mid.swaps[id].casper.status == Claimed)
  {
    RunEvolves(h, reg, between);
    NoEarlyRefund(h, reg, between, id, Casper);
  }

  lemma ClaimedForever(h: HashFn, reg: Registry, later: seq<Event>, id: string)
    requires Inv(h, reg) && id in reg.swaps
    requires reg.swaps[id].casper.status == Claimed && reg.swaps[id].evm.status == Claimed
    ensures
      var final := Run(h, reg, later);
      id in final.swaps && final.swaps[id].casper == reg.swaps[id].casper && final.swaps[id].evm == reg.swaps[id].evm
  {
    RunEvolves(h, reg, later);
  }

  lemma PassKeepsEvmClaimed(h: HashFn, mid: Registry, id: string, now: int)
    requires OrderOk(mid) && id in mid.swaps && mid.swaps[id].evm.status == Claimed
    ensures var after := FullPass(h, mid, now); id in after.swaps && after.swaps[id].evm.status == Claimed
  {
    SweepEvolves(h, mid, Snapshot(mid, mid.order), now);
  }

  lemma PassStep(h: HashFn, mid: Registry, id: string, now: int)
    requires Inv(h, mid) && id in mid.swaps && Addressable(mid, Place(id, Casper))
    requires mid.swaps[id].evm.status == Claimed && now < mid.swaps[id].casper.timelock
    requires mid.swaps[id].casper.status == Locked || mid.swaps[id].casper.status == Claimed
    ensures var after := Step(h, mid, Event(DoPass(false), now));
            id in after.swaps && after.swaps[id].casper.status == Claimed && after.swaps[id].evm.status == Claimed
  {
    PassIsStep(h, mid, now);
    PassLeavesClaimed(h, mid, id, now);
    PassKeepsEvmClaimed(h, mid, id, now);
  }

  lemma PassThenForever(h: HashFn, mid: Registry, id: string, now: int, later: seq<Event>)
    requires Inv(h, mid) && id in mid.swaps && Addressable(mid, Place(id, Casper))
    requires mid.swaps[id].evm.status == Claimed && now < mid.swaps[id].casper.timelock
    requires mid.swaps[id].casper.status == Locked || mid.swaps[id].casper.status == Claimed
    ensures
      var final := Run(h, mid, [Event(DoPass(false), now)] + later);
      id in final.swaps && final.swaps[id].casper.status == Claimed && final.swaps[id].evm.status == Claimed
  {
    var pass := Event(DoPass(false), now);
    RunStep(h, mid, pass, later);
    PassStep(h, mid, id, now);
    ClaimedForever(h, Step(h, mid, pass), later, id);
  }

  /** A locked Casper leg that the index does not lead to stays locked after any run. */
  lemma OutOfReachStays(h: HashFn, mid: Registry, id: string, rest: seq<Event>)
    requires Inv(h, mid) && id in mid.swaps && mid.swaps[id].casper.status == Locked
    requires !Addressable(mid, Place(id, Casper))
    ensures id in Run(h, mid, rest).swaps && Run(h, mid, rest).swaps[id].casper.status == Locked
  {
    UnaddressableForever(h, mid, rest, Place(id, Casper));
  }

  predicate BothClaimed(s: Swap) {
    s.casper.status == Claimed && s.evm.status == Claimed
  }

  lemma OnePassFrom(h: HashFn, mid: Registry, id: string, now: int, later: seq<Event>)
    requires Inv(h, mid) && id in mid.swaps && mid.swaps[id].evm.status == Claimed
    requires mid.swaps[id].casper.status == Locked || mid.swaps[id].casper.status == Claimed
    requires now < mid.swaps[id].casper.timelock
    ensures
      var final := Run(h, mid, [Event(DoPass(false), now)] + later);
      id in final.swaps
      && (BothClaimed(final.swaps[id])
          <==> mid.swaps[id].casper.status == Claimed || Addressable(mid, Place(id, Casper)))
  {
    if mid.swaps[id].casper.status == Claimed {
      ClaimedForever(h, mid, [Event(DoPass(false), now)] + later, id);
    } else if Addressable(mid, Place(id, Casper)) {
      PassThenForever(h, mid, id, now, later);
    } else {
      OutOfReachStays(h, mid, id, [Event(DoPass(false), now)] + later);
    }
  }

  /** Once the EVM leg is claimed with the Casper leg locked: whatever callers and passes do
      before the Casper deadline, one live pass before that deadline leaves both legs
      claimed after every continuation, if and only if it finds the Casper leg claimed
      already or the index leading to it. */
  lemma OnePassCompletes(h: HashFn, reg: Registry, id: string, between: seq<Event>, now: int, later: seq<Event>)
    requires Inv(h, reg) && id in reg.swaps
    requires reg.swaps[id].evm.status == Claimed && reg.swaps[id].casper.status == Locked
    requires ClockBelow(between, reg.swaps[id].casper.timelock) && now < reg.swaps[id].casper.timelock
    ensures
      var mid := Run(h, reg, between);
      var final := Run(h, reg, between + ([Event(DoPass(false), now)] + later));
      && id in mid.swaps && id in final.swaps
      && (BothClaimed(final.swaps[id])
          <==> mid.swaps[id].casper.status == Claimed || Addressable(mid, Place(id, Casper)))
  {
    RunAppend(h, reg, between, [Event(DoPass(false), now)] + later);
    StillPending(h, reg, between, id);
    OnePassFrom(h, Run(h, reg, between), id, now, later);
  }
}
