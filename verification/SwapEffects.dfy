/** The exact effect of a relayer pass on one leg, in terms of the statuses, timelocks and leg
    ids of all swaps, and what follows for passes alone. */
module SwapEffects {
  import opened Wrappers
  import opened Hashing
  import opened Htlc
  import opened Relay
  import opened SwapRuns
  import opened SwapSafety

  // ----- one decision ---------------------------------------------------------------------------

  /** The call claims the leg, if the leg is locked and the index leads to it. */
  predicate ClaimsLeg(h: HashFn, action: Action, leg: Leg, now: int) {
    && action.ClaimCall? && action.legId == leg.legId && now < leg.timelock && action.preimage.Some?
    && NormHex(action.preimage.value).Some? && Opens(h, NormHex(action.preimage.value).value, leg.hashlock)
  }

  predicate RefundsLeg(action: Action, leg: Leg, now: int) {
    action == RefundCall(leg.legId) && now >= leg.timelock
  }

  lemma PerformKeepsPlace(h: HashFn, reg: Registry, action: Action, now: int, p: Place)
    requires p.swapId in reg.swaps
    ensures
      var reg' := Perform(h, reg, action, now).0;
      && SameIndex(reg, reg') && p.swapId in reg'.swaps && SameTerms(LegAt(reg, p), LegAt(reg', p))
      && (Addressable(reg', p) <==> Addressable(reg, p))
  {
    var reg' := Perform(h, reg, action, now).0;
    PerformIsMove(h, reg, action, now);
    MoveIsAt(h, reg, reg', p, now);
    MoveKeepsIndex(h, reg, reg', now);
    SameIndexSameFind(reg, reg', LegAt(reg, p).legId);
  }

  lemma ClaimEffect(h: HashFn, reg: Registry, action: Action, now: int, p: Place)
    requires action.ClaimCall? && Addressable(reg, p)
    ensures
      var leg, reg' := LegAt(reg, p), Perform(h, reg, action, now).0;
      p.swapId in reg'.swaps && LegAt(reg', p).status
        == if leg.status == Locked && ClaimsLeg(h, action, leg, now) then Claimed else leg.status
  {
    PerformKeepsPlace(h, reg, action, now, p);
    assert action.legId != LegAt(reg, p).legId ==> Find(reg, action.legId) != Some(p);
  }

  lemma RefundEffect(h: HashFn, reg: Registry, legId: string, now: int, p: Place)
    requires Addressable(reg, p)
    ensures
      var leg, reg' := LegAt(reg, p), Refund(h, reg, legId, now).0;
      p.swapId in reg'.swaps && LegAt(reg', p).status
        == if leg.status == Locked && legId == leg.legId && now >= leg.timelock then Refunded else leg.status
  {
    PerformKeepsPlace(h, reg, RefundCall(legId), now, p);
  }

  /** What one call does to one leg. */
  lemma PerformEffect(h: HashFn, reg: Registry, action: Action, now: int, p: Place)
    requires Addressable(reg, p)
    ensures
      var leg, reg' := LegAt(reg, p), Perform(h, reg, action, now).0;
      && p.swapId in reg'.swaps && SameTerms(leg, LegAt(reg', p)) && Addressable(reg', p)
      && LegAt(reg', p).status
         == if leg.status == Locked && ClaimsLeg(h, action, leg, now) then Claimed
            else if leg.status == Locked && RefundsLeg(action, leg, now) then Refunded
            else leg.status
  {
    PerformKeepsPlace(h, reg, action, now, p);
    match action
    case ClaimCall(_, _) => ClaimEffect(h, reg, action, now, p);
    case RefundCall(legId) => RefundEffect(h, reg, legId, now, p);
    case Idle =>
  }

  // ----- a pass over a snapshot --------------------------------------------------------------------

  ghost predicate SomeClaims(h: HashFn, snaps: seq<RelaySwap>, leg: Leg, now: int) {
    exists k | 0 <= k < |snaps| :: ClaimsLeg(h, Decide(snaps[k], now), leg, now)
  }

  ghost predicate SomeRefunds(snaps: seq<RelaySwap>, leg: Leg, now: int) {
    exists k | 0 <= k < |snaps| :: RefundsLeg(Decide(snaps[k], now), leg, now)
  }

  lemma SomeClaimsRest(h: HashFn, snaps: seq<RelaySwap>, a: Leg, b: Leg, now: int)
    requires snaps != [] && SameTerms(a, b)
    ensures SomeClaims(h, snaps, a, now)
            <==> ClaimsLeg(h, Decide(snaps[0], now), a, now) || SomeClaims(h, snaps[1..], b, now)
  {
    if SomeClaims(h, snaps, a, now) {
      var k :| 0 <= k < |snaps| && ClaimsLeg(h, Decide(snaps[k], now), a, now);
      assert k > 0 ==> snaps[k] == snaps[1..][k - 1];
    }
  }

  lemma SomeRefundsRest(snaps: seq<RelaySwap>, a: Leg, b: Leg, now: int)
    requires snaps != [] && SameTerms(a, b)
    ensures SomeRefunds(snaps, a, now)
            <==> RefundsLeg(Decide(snaps[0], now), a, now) || SomeRefunds(snaps[1..], b, now)
  {
    if SomeRefunds(snaps, a, now) {
      var k :| 0 <= k < |snaps| && RefundsLeg(Decide(snaps[k], now), a, now);
      assert k > 0 ==> snaps[k] == snaps[1..][k - 1];
    }
  }

  /** The status of a leg after all calls of a pass, the decisions being made on the snapshot. */
  ghost function StatusAfter(h: HashFn, snaps: seq<RelaySwap>, leg: Leg, now: int): Status {
    if leg.status == Locked && SomeClaims(h, snaps, leg, now) then Claimed
    else if leg.status == Locked && SomeRefunds(snaps, leg, now) then Refunded
    else leg.status
  }

  lemma StatusAfterRest(h: HashFn, snaps: seq<RelaySwap>, a: Leg, b: Leg, now: int)
    requires snaps != [] && SameTerms(a, b)
    requires b.status == if a.status == Locked && ClaimsLeg(h, Decide(snaps[0], now), a, now) then Claimed
                         else if a.status == Locked && RefundsLeg(Decide(snaps[0], now), a, now) then Refunded
                         else a.status
    ensures StatusAfter(h, snaps, a, now) == StatusAfter(h, snaps[1..], b, now)
  {
    SomeClaimsRest(h, snaps, a, b, now);
    SomeRefundsRest(snaps, a, b, now);
  }

  /** A leg the index leads to is claimed by a pass exactly if some call of the pass claims it,
      and refunded exactly if some call refunds it. */
  lemma {:induction false} SweepEffect(h: HashFn, reg: Registry, snaps: seq<RelaySwap>, now: int, p: Place)
    requires Addressable(reg, p)
    ensures p.swapId in Sweep(h, reg, snaps, now).swaps
    ensures LegAt(Sweep(h, reg, snaps, now), p).status == StatusAfter(h, snaps, LegAt(reg, p), now)
    decreases |snaps|
  {
    if snaps != [] {
      var reg' := Perform(h, reg, Decide(snaps[0], now), now).0;
      PerformEffect(h, reg, Decide(snaps[0], now), now, p);
      StatusAfterRest(h, snaps, LegAt(reg, p), LegAt(reg', p), now);
      SweepEffect(h, reg', snaps[1..], now, p);
    }
  }

  // ----- in the registry's own terms -----------------------------------------------------------------

  /** Swap s has one leg claimed and the other locked, and its relayed claim fits the leg. */
  predicate ClaimedBy(h: HashFn, s: Swap, leg: Leg, now: int) {
    && now < leg.timelock
    && ((s.casper.status == Claimed && s.evm.status == Locked && s.evm.legId == leg.legId
         && s.casper.preimage.Some? && Opens(h, s.casper.preimage.value, leg.hashlock))
        || (s.evm.status == Claimed && s.casper.status == Locked && s.casper.legId == leg.legId
            && s.evm.preimage.Some? && Opens(h, s.evm.preimage.value, leg.hashlock)))
  }

  /** Swap s waits for no claim, and its first overdue leg carries the id of this one. */
  predicate RefundedBy(s: Swap, leg: Leg, now: int) {
    && now >= leg.timelock
    && ((Overdue(s.casper, now) && s.evm.status != Claimed && s.casper.legId == leg.legId)
        || (Overdue(s.evm, now) && s.casper.status != Claimed && !Overdue(s.casper, now) && s.evm.legId == leg.legId))
  }

  predicate Overdue(leg: Leg, now: int) {
    leg.status == Locked && now >= leg.timelock
  }

  lemma ClaimsAreClaimedBy(h: HashFn, s: Swap, leg: Leg, now: int)
    requires SwapOk(h, s)
    ensures ClaimsLeg(h, Decide(AdaptSwap(s), now), leg, now) <==> ClaimedBy(h, s, leg, now)
  {
    DecideAdapted(s, now);
  }

  lemma RefundsAreRefundedBy(s: Swap, leg: Leg, now: int)
    ensures RefundsLeg(Decide(AdaptSwap(s), now), leg, now) <==> RefundedBy(s, leg, now)
  {
    DecideAdapted(s, now);
  }

  ghost predicate ClaimedBySome(h: HashFn, reg: Registry, leg: Leg, now: int) {
    exists x | x in reg.swaps :: ClaimedBy(h, reg.swaps[x], leg, now)
  }

  ghost predicate RefundedBySome(reg: Registry, leg: Leg, now: int) {
    exists x | x in reg.swaps :: RefundedBy(reg.swaps[x], leg, now)
  }

  ghost predicate GetsClaimed(h: HashFn, reg: Registry, p: Place, now: int)
    requires p.swapId in reg.swaps
  {
    && LegAt(reg, p).status == Locked && Addressable(reg, p)
    && ClaimedBySome(h, reg, LegAt(reg, p), now)
  }

  ghost predicate GetsRefunded(reg: Registry, p: Place, now: int)
    requires p.swapId in reg.swaps
  {
    && LegAt(reg, p).status == Locked && Addressable(reg, p)
    && RefundedBySome(reg, LegAt(reg, p), now)
  }

  lemma ClaimsAt(h: HashFn, reg: Registry, k: nat, leg: Leg, now: int)
    requires Inv(h, reg) && k < |reg.order|
    ensures ClaimsLeg(h, Decide(Snapshot(reg, reg.order)[k], now), leg, now)
            <==> ClaimedBy(h, reg.swaps[reg.order[k]], leg, now)
  {
    assert SwapOk(h, reg.swaps[reg.order[k]]);
    ClaimsAreClaimedBy(h, reg.swaps[reg.order[k]], leg, now);
  }

  lemma RefundsAt(reg: Registry, k: nat, leg: Leg, now: int)
    requires OrderOk(reg) && k < |reg.order|
    ensures RefundsLeg(Decide(Snapshot(reg, reg.order)[k], now), leg, now)
            <==> RefundedBy(reg.swaps[reg.order[k]], leg, now)
  {
    RefundsAreRefundedBy(reg.swaps[reg.order[k]], leg, now);
  }

  lemma SnapshotClaims(h: HashFn, reg: Registry, leg: Leg, now: int)
    requires Inv(h, reg)
    ensures SomeClaims(h, Snapshot(reg, reg.order), leg, now) <==> ClaimedBySome(h, reg, leg, now)
  {
    var snaps := Snapshot(reg, reg.order);
    if ClaimedBySome(h, reg, leg, now) {
      ClaimerInSnapshot(h, reg, leg, now);
    }
    if k :| 0 <= k < |snaps| && ClaimsLeg(h, Decide(snaps[k], now), leg, now) {
      ClaimsAt(h, reg, k, leg, now);
    }
  }

  lemma ClaimerInSnapshot(h: HashFn, reg: Registry, leg: Leg, now: int)
    requires Inv(h, reg) && ClaimedBySome(h, reg, leg, now)
    ensures SomeClaims(h, Snapshot(reg, reg.order), leg, now)
  {
    var x :| x in reg.swaps && ClaimedBy(h, reg.swaps[x], leg, now);
    var k :| 0 <= k < |reg.order| && reg.order[k] == x;
    ClaimsAt(h, reg, k, leg, now);
  }

  lemma SnapshotRefunds(reg: Registry, leg: Leg, now: int)
    requires OrderOk(reg)
    ensures SomeRefunds(Snapshot(reg, reg.order), leg, now) <==> RefundedBySome(reg, leg, now)
  {
    var snaps := Snapshot(reg, reg.order);
    if RefundedBySome(reg, leg, now) {
      RefunderInSnapshot(reg, leg, now);
    }
    if k :| 0 <= k < |snaps| && RefundsLeg(Decide(snaps[k], now), leg, now) {
      RefundsAt(reg, k, leg, now);
    }
  }

  lemma RefunderInSnapshot(reg: Registry, leg: Leg, now: int)
    requires OrderOk(reg) && RefundedBySome(reg, leg, now)
    ensures SomeRefunds(Snapshot(reg, reg.order), leg, now)
  {
    var x :| x in reg.swaps && RefundedBy(reg.swaps[x], leg, now);
    var k :| 0 <= k < |reg.order| && reg.order[k] == x;
    RefundsAt(reg, k, leg, now);
  }

  /** What a pass over the whole registry does to any leg. */
  lemma PassEffect(h: HashFn, reg: Registry, p: Place, now: int)
    requires Inv(h, reg) && p.swapId in reg.swaps
    ensures p.swapId in FullPass(h, reg, now).swaps
    ensures LegAt(FullPass(h, reg, now), p).status
            == if GetsClaimed(h, reg, p, now) then Claimed
               else if GetsRefunded(reg, p, now) then Refunded
               else LegAt(reg, p).status
  {
    SnapshotClaims(h, reg, LegAt(reg, p), now);
    SnapshotRefunds(reg, LegAt(reg, p), now);
    if Addressable(reg, p) {
      SweepEffect(h, reg, Snapshot(reg, reg.order), now, p);
    } else {
      UnaddressablePass(h, reg, now, p);
    }
  }

  // ----- when a pass mixes outcomes ---------------------------------------------------------------------

  /** One leg gets claimed with the other refunded, or gets refunded with the other claimed. */
  ghost predicate MixesNow(h: HashFn, reg: Registry, id: string, now: int)
    requires id in reg.swaps
  {
    var s, c, e := reg.swaps[id], Place(id, Casper), Place(id, Evm);
    || (GetsClaimed(h, reg, c, now) && (s.evm.status == Refunded || GetsRefunded(reg, e, now)))
    || (GetsRefunded(reg, c, now) && s.evm.status == Claimed)
    || (GetsClaimed(h, reg, e, now) && s.casper.status == Refunded)
    || (GetsRefunded(reg, e, now) && s.casper.status == Claimed)
  }

  lemma NotBoth(h: HashFn, reg: Registry, p: Place, now: int)
    requires p.swapId in reg.swaps
    ensures GetsClaimed(h, reg, p, now) ==> now < LegAt(reg, p).timelock
    ensures GetsRefunded(reg, p, now) ==> now >= LegAt(reg, p).timelock
  {
  }

  /** A pass mixes the outcome of a swap exactly in the states that MixesNow describes. */
  lemma PassMixesExactly(h: HashFn, reg: Registry, id: string, now: int)
    requires Inv(h, reg) && id in reg.swaps && !Mixed(reg.swaps[id])
    ensures id in FullPass(h, reg, now).swaps
    ensures Mixed(FullPass(h, reg, now).swaps[id]) <==> MixesNow(h, reg, id, now)
  {
    assert SwapOk(h, reg.swaps[id]);
    PassEffect(h, reg, Place(id, Casper), now);
    PassEffect(h, reg, Place(id, Evm), now);
    NotBoth(h, reg, Place(id, Casper), now);
    NotBoth(h, reg, Place(id, Evm), now);
  }

  /** Only on behalf of another swap with one of its leg ids is a swap's outcome mixed. */
  lemma MixedByAnother(h: HashFn, reg: Registry, id: string, now: int)
    requires Inv(h, reg) && id in reg.swaps && MixesNow(h, reg, id, now)
    ensures exists x | x in reg.swaps && x != id ::
              !NotOf(reg.swaps[id], reg.swaps[x].casper.legId) || !NotOf(reg.swaps[id], reg.swaps[x].evm.legId)
  {
    assert SwapOk(h, reg.swaps[id]);
    assert !NotOf(reg.swaps[id], reg.swaps[id].casper.legId);
  }

  /** Besides SharedLegMixes: after the deadline another swap's refund reaches the shared
      Casper leg although this swap's EVM leg is claimed. */
  lemma SharedLegRefunds(h: HashFn, reg: Registry, a: string, b: string, now: int)
    requires Inv(h, reg) && a in reg.swaps && b in reg.swaps && Addressable(reg, Place(b, Casper))
    requires reg.swaps[a].casper.legId == reg.swaps[b].casper.legId
    requires Overdue(reg.swaps[a].casper, now) && reg.swaps[a].evm.status != Claimed
    requires Overdue(reg.swaps[b].casper, now) && reg.swaps[b].evm.status == Claimed
    ensures b in FullPass(h, reg, now).swaps && Mixed(FullPass(h, reg, now).swaps[b])
  {
    assert RefundedBy(reg.swaps[a], reg.swaps[b].casper, now);
    assert GetsRefunded(reg, Place(b, Casper), now);
    PassMixesExactly(h, reg, b, now);
  }

  ghost predicate MixesAt(h: HashFn, reg: Registry, id: string, times: seq<int>, k: nat)
    requires Inv(h, reg) && k < |times|
  {
    var before := Passes(h, reg, times[..k]);
    id in before.swaps && MixesNow(h, before, id, times[k])
  }

  lemma PassesUnfold(h: HashFn, reg: Registry, times: seq<int>, k: nat)
    requires Inv(h, reg) && 0 < k <= |times|
    ensures Inv(h, FullPass(h, reg, times[0]))
    ensures Passes(h, reg, times[..k]) == Passes(h, FullPass(h, reg, times[0]), times[1..][..k - 1])
  {
    SweepKeepsInv(h, reg, Snapshot(reg, reg.order), times[0]);
    assert times[..k][1..] == times[1..][..k - 1];
  }

  lemma MixesAtRest(h: HashFn, reg: Registry, id: string, times: seq<int>)
    requires Inv(h, reg) && id in reg.swaps && times != []
    ensures Inv(h, FullPass(h, reg, times[0]))
    ensures (exists k: nat | k < |times| :: MixesAt(h, reg, id, times, k))
            <==> MixesNow(h, reg, id, times[0])
                 || exists k: nat | k < |times[1..]| :: MixesAt(h, FullPass(h, reg, times[0]), id, times[1..], k)
  {
    var next, rest := FullPass(h, reg, times[0]), times[1..];
    SweepKeepsInv(h, reg, Snapshot(reg, reg.order), times[0]);
    forall k: nat | k < |rest|
      ensures MixesAt(h, next, id, rest, k) <==> MixesAt(h, reg, id, times, k + 1)
    {
      PassesUnfold(h, reg, times, k + 1);
    }
    assert MixesAt(h, reg, id, times, 0) <==> MixesNow(h, reg, id, times[0]);
    if k: nat :| k < |times| && MixesAt(h, reg, id, times, k) {
      assert k > 0 ==> MixesAt(h, next, id, rest, k - 1);
    }
    if k: nat :| k < |rest| && MixesAt(h, next, id, rest, k) {
      assert MixesAt(h, reg, id, times, k + 1);
    }
  }

  /** What no pass changes about a leg. */
  lemma PassKeeps(h: HashFn, reg: Registry, p: Place, now: int)
    requires OrderOk(reg) && p.swapId in reg.swaps
    ensures
      var next := FullPass(h, reg, now);
      && p.swapId in next.swaps && Evolves(LegAt(reg, p), LegAt(next, p))
      && (Addressable(next, p) <==> Addressable(reg, p))
  {
    SweepEvolves(h, reg, Snapshot(reg, reg.order), now);
    SweepKeepsIndex(h, reg, Snapshot(reg, reg.order), now);
    SameIndexSameFind(reg, FullPass(h, reg, now), LegAt(reg, p).legId);
  }

  lemma MixedThroughPass(h: HashFn, reg: Registry, id: string, now: int)
    requires OrderOk(reg) && id in reg.swaps && Mixed(reg.swaps[id])
    ensures id in FullPass(h, reg, now).swaps && Mixed(FullPass(h, reg, now).swaps[id])
  {
    PassKeeps(h, reg, Place(id, Casper), now);
    PassKeeps(h, reg, Place(id, Evm), now);
  }

  lemma {:induction false} MixedStaysMixed(h: HashFn, reg: Registry, id: string, times: seq<int>)
    requires Inv(h, reg) && id in reg.swaps && Mixed(reg.swaps[id])
    ensures id in Passes(h, reg, times).swaps && Mixed(Passes(h, reg, times).swaps[id])
    decreases |times|
  {
    if times != [] {
      MixedThroughPass(h, reg, id, times[0]);
      SweepKeepsInv(h, reg, Snapshot(reg, reg.order), times[0]);
      MixedStaysMixed(h, FullPass(h, reg, times[0]), id, times[1..]);
    }
  }

  /** Relayer passes alone, at any times in any order, leave a swap with one leg claimed and
      the other refunded if and only if one of them meets the conditions of MixesNow. */
  lemma {:induction false} RelayerMixesExactly(h: HashFn, reg: Registry, id: string, times: seq<int>)
    requires Inv(h, reg) && id in reg.swaps && !Mixed(reg.swaps[id])
    ensures id in Passes(h, reg, times).swaps
    ensures Mixed(Passes(h, reg, times).swaps[id])
            <==> exists k: nat | k < |times| :: MixesAt(h, reg, id, times, k)
    decreases |times|
  {
    if times != [] {
      var next := FullPass(h, reg, times[0]);
      MixesAtRest(h, reg, id, times);
      PassMixesExactly(h, reg, id, times[0]);
      if Mixed(next.swaps[id]) {
        MixedStaysMixed(h, next, id, times[1..]);
      } else {
        RelayerMixesExactly(h, next, id, times[1..]);
      }
    }
  }

  // ----- two late passes --------------------------------------------------------------------------------

  lemma OwnRefund(reg: Registry, id: string, now: int)
    requires id in reg.swaps && reg.swaps[id].evm.timelock <= reg.swaps[id].casper.timelock <= now
    ensures
      var s, p := reg.swaps[id], Place(id, Casper);
      s.casper.status == Locked && s.evm.status != Claimed && Addressable(reg, p) ==> GetsRefunded(reg, p, now)
    ensures
      var s, p := reg.swaps[id], Place(id, Evm);
      s.evm.status == Locked && s.casper.status == Refunded && Addressable(reg, p) ==> GetsRefunded(reg, p, now)
  {
    var s := reg.swaps[id];
    assert s.casper.status == Locked && s.evm.status != Claimed ==> RefundedBy(s, s.casper, now);
    assert s.evm.status == Locked && s.casper.status == Refunded ==> RefundedBy(s, s.evm, now);
  }

  lemma FirstLatePass(h: HashFn, reg: Registry, id: string, now: int)
    requires Inv(h, reg) && id in reg.swaps && reg.swaps[id].casper.timelock <= now
    requires reg.swaps[id].casper.status == Locked && reg.swaps[id].evm.status == Locked
    ensures
      var next := FullPass(h, reg, now);
      && id in next.swaps && next.swaps[id].casper.timelock == reg.swaps[id].casper.timelock
      && (Addressable(next, Place(id, Casper)) <==> Addressable(reg, Place(id, Casper)))
      && (Addressable(next, Place(id, Evm)) <==> Addressable(reg, Place(id, Evm)))
      && next.swaps[id].casper.status == (if Addressable(reg, Place(id, Casper)) then Refunded else Locked)
      && (next.swaps[id].evm.status == Locked
          || (next.swaps[id].evm.status == Refunded && Addressable(reg, Place(id, Evm))))
  {
    assert SwapOk(h, reg.swaps[id]);
    PassKeeps(h, reg, Place(id, Casper), now);
    PassKeeps(h, reg, Place(id, Evm), now);
    OwnRefund(reg, id, now);
    PassEffect(h, reg, Place(id, Casper), now);
    PassEffect(h, reg, Place(id, Evm), now);
    NotBoth(h, reg, Place(id, Casper), now);
    NotBoth(h, reg, Place(id, Evm), now);
  }

  lemma SecondLatePass(h: HashFn, reg: Registry, id: string, now: int)
    requires Inv(h, reg) && id in reg.swaps && reg.swaps[id].casper.timelock <= now
    requires reg.swaps[id].casper.status == Refunded
    requires reg.swaps[id].evm.status == Locked || reg.swaps[id].evm.status == Refunded
    ensures
      var next := FullPass(h, reg, now);
      && id in next.swaps && next.swaps[id].casper.status == Refunded
      && (next.swaps[id].evm.status == Refunded
          <==> reg.swaps[id].evm.status == Refunded || Addressable(reg, Place(id, Evm)))
  {
    assert SwapOk(h, reg.swaps[id]);
    OwnRefund(reg, id, now);
    PassEffect(h, reg, Place(id, Casper), now);
    PassEffect(h, reg, Place(id, Evm), now);
    NotBoth(h, reg, Place(id, Evm), now);
  }

  /** Two passes at or after the later deadline refund both locked legs of a swap if and only
      if the index leads to both. */
  lemma TwoPassesRefundBoth(h: HashFn, reg: Registry, id: string, t: int, u: int)
    requires Inv(h, reg) && id in reg.swaps
    requires reg.swaps[id].casper.status == Locked && reg.swaps[id].evm.status == Locked
    requires t >= reg.swaps[id].casper.timelock && u >= reg.swaps[id].casper.timelock
    ensures
      var after := Passes(h, reg, [t, u]);
      && id in after.swaps
      && (after.swaps[id].casper.status == Refunded && after.swaps[id].evm.status == Refunded
          <==> Addressable(reg, Place(id, Casper)) && Addressable(reg, Place(id, Evm)))
  {
    var next := FullPass(h, reg, t);
    FirstLatePass(h, reg, id, t);
    SweepKeepsInv(h, reg, Snapshot(reg, reg.order), t);
    TwoPasses(h, reg, t, u);
    if Addressable(reg, Place(id, Casper)) {
      SecondLatePass(h, next, id, u);
    } else {
      UnaddressablePass(h, next, u, Place(id, Casper));
    }
  }

  lemma TwoPasses(h: HashFn, reg: Registry, t: int, u: int)
    requires Inv(h, reg) && Inv(h, FullPass(h, reg, t))
    ensures Passes(h, reg, [t, u]) == FullPass(h, FullPass(h, reg, t), u)
  {
    var next := FullPass(h, reg, t);
    assert [t, u][1..] == [u] && [u][1..] == [];
    SweepKeepsInv(h, next, Snapshot(next, next.order), u);
    assert Passes(h, FullPass(h, next, u), []) == FullPass(h, next, u);
    assert Passes(h, next, [u]) == FullPass(h, next, u);
  }

  // ----- one pass between the deadlines, exactly -----------------------------------------------------------

  /** No continuation, on a clock that does not fall behind the pass, ends with the EVM leg
      claimed and the Casper leg refunded. */
  ghost predicate NeverLost(h: HashFn, reg: Registry, id: string, now: int)
    requires Inv(h, reg)
  {
    forall later | ClockFrom(later, now) :: KeptBy(h, reg, id, later)
  }

  ghost predicate KeptBy(h: HashFn, reg: Registry, id: string, later: seq<Event>)
    requires Inv(h, reg)
  {
    var final := Run(h, reg, later);
    id in final.swaps && !Lost(final.swaps[id])
  }

  /** Locks the exposed Casper leg and lets its deadline pass. */
  function Loss(leg: Leg, now: int): seq<Event> {
    [Event(DoLock(leg.legId), now)] + [Event(DoRefund(leg.legId), leg.timelock)]
  }

  lemma LossOfLeg(h: HashFn, reg: Registry, id: string, now: int)
    requires id in reg.swaps && Exposed(reg, id) && now < reg.swaps[id].casper.timelock
    ensures
      var leg := reg.swaps[id].casper;
      var final := Refund(h, Lock(h, reg, leg.legId, now).0, leg.legId, leg.timelock).0;
      id in final.swaps && Lost(final.swaps[id])
  {
    var leg := reg.swaps[id].casper;
    var reg' := Lock(h, reg, leg.legId, now).0;
    assert Find(reg', leg.legId) == Some(Place(id, Casper));
  }

  lemma RunTwo(h: HashFn, reg: Registry, e: Event, f: Event)
    requires Inv(h, reg)
    ensures Inv(h, Step(h, reg, e)) && Run(h, reg, [e] + [f]) == Step(h, Step(h, reg, e), f)
  {
    RunStep(h, reg, e, [f]);
    RunStep(h, Step(h, reg, e), f, []);
    assert [f] + [] == [f];
  }

  lemma LossSteps(h: HashFn, reg: Registry, legId: string, now: int, late: int)
    requires OrderOk(reg) && OrderOk(Step(h, reg, Event(DoLock(legId), now)))
    ensures Step(h, Step(h, reg, Event(DoLock(legId), now)), Event(DoRefund(legId), late))
            == Refund(h, Lock(h, reg, legId, now).0, legId, late).0
  {
  }

  lemma RunLoss(h: HashFn, reg: Registry, leg: Leg, now: int)
    requires Inv(h, reg)
    ensures Run(h, reg, Loss(leg, now)) == Refund(h, Lock(h, reg, leg.legId, now).0, leg.legId, leg.timelock).0
  {
    RunTwo(h, reg, Event(DoLock(leg.legId), now), Event(DoRefund(leg.legId), leg.timelock));
    LossSteps(h, reg, leg.legId, now, leg.timelock);
  }

  lemma LossHappens(h: HashFn, reg: Registry, id: string, now: int)
    requires Inv(h, reg) && id in reg.swaps && Exposed(reg, id) && now < reg.swaps[id].casper.timelock
    ensures !KeptBy(h, reg, id, Loss(reg.swaps[id].casper, now))
  {
    var leg := reg.swaps[id].casper;
    LossOfLeg(h, reg, id, now);
    RunLoss(h, reg, leg, now);
    NotKept(h, reg, id, Loss(leg, now), Refund(h, Lock(h, reg, leg.legId, now).0, leg.legId, leg.timelock).0);
  }

  lemma NotKept(h: HashFn, reg: Registry, id: string, later: seq<Event>, final: Registry)
    requires Inv(h, reg) && Run(h, reg, later) == final && id in final.swaps && Lost(final.swaps[id])
    ensures !KeptBy(h, reg, id, later)
  {
  }

  lemma ExposedStays(h: HashFn, reg: Registry, id: string, now: int)
    requires Inv(h, reg) && id in reg.swaps && Exposed(reg, id)
    ensures
      var next := FullPass(h, reg, now);
      id in next.swaps && Exposed(next, id) && next.swaps[id].casper.timelock == reg.swaps[id].casper.timelock
  {
    PassEffect(h, reg, Place(id, Casper), now);
    PassKeeps(h, reg, Place(id, Casper), now);
    PassKeeps(h, reg, Place(id, Evm), now);
  }

  lemma LostStays(h: HashFn, reg: Registry, id: string, now: int)
    requires Inv(h, reg) && id in reg.swaps && Lost(reg.swaps[id])
    ensures
      var next := FullPass(h, reg, now);
      id in next.swaps && Lost(next.swaps[id]) && next.swaps[id].casper.timelock == reg.swaps[id].casper.timelock
  {
    PassKeeps(h, reg, Place(id, Casper), now);
    PassKeeps(h, reg, Place(id, Evm), now);
  }

  lemma LossExcluded(h: HashFn, reg: Registry, id: string, now: int)
    requires Inv(h, reg) && id in reg.swaps && !Lost(reg.swaps[id]) && !Exposed(reg, id)
    requires reg.swaps[id].evm.timelock <= now < reg.swaps[id].casper.timelock
    requires Inv(h, FullPass(h, reg, now))
    ensures NeverLost(h, FullPass(h, reg, now), id, now)
  {
    forall later | ClockFrom(later, now)
      ensures KeptBy(h, FullPass(h, reg, now), id, later)
    {
      KeptAfterPass(h, reg, id, now, later);
    }
  }

  lemma LossPossible(h: HashFn, reg: Registry, id: string, now: int)
    requires Inv(h, reg) && id in reg.swaps && now < reg.swaps[id].casper.timelock
    requires Lost(reg.swaps[id]) || Exposed(reg, id)
    ensures !NeverLost(h, reg, id, now)
  {
    if Exposed(reg, id) {
      LossHappens(h, reg, id, now);
      assert ClockFrom(Loss(reg.swaps[id].casper, now), now);
    } else {
      assert ClockFrom([], now) && !KeptBy(h, reg, id, []);
    }
  }

  /** One live pass between the deadlines excludes that loss over every continuation if and
      only if it has not happened yet and the EVM leg was not claimed beside a Casper leg
      that can still be locked. */
  lemma PassBetweenDeadlinesExactly(h: HashFn, reg: Registry, id: string, now: int)
    requires Inv(h, reg) && id in reg.swaps
    requires reg.swaps[id].evm.timelock <= now < reg.swaps[id].casper.timelock
    ensures Inv(h, FullPass(h, reg, now))
    ensures NeverLost(h, FullPass(h, reg, now), id, now) <==> !Lost(reg.swaps[id]) && !Exposed(reg, id)
  {
    SweepKeepsInv(h, reg, Snapshot(reg, reg.order), now);
    if Lost(reg.swaps[id]) {
      LostStays(h, reg, id, now);
      LossPossible(h, FullPass(h, reg, now), id, now);
    } else if Exposed(reg, id) {
      ExposedStays(h, reg, id, now);
      LossPossible(h, FullPass(h, reg, now), id, now);
    } else {
      LossExcluded(h, reg, id, now);
    }
  }
}
