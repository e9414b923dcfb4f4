/** Where the leg index leads in a reachable registry: to the latest swap that carries the
    leg id. This decides which legs callers and the relayer can address. */
module SwapIndex {
  import opened Wrappers
  import opened Hashing
  import opened Htlc
  import opened Relay
  import opened SwapRuns
  import opened SwapSafety
  import opened SwapEffects

  predicate Carries(s: Swap, legId: string) {
    legId == s.casper.legId || legId == s.evm.legId
  }

  predicate CarriedAt(reg: Registry, k: nat, legId: string)
    requires k < |reg.order| && reg.order[k] in reg.swaps
  {
    Carries(reg.swaps[reg.order[k]], legId)
  }

  /** Swap k carries the leg id, and no swap initiated after it does. */
  ghost predicate LastAt(reg: Registry, k: nat, legId: string)
    requires OrderOk(reg)
  {
    k < |reg.order| && CarriedAt(reg, k, legId) && forall j | k < j < |reg.order| :: !CarriedAt(reg, j, legId)
  }

  ghost predicate LeadsToLast(reg: Registry, legId: string)
    requires OrderOk(reg)
  {
    legId in reg.legIndex && exists k: nat :: LastAt(reg, k, legId) && reg.order[k] == reg.legIndex[legId]
  }

  ghost predicate IndexLatest(reg: Registry)
    requires OrderOk(reg)
  {
    forall k, legId | 0 <= k < |reg.order| && CarriedAt(reg, k, legId) :: LeadsToLast(reg, legId)
  }

  lemma SameCarries(reg: Registry, reg': Registry, k: nat, legId: string)
    requires OrderOk(reg) && OrderOk(reg') && SameIndex(reg, reg') && k < |reg.order|
    ensures CarriedAt(reg', k, legId) <==> CarriedAt(reg, k, legId)
  {
  }

  lemma SameLeads(reg: Registry, reg': Registry, legId: string)
    requires OrderOk(reg) && OrderOk(reg') && SameIndex(reg, reg') && LeadsToLast(reg, legId)
    ensures LeadsToLast(reg', legId)
  {
    var k: nat :| LastAt(reg, k, legId) && reg.order[k] == reg.legIndex[legId];
    forall j: nat | j < |reg.order|
      ensures CarriedAt(reg', j, legId) <==> CarriedAt(reg, j, legId)
    {
      SameCarries(reg, reg', j, legId);
    }
    assert LastAt(reg', k, legId);
  }

  lemma SameIndexKeepsLatest(reg: Registry, reg': Registry)
    requires OrderOk(reg) && OrderOk(reg') && SameIndex(reg, reg') && IndexLatest(reg)
    ensures IndexLatest(reg')
  {
    forall k: nat, legId | k < |reg'.order| && CarriedAt(reg', k, legId)
      ensures LeadsToLast(reg', legId)
    {
      SameCarries(reg, reg', k, legId);
      SameLeads(reg, reg', legId);
    }
  }

  // ----- initiating a swap ------------------------------------------------------------------

  lemma AddCarries(reg: Registry, swap: Swap, k: nat, legId: string)
    requires OrderOk(reg) && swap.swapId !in reg.swaps && OrderOk(Add(reg, swap)) && k <= |reg.order|
    ensures CarriedAt(Add(reg, swap), k, legId)
            <==> if k < |reg.order| then CarriedAt(reg, k, legId) else Carries(swap, legId)
  {
    if k < |reg.order| {
      assert reg.order[k] in reg.swaps;
    }
  }

  lemma AddLeads(reg: Registry, swap: Swap, legId: string)
    requires OrderOk(reg) && swap.swapId !in reg.swaps && OrderOk(Add(reg, swap))
    requires Carries(swap, legId) || LeadsToLast(reg, legId)
    ensures LeadsToLast(Add(reg, swap), legId)
  {
    var reg', n := Add(reg, swap), |reg.order|;
    forall j: nat | j <= n
      ensures CarriedAt(reg', j, legId) <==> if j < n then CarriedAt(reg, j, legId) else Carries(swap, legId)
    {
      AddCarries(reg, swap, j, legId);
    }
    if Carries(swap, legId) {
      assert LastAt(reg', n, legId) && reg'.order[n] == reg'.legIndex[legId];
    } else {
      var k: nat :| LastAt(reg, k, legId) && reg.order[k] == reg.legIndex[legId];
      assert LastAt(reg', k, legId) && reg'.order[k] == reg'.legIndex[legId];
    }
  }

  lemma AddKeepsLatest(reg: Registry, swap: Swap)
    requires OrderOk(reg) && swap.swapId !in reg.swaps && OrderOk(Add(reg, swap)) && IndexLatest(reg)
    ensures IndexLatest(Add(reg, swap))
  {
    var reg' := Add(reg, swap);
    forall k: nat, legId | k < |reg'.order| && CarriedAt(reg', k, legId)
      ensures LeadsToLast(reg', legId)
    {
      AddCarries(reg, swap, k, legId);
      AddLeads(reg, swap, legId);
    }
  }

  lemma InitiateKeepsLatest(h: HashFn, reg: Registry, r: Request, now: int)
    requires OrderOk(reg) && IndexLatest(reg)
    ensures OrderOk(Initiate(h, reg, r, now).0) && IndexLatest(Initiate(h, reg, r, now).0)
  {
    if RequestError(r) == None {
      var swap := NewSwap(h, r, NormHex(r.hashlock).value, now);
      if swap.swapId !in reg.swaps {
        AddKeepsOrder(reg, swap);
        AddKeepsLatest(reg, swap);
      }
    }
  }

  // ----- runs -------------------------------------------------------------------------------

  lemma SameIndexReflexive(reg: Registry)
    ensures SameIndex(reg, reg)
  {
  }

  lemma StepKeepsIndex(h: HashFn, reg: Registry, e: Event)
    requires OrderOk(reg) && !e.op.DoInitiate?
    ensures SameIndex(reg, Step(h, reg, e))
  {
    if IsLegCall(e.op) {
      LegCallIsMove(h, reg, e);
      MoveKeepsIndex(h, reg, Step(h, reg, e), e.now);
    } else if e.op.dryRun {
      SameIndexReflexive(reg);
    } else {
      SweepKeepsIndex(h, reg, Snapshot(reg, reg.order), e.now);
    }
  }

  lemma StepKeepsLatest(h: HashFn, reg: Registry, e: Event)
    requires Inv(h, reg) && IndexLatest(reg)
    ensures Inv(h, Step(h, reg, e)) && IndexLatest(Step(h, reg, e))
  {
    StepKeepsInv(h, reg, e);
    if e.op.DoInitiate? {
      InitiateKeepsLatest(h, reg, e.op.request, e.now);
    } else {
      StepKeepsIndex(h, reg, e);
      SameIndexKeepsLatest(reg, Step(h, reg, e));
    }
  }

  lemma {:induction false} RunKeepsLatest(h: HashFn, reg: Registry, events: seq<Event>)
    requires Inv(h, reg) && IndexLatest(reg)
    ensures IndexLatest(Run(h, reg, events))
    decreases |events|
  {
    if events != [] {
      StepKeepsLatest(h, reg, events[0]);
      RunKeepsLatest(h, Step(h, reg, events[0]), events[1..]);
    }
  }

  // ----- which legs can be addressed ----------------------------------------------------------

  lemma LastIsUnique(reg: Registry, j: nat, k: nat, legId: string)
    requires OrderOk(reg) && LastAt(reg, j, legId) && LastAt(reg, k, legId)
    ensures j == k
  {
  }

  lemma OrderUnique(reg: Registry, j: nat, k: nat)
    requires OrderOk(reg) && j < |reg.order| && k < |reg.order| && reg.order[j] == reg.order[k]
    ensures j == k
  {
  }

  lemma FindLeadsTo(reg: Registry, i: nat, side: Side, legId: string)
    requires OrderOk(reg) && i < |reg.order| && reg.order[i] != "" && legId in reg.legIndex
    requires legId == reg.swaps[reg.order[i]].Get(side).legId
    ensures Find(reg, legId) == Some(Place(reg.order[i], side))
            <==> reg.legIndex[legId] == reg.order[i] && (side == Evm ==> legId != reg.swaps[reg.order[i]].casper.legId)
  {
    assert reg.order[i] in reg.swaps;
  }

  lemma IndexIsLast(reg: Registry, i: nat, legId: string)
    requires OrderOk(reg) && IndexLatest(reg) && i < |reg.order| && CarriedAt(reg, i, legId)
    ensures legId in reg.legIndex && (reg.legIndex[legId] == reg.order[i] <==> LastAt(reg, i, legId))
  {
    assert LeadsToLast(reg, legId);
    var k: nat :| LastAt(reg, k, legId) && reg.order[k] == reg.legIndex[legId];
    if LastAt(reg, i, legId) {
      LastIsUnique(reg, i, k, legId);
    }
    if reg.order[k] == reg.order[i] {
      OrderUnique(reg, k, i);
    }
  }

  /** A leg of the i-th initiated swap can be addressed if and only if no later swap carries
      its leg id (and, for an EVM leg, its swap's Casper leg does not either). */
  lemma AddressableExactly(h: HashFn, reg: Registry, i: nat, side: Side)
    requires Inv(h, reg) && IndexLatest(reg) && i < |reg.order|
    ensures
      var s := reg.swaps[reg.order[i]];
      Addressable(reg, Place(reg.order[i], side))
      <==> LastAt(reg, i, s.Get(side).legId) && (side == Evm ==> s.evm.legId != s.casper.legId)
  {
    assert reg.order[i] in reg.swaps;
    var legId := reg.swaps[reg.order[i]].Get(side).legId;
    IndexIsLast(reg, i, legId);
    FindLeadsTo(reg, i, side, legId);
  }

  /** No other swap carries a leg id of swap i. */
  ghost predicate Unshared(reg: Registry, i: nat)
    requires OrderOk(reg) && i < |reg.order|
  {
    forall j: nat | j < |reg.order| && j != i ::
      !CarriedAt(reg, j, reg.swaps[reg.order[i]].casper.legId) && !CarriedAt(reg, j, reg.swaps[reg.order[i]].evm.legId)
  }

  lemma UnsharedOthers(reg: Registry, i: nat)
    requires OrderOk(reg) && i < |reg.order|
    ensures var s := reg.swaps[reg.order[i]];
            Unshared(reg, i) <==> forall other | other in reg.swaps && other != reg.order[i] ::
              NotOf(s, reg.swaps[other].casper.legId) && NotOf(s, reg.swaps[other].evm.legId)
  {
    var s := reg.swaps[reg.order[i]];
    if Unshared(reg, i) {
      forall other | other in reg.swaps && other != reg.order[i]
        ensures NotOf(s, reg.swaps[other].casper.legId) && NotOf(s, reg.swaps[other].evm.legId)
      {
        var j: nat :| j < |reg.order| && reg.order[j] == other;
        assert !CarriedAt(reg, j, s.casper.legId) && !CarriedAt(reg, j, s.evm.legId);
      }
    }
    forall j: nat | j < |reg.order| && j != i
      ensures reg.order[j] in reg.swaps && reg.order[j] != reg.order[i]
    {
      if reg.order[j] == reg.order[i] {
        OrderUnique(reg, j, i);
      }
    }
  }

  /** In a reachable registry privacy is nothing more than not sharing leg ids. */
  lemma PrivateExactly(h: HashFn, reg: Registry, i: nat)
    requires Inv(h, reg) && IndexLatest(reg) && i < |reg.order|
    ensures var s := reg.swaps[reg.order[i]];
            Private(reg, reg.order[i]) <==> Unshared(reg, i) && s.casper.legId != s.evm.legId
  {
    AddressableExactly(h, reg, i, Casper);
    AddressableExactly(h, reg, i, Evm);
    UnsharedOthers(reg, i);
  }

  /** The EVM leg is claimed, the Casper leg locked with time left. */
  predicate AwaitsCompletion(s: Swap, now: int) {
    s.evm.status == Claimed && s.casper.status == Locked && now < s.casper.timelock
  }

  /** For every reachable registry: a pass before the Casper deadline completes a swap whose
      EVM leg is claimed and whose Casper leg is locked, if and only if no swap initiated
      later carries that Casper leg's id. */
  lemma CompletesUnlessShared(h: HashFn, events: seq<Event>, i: nat, now: int)
    requires i < |Run(h, EMPTY, events).order|
    ensures
      var reg := Run(h, EMPTY, events);
      var id := reg.order[i];
      id in reg.swaps && (AwaitsCompletion(reg.swaps[id], now) ==>
        var after := FullPass(h, reg, now);
        id in after.swaps
        && (after.swaps[id].casper.status == Claimed <==> LastAt(reg, i, reg.swaps[id].casper.legId)))
  {
    var reg := Run(h, EMPTY, events);
    var id := reg.order[i];
    ReachableIsSound(h, events);
    RunKeepsLatest(h, EMPTY, events);
    assert id in reg.swaps;
    AddressableExactly(h, reg, i, Casper);
    if AwaitsCompletion(reg.swaps[id], now) {
      PassCompletesSwap(h, reg, id, now);
    }
  }

  /** Both legs of the i-th initiated swap are locked and both deadlines are past. */
  predicate AwaitsRefunds(s: Swap, t: int, u: int) {
    s.casper.status == Locked && s.evm.status == Locked && t >= s.casper.timelock && u >= s.casper.timelock
  }

  predicate BothRefunded(s: Swap) {
    s.casper.status == Refunded && s.evm.status == Refunded
  }

  /** For every reachable registry: two late passes refund both locked legs of a swap if and
      only if no swap initiated later carries either leg id and the two ids differ. */
  lemma RefundsUnlessShared(h: HashFn, events: seq<Event>, i: nat, t: int, u: int)
    requires i < |Run(h, EMPTY, events).order|
    ensures
      var reg := Run(h, EMPTY, events);
      var id := reg.order[i];
      id in reg.swaps && (AwaitsRefunds(reg.swaps[id], t, u) ==>
        var s, after := reg.swaps[id], Passes(h, reg, [t, u]);
        id in after.swaps
        && (BothRefunded(after.swaps[id])
            <==> LastAt(reg, i, s.casper.legId) && LastAt(reg, i, s.evm.legId) && s.evm.legId != s.casper.legId))
  {
    var reg := Run(h, EMPTY, events);
    ReachableIsSound(h, events);
    RunKeepsLatest(h, EMPTY, events);
    RefundsUnlessSharedAt(h, reg, i, t, u);
  }

  lemma RefundsUnlessSharedAt(h: HashFn, reg: Registry, i: nat, t: int, u: int)
    requires Inv(h, reg) && IndexLatest(reg) && i < |reg.order|
    ensures
      var id := reg.order[i];
      id in reg.swaps && (AwaitsRefunds(reg.swaps[id], t, u) ==>
        var s, after := reg.swaps[id], Passes(h, reg, [t, u]);
        id in after.swaps
        && (BothRefunded(after.swaps[id])
            <==> LastAt(reg, i, s.casper.legId) && LastAt(reg, i, s.evm.legId) && s.evm.legId != s.casper.legId))
  {
    var id := reg.order[i];
    AddressableExactly(h, reg, i, Casper);
    AddressableExactly(h, reg, i, Evm);
    if AwaitsRefunds(reg.swaps[id], t, u) {
      TwoPassesRefundBoth(h, reg, id, t, u);
    }
  }
}
