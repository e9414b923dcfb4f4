/** The relayer's decisions on any snapshot, and its counters against the registry: each
    claim or refund counted is one leg settled. */
module RelayCounts {
  import opened Wrappers
  import opened Hashing
  import opened Htlc
  import opened Relay
  import opened HtlcEffects

  // ----- decisions ---------------------------------------------------------------------------------

  /** The first two legs the relayer looks at: those under "state" if there are any there. */
  predicate Sees(s: RelaySwap, a: RelayLeg, b: RelayLeg) {
    if s.stateLegs == None || s.stateLegs == Some([])
    then s.legs.Some? && [a, b] <= s.legs.value
    else [a, b] <= s.stateLegs.value
  }

  predicate Due(leg: RelayLeg, now: int) {
    leg.status == "LOCKED" && match leg.timelock case Some(t) => t <= now case None => 0 <= now
  }

  /** A swap with one leg claimed and the other locked is completed with the revealed preimage;
      otherwise the first locked leg that is due is refunded; anything else is left alone. */
  lemma DecideExactly(s: RelaySwap, now: int, a: RelayLeg, b: RelayLeg)
    requires Sees(s, a, b)
    ensures
      var first := b.status == "CLAIMED" && a.status == "LOCKED";
      var second := a.status == "CLAIMED" && b.status == "LOCKED";
      match Decide(s, now)
      case ClaimCall(legId, preimage) =>
        (first && legId == a.legId && preimage == b.preimage) || (second && legId == b.legId && preimage == a.preimage)
      case RefundCall(legId) =>
        && !first && !second
        && ((Due(a, now) && legId == a.legId) || (!Due(a, now) && Due(b, now) && legId == b.legId))
      case Idle => !first && !second && !Due(a, now) && !Due(b, now)
  {
    var legs := LegsOf(s);
    assert legs[0] == a && legs[1] == b;
  }

  /** A swap of fewer than two legs is left alone. */
  lemma TooFewLegs(s: RelaySwap, now: int)
    requires forall a, b :: !Sees(s, a, b)
    ensures Decide(s, now) == Idle
  {
    var legs := LegsOf(s);
    if |legs| >= 2 {
      assert [legs[0], legs[1]] <= legs;
      assert Sees(s, legs[0], legs[1]);
    }
  }

  // ----- counters ----------------------------------------------------------------------------------

  /** The legs in this state. */
  function LegsIn(reg: Registry, status: Status): set<Place> {
    (set id | id in reg.swaps && reg.swaps[id].casper.status == status :: Place(id, Casper))
    + (set id | id in reg.swaps && reg.swaps[id].evm.status == status :: Place(id, Evm))
  }

  lemma LegsInMembers(reg: Registry, status: Status, p: Place)
    ensures p in LegsIn(reg, status) <==> p.swapId in reg.swaps && LegAt(reg, p).status == status
  {
  }

  lemma DifferInOne<T>(before: set<T>, after: set<T>, p: T)
    requires forall q | q != p :: q in before <==> q in after
    ensures |after| - |before| == (if p in after then 1 else 0) - (if p in before then 1 else 0)
  {
    var rest := before - {p};
    assert rest == after - {p};
    CardWith(before, p);
    CardWith(after, p);
  }

  lemma CardWith<T>(s: set<T>, p: T)
    ensures |s| == |s - {p}| + if p in s then 1 else 0
  {
    if p !in s {
      assert s - {p} == s;
    }
  }

  /** Moving one leg from one state to another. */
  lemma OneMoves(reg: Registry, reg': Registry, p: Place, leg: Leg, status: Status)
    requires LegStored(reg, reg', p, leg) && p.swapId in reg.swaps
    ensures |LegsIn(reg', status)| - |LegsIn(reg, status)|
            == (if leg.status == status then 1 else 0) - (if LegAt(reg, p).status == status then 1 else 0)
  {
    var before, after := LegsIn(reg, status), LegsIn(reg', status);
    forall q | q != p
      ensures q in before <==> q in after
    {
      LegsInMembers(reg, status, q);
      LegsInMembers(reg', status, q);
      Untouched(reg, reg', p, leg, q);
    }
    LegsInMembers(reg, status, p);
    LegsInMembers(reg', status, p);
    DifferInOne(before, after, p);
  }

  lemma Untouched(reg: Registry, reg': Registry, p: Place, leg: Leg, q: Place)
    requires LegStored(reg, reg', p, leg) && p.swapId in reg.swaps && q != p
    ensures q.swapId in reg.swaps <==> q.swapId in reg'.swaps
    ensures q.swapId in reg.swaps ==> LegAt(reg', q) == LegAt(reg, q)
  {
  }

  /** One locked leg became settled. */
  ghost predicate Settles(reg: Registry, reg': Registry, status: Status) {
    exists p: Place, leg: Leg ::
      p.swapId in reg.swaps && LegStored(reg, reg', p, leg) && LegAt(reg, p).status == Locked && leg.status == status
  }

  lemma SettlesCounts(reg: Registry, reg': Registry, status: Status)
    requires Settles(reg, reg', status) && status != Locked
    ensures |LegsIn(reg', status)| == |LegsIn(reg, status)| + 1
    ensures forall other: Status | other != Locked && other != status :: |LegsIn(reg', other)| == |LegsIn(reg, other)|
  {
    var p: Place, leg: Leg :|
      p.swapId in reg.swaps && LegStored(reg, reg', p, leg) && LegAt(reg, p).status == Locked && leg.status == status;
    OneMoves(reg, reg', p, leg, status);
    forall other: Status | other != Locked && other != status
      ensures |LegsIn(reg', other)| == |LegsIn(reg, other)|
    {
      OneMoves(reg, reg', p, leg, other);
    }
  }

  lemma ClaimSettles(h: HashFn, reg: Registry, legId: string, preimage: string, now: int)
    ensures var c := Claim(h, reg, legId, preimage, now);
            if c.1.Ok? then Settles(reg, c.0, Claimed) else c.0 == reg
  {
    var c := Claim(h, reg, legId, preimage, now);
    ClaimDoes(h, reg, legId, preimage, now);
    NoLead(reg, legId);
    if p: Place :| LeadsTo(reg, legId, p) {
      if c.1.Ok? {
        assert ClaimOf(h, reg, p, Plain(preimage), now, c.0, c.1);
      }
    }
  }

  lemma RefundSettles(h: HashFn, reg: Registry, legId: string, now: int)
    ensures var f := Refund(h, reg, legId, now);
            if f.1.Ok? then Settles(reg, f.0, Refunded) else f.0 == reg
  {
    var f := Refund(h, reg, legId, now);
    RefundDoes(h, reg, legId, now);
    NoLead(reg, legId);
    if p: Place :| LeadsTo(reg, legId, p) {
      if f.1.Ok? {
        assert RefundOf(h, reg, p, now, f.0, f.1);
      }
    }
  }

  /** One call to the registry, and what its flag says of the legs claimed and refunded. */
  lemma PerformCounts(h: HashFn, reg: Registry, action: Action, now: int)
    ensures
      var r := Perform(h, reg, action, now);
      && |LegsIn(r.0, Claimed)| == |LegsIn(reg, Claimed)| + (if r.1 && action.ClaimCall? then 1 else 0)
      && |LegsIn(r.0, Refunded)| == |LegsIn(reg, Refunded)| + (if r.1 && action.RefundCall? then 1 else 0)
  {
    PerformSettles(h, reg, action, now);
    var r := Perform(h, reg, action, now);
    FlagCounts(reg, action, r.0, r.1);
  }

  /** What the flag of a call promises. */
  ghost predicate FlagHolds(reg: Registry, action: Action, reg': Registry, ok: bool) {
    if ok && action.ClaimCall? then Settles(reg, reg', Claimed)
    else if ok && action.RefundCall? then Settles(reg, reg', Refunded)
    else reg' == reg
  }

  lemma FlagCounts(reg: Registry, action: Action, reg': Registry, ok: bool)
    requires FlagHolds(reg, action, reg', ok)
    ensures |LegsIn(reg', Claimed)| == |LegsIn(reg, Claimed)| + (if ok && action.ClaimCall? then 1 else 0)
    ensures |LegsIn(reg', Refunded)| == |LegsIn(reg, Refunded)| + (if ok && action.RefundCall? then 1 else 0)
  {
    if ok && action.ClaimCall? {
      SettlesCounts(reg, reg', Claimed);
    } else if ok && action.RefundCall? {
      SettlesCounts(reg, reg', Refunded);
    }
  }

  lemma PerformSettles(h: HashFn, reg: Registry, action: Action, now: int)
    ensures var r := Perform(h, reg, action, now); FlagHolds(reg, action, r.0, r.1)
  {
    match action
    case Idle =>
    case ClaimCall(legId, preimage) =>
      if preimage.Some? {
        ClaimSettles(h, reg, legId, preimage.value, now);
      }
    case RefundCall(legId) => RefundSettles(h, reg, legId, now);
  }

  /** How much each counter grew. */
  ghost predicate Grew(stats: Stats, stats': Stats, claims: int, refunds: int) {
    && stats'.claimsInitiated - stats.claimsInitiated == claims
    && stats'.refundsInitiated - stats.refundsInitiated == refunds
  }

  lemma CarryCounts(h: HashFn, reg: Registry, stats: Stats, action: Action, now: int)
    ensures
      var r := Carry(h, reg, stats, action, now);
      Grew(stats, r.1, |LegsIn(r.0, Claimed)| - |LegsIn(reg, Claimed)|,
           |LegsIn(r.0, Refunded)| - |LegsIn(reg, Refunded)|)
  {
    PerformCounts(h, reg, action, now);
  }

  /** Over a whole pass the claims and refunds counted are the legs that became claimed and
      refunded, whatever fails on the way. */
  lemma {:induction false} PassCounts(h: HashFn, reg: Registry, stats: Stats, snaps: seq<RelaySwap>, now: int,
                                      dryRun: bool)
    ensures
      var r := Pass(h, reg, stats, snaps, now, dryRun);
      Grew(stats, r.1, |LegsIn(r.0, Claimed)| - |LegsIn(reg, Claimed)|,
           |LegsIn(r.0, Refunded)| - |LegsIn(reg, Refunded)|)
    decreases |snaps|
  {
    if snaps != [] {
      var r := Process(h, reg, stats, snaps[0], now, dryRun);
      PassUnfold(h, reg, stats, snaps, now, dryRun);
      if !dryRun {
        CarryCounts(h, reg, stats, Decide(snaps[0], now), now);
      }
      PassCounts(h, r.0, r.1, snaps[1..], now, dryRun);
    }
  }

  /** The same for ticks, of which each is counted once. */
  lemma TickCounts(h: HashFn, reg: Registry, stats: Stats, now: int, dryRun: bool)
    requires OrderOk(reg)
    ensures
      var r := Tick(h, reg, stats, now, dryRun);
      && r.1.ticks == stats.ticks + 1
      && Grew(stats, r.1, |LegsIn(r.0, Claimed)| - |LegsIn(reg, Claimed)|,
              |LegsIn(r.0, Refunded)| - |LegsIn(reg, Refunded)|)
  {
    var snaps := Snapshot(reg, reg.order);
    TickIsPass(h, reg, stats, now, dryRun);
    PassCounts(h, reg, stats.(ticks := stats.ticks + 1), snaps, now, dryRun);
    CountersAddUp(h, reg, stats.(ticks := stats.ticks + 1), snaps, now, dryRun);
  }

  lemma TickIsPass(h: HashFn, reg: Registry, stats: Stats, now: int, dryRun: bool)
    requires OrderOk(reg)
    ensures Tick(h, reg, stats, now, dryRun)
            == Pass(h, reg, stats.(ticks := stats.ticks + 1), Snapshot(reg, reg.order), now, dryRun)
  {
  }

  /** A dry run changes nothing but the count of ticks. */
  lemma DryRun(h: HashFn, reg: Registry, stats: Stats, now: int)
    requires OrderOk(reg)
    ensures Tick(h, reg, stats, now, true) == (reg, stats.(ticks := stats.ticks + 1))
  {
    TickIsPass(h, reg, stats, now, true);
    PassIsSweep(h, reg, stats.(ticks := stats.ticks + 1), Snapshot(reg, reg.order), now, true);
  }
}
