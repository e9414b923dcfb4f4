/** The relayer's decision pass over a snapshot of the swaps, and the adapter that feeds
    it from the registry and carries its calls back. */
module Relay {
  import opened Wrappers
  import opened Hashing
  import opened Htlc

  /** A leg as the relayer reads it: absent entries are None. */
  datatype RelayLeg = RelayLeg(legId: string, status: string, preimage: Option<string>, timelock: Option<int>)

  /** A swap as the relayer reads it: the legs may sit under "state" or at the top. */
  datatype RelaySwap = RelaySwap(stateLegs: Option<seq<RelayLeg>>, legs: Option<seq<RelayLeg>>)

  function LegsOf(s: RelaySwap): seq<RelayLeg> {
    if s.stateLegs.Some? && s.stateLegs.value != [] then s.stateLegs.value
    else if s.legs.Some? then s.legs.value
    else []
  }

  datatype Action = Idle | ClaimCall(legId: string, preimage: Option<string>) | RefundCall(legId: string)

  function Decide(s: RelaySwap, now: int): Action {
    var legs := LegsOf(s);
    if |legs| < 2 then Idle
    else
      var a, b := legs[0], legs[1];
      if a.status == "CLAIMED" && b.status == "LOCKED" then ClaimCall(b.legId, a.preimage)
      else if b.status == "CLAIMED" && a.status == "LOCKED" then ClaimCall(a.legId, b.preimage)
      else if a.status == "LOCKED" && now >= Deadline(a) then RefundCall(a.legId)
      else if b.status == "LOCKED" && now >= Deadline(b) then RefundCall(b.legId)
      else Idle
  }

  function Deadline(leg: RelayLeg): int {
    if leg.timelock.Some? then leg.timelock.value else 0
  }

  // ----- the adapter ------------------------------------------------------------------

  function StatusText(st: Status): string {
    match st
    case Proposed => "PROPOSED"
    case Locked => "LOCKED"
    case Claimed => "CLAIMED"
    case Refunded => "REFUNDED"
  }

  function AdaptLeg(leg: Leg): RelayLeg {
    RelayLeg(leg.legId, StatusText(leg.status), leg.preimage, Some(leg.timelock))
  }

  function AdaptSwap(s: Swap): RelaySwap {
    RelaySwap(None, Some([AdaptLeg(s.casper), AdaptLeg(s.evm)]))
  }

  lemma StatusTextInjective(a: Status, b: Status)
    ensures StatusText(a) == StatusText(b) <==> a == b
  {
    assert |StatusText(Proposed)| == 8 && |StatusText(Locked)| == 6 && |StatusText(Claimed)| == 7
          && |StatusText(Refunded)| == 8;
    assert StatusText(Proposed)[0] == 'P' && StatusText(Refunded)[0] == 'R';
  }

  /** The decision on an adapted swap, in the registry's terms. */
  lemma DecideAdapted(s: Swap, now: int)
    ensures Decide(AdaptSwap(s), now) ==
      if s.casper.status == Claimed && s.evm.status == Locked then ClaimCall(s.evm.legId, s.casper.preimage)
      else if s.evm.status == Claimed && s.casper.status == Locked then ClaimCall(s.casper.legId, s.evm.preimage)
      else if s.casper.status == Locked && now >= s.casper.timelock then RefundCall(s.casper.legId)
      else if s.evm.status == Locked && now >= s.evm.timelock then RefundCall(s.evm.legId)
      else Idle
  {
    StatusTextInjective(s.casper.status, Claimed);
    StatusTextInjective(s.casper.status, Locked);
    StatusTextInjective(s.evm.status, Claimed);
    StatusTextInjective(s.evm.status, Locked);
  }

  function Snapshot(reg: Registry, ids: seq<string>): (r: seq<RelaySwap>)
    requires forall i | 0 <= i < |ids| :: ids[i] in reg.swaps
    ensures |r| == |ids| && forall i | 0 <= i < |ids| :: r[i] == AdaptSwap(reg.swaps[ids[i]])
  {
    seq(|ids|, i requires 0 <= i < |ids| => AdaptSwap(reg.swaps[ids[i]]))
  }

  // ----- one pass ---------------------------------------------------------------------

  datatype Stats = Stats(ticks: nat, claimsInitiated: nat, refundsInitiated: nat, errors: nat)

  /** Carries a call to the registry; the flag says whether it returned normally. A claim
      without a preimage raises before the registry is reached. */
  function Perform(h: HashFn, reg: Registry, action: Action, now: int): (Registry, bool) {
    match action
    case Idle => (reg, true)
    case ClaimCall(legId, preimage) =>
      if preimage == None then (reg, false)
      else var r := Claim(h, reg, legId, preimage.value, now); (r.0, r.1.Ok?)
    case RefundCall(legId) =>
      var r := Refund(h, reg, legId, now); (r.0, r.1.Ok?)
  }

  function Count(stats: Stats, action: Action, ok: bool): Stats {
    if !ok then stats.(errors := stats.errors + 1)
    else match action
      case Idle => stats
      case ClaimCall(_, _) => stats.(claimsInitiated := stats.claimsInitiated + 1)
      case RefundCall(_) => stats.(refundsInitiated := stats.refundsInitiated + 1)
  }

  /** One swap of the pass; a dry run decides but never calls. */
  function Process(h: HashFn, reg: Registry, stats: Stats, snap: RelaySwap, now: int, dryRun: bool): (Registry, Stats) {
    if dryRun then (reg, stats) else Carry(h, reg, stats, Decide(snap, now), now)
  }

  /** A decision carried out and counted. */
  function Carry(h: HashFn, reg: Registry, stats: Stats, action: Action, now: int): (Registry, Stats) {
    var r := Perform(h, reg, action, now);
    (r.0, Count(stats, action, r.1))
  }

  function Pass(h: HashFn, reg: Registry, stats: Stats, snaps: seq<RelaySwap>, now: int, dryRun: bool)
    : (Registry, Stats)
    decreases |snaps|
  {
    if snaps == [] then (reg, stats)
    else
      var r := Process(h, reg, stats, snaps[0], now, dryRun);
      Pass(h, r.0, r.1, snaps[1..], now, dryRun)
  }

  lemma PassUnfold(h: HashFn, reg: Registry, stats: Stats, snaps: seq<RelaySwap>, now: int, dryRun: bool)
    requires snaps != []
    ensures
      var r := Process(h, reg, stats, snaps[0], now, dryRun);
      Pass(h, reg, stats, snaps, now, dryRun) == Pass(h, r.0, r.1, snaps[1..], now, dryRun)
  {
  }

  function Tick(h: HashFn, reg: Registry, stats: Stats, now: int, dryRun: bool): (Registry, Stats)
    requires OrderOk(reg)
  {
    Pass(h, reg, stats.(ticks := stats.ticks + 1), Snapshot(reg, reg.order), now, dryRun)
  }

  /** The registry half of a pass, free of counters. */
  function Sweep(h: HashFn, reg: Registry, snaps: seq<RelaySwap>, now: int): Registry
    decreases |snaps|
  {
    if snaps == [] then reg else Sweep(h, Perform(h, reg, Decide(snaps[0], now), now).0, snaps[1..], now)
  }

  lemma {:induction false} PassIsSweep(h: HashFn, reg: Registry, stats: Stats, snaps: seq<RelaySwap>, now: int,
                                       dryRun: bool)
    ensures Pass(h, reg, stats, snaps, now, dryRun).0 == if dryRun then reg else Sweep(h, reg, snaps, now)
    ensures dryRun ==> Pass(h, reg, stats, snaps, now, dryRun).1 == stats
    decreases |snaps|
  {
    if snaps != [] {
      var r := Process(h, reg, stats, snaps[0], now, dryRun);
      PassIsSweep(h, r.0, r.1, snaps[1..], now, dryRun);
    }
  }

  /** The swaps that a pass over this snapshot calls the registry for. */
  ghost function Called(snaps: seq<RelaySwap>, now: int): set<nat> {
    set k: nat | k < |snaps| && Decide(snaps[k], now) != Idle
  }

  lemma CalledRest(snaps: seq<RelaySwap>, now: int)
    requires snaps != []
    ensures |Called(snaps, now)| == |Called(snaps[1..], now)| + if Decide(snaps[0], now) == Idle then 0 else 1
  {
    var rest := Called(snaps[1..], now);
    var shifted := Successors(rest);
    SuccessorsCount(rest);
    forall k: nat | k < |snaps|
      ensures k in Called(snaps, now) <==> k in shifted || (k == 0 && Decide(snaps[0], now) != Idle)
    {
      if k > 0 {
        assert snaps[k] == snaps[1..][k - 1];
        assert k in shifted <==> k - 1 in rest;
      }
    }
    assert Called(snaps, now) == shifted + if Decide(snaps[0], now) == Idle then {} else {0};
  }

  ghost function Successors(ks: set<nat>): set<nat> {
    set k | k in ks :: k + 1
  }

  lemma SuccessorsOfRest(ks: set<nat>, n: nat)
    requires n in ks
    ensures Successors(ks) == Successors(ks - {n}) + {n + 1} && n + 1 !in Successors(ks - {n})
  {
    forall k | k in ks
      ensures k + 1 in Successors(ks - {n}) + {n + 1}
    {
      assert k == n || k in ks - {n};
    }
  }

  lemma {:induction false} SuccessorsCount(ks: set<nat>)
    ensures |Successors(ks)| == |ks|
  {
    if ks == {} {
      assert Successors(ks) == {};
    } else {
      var n :| n in ks;
      SuccessorsOfRest(ks, n);
      SuccessorsCount(ks - {n});
    }
  }

  function Total(stats: Stats): nat {
    stats.claimsInitiated + stats.refundsInitiated + stats.errors
  }

  /** Claims, refunds and errors add up to the calls of the pass, one for each swap whose
      decision is not idle; no counter falls. */
  lemma {:induction false} CountersAddUp(h: HashFn, reg: Registry, stats: Stats, snaps: seq<RelaySwap>, now: int,
                                         dryRun: bool)
    ensures
      var after := Pass(h, reg, stats, snaps, now, dryRun).1;
      && after.ticks == stats.ticks
      && stats.claimsInitiated <= after.claimsInitiated && stats.refundsInitiated <= after.refundsInitiated
            && stats.errors <= after.errors
      && Total(after) == Total(stats) + if dryRun then 0 else |Called(snaps, now)|
    decreases |snaps|
  {
    if snaps != [] {
      var r := Process(h, reg, stats, snaps[0], now, dryRun);
      CalledRest(snaps, now);
      CountersAddUp(h, r.0, r.1, snaps[1..], now, dryRun);
    } else {
      assert Called(snaps, now) == {};
    }
  }
}
