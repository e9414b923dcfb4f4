/** The relayer object, wired to a registry through the adapter. */
module BridgeRelayer {
  import opened Wrappers
  import opened Htlc
  import opened Relay
  import R = HtlcRegistry

  class BridgeRelayer {
    const registry: R.HtlcRegistry
    const dryRun: bool
    var ticks: nat
    var claimsInitiated: nat
    var refundsInitiated: nat
    var errors: nat

    ghost function Counters(): Stats
      reads this
    {
      Stats(ticks, claimsInitiated, refundsInitiated, errors)
    }

    constructor (registry: R.HtlcRegistry, dryRun: bool)
      ensures this.registry == registry && this.dryRun == dryRun && Counters() == Stats(0, 0, 0, 0)
    {
      this.registry, this.dryRun := registry, dryRun;
      ticks, claimsInitiated, refundsInitiated, errors := 0, 0, 0, 0;
    }

    /** The adapter's view of all swaps, in insertion order. */
    method GetSwaps() returns (snaps: seq<RelaySwap>)
      requires registry.Valid() && OrderOk(registry.view)
      ensures snaps == Snapshot(registry.view, registry.order)
    {
      snaps := [];
      for i := 0 to |registry.order|
        invariant |snaps| == i
        invariant forall k | 0 <= k < i :: snaps[k] == AdaptSwap(registry.view.swaps[registry.order[k]])
      {
        assert registry.order[i] in registry.view.swaps && registry.Holds(registry.order[i]);
        var s := registry.swaps[registry.order[i]];
        snaps := snaps + [AdaptSwap(R.SwapValue(s))];
      }
    }

    /** One decision pass at time `now`. Calls that raise are counted and swallowed. */
    method Tick(now: int)
      requires registry.Valid() && OrderOk(registry.view)
      modifies this, registry`view, registry.legs
      ensures registry.Valid()
      ensures (registry.view, Counters()) == Relay.Tick(registry.h, old(registry.view), old(Counters()), now, dryRun)
    {
      ticks := ticks + 1;
      var snaps := GetSwaps();
      ProcessAll(snaps, now);
    }

    /** The loop over the snapshot. */
    method ProcessAll(snaps: seq<RelaySwap>, now: int)
      requires registry.Valid()
      modifies this, registry`view, registry.legs
      ensures registry.Valid()
      ensures (registry.view, Counters()) == Pass(registry.h, old(registry.view), old(Counters()), snaps, now, dryRun)
    {
      ghost var final := Pass(registry.h, registry.view, Counters(), snaps, now, dryRun);
      assert snaps[0..] == snaps;
      for i := 0 to |snaps|
        invariant registry.Valid()
        invariant Pass(registry.h, registry.view, Counters(), snaps[i..], now, dryRun) == final
      {
        PassUnfold(registry.h, registry.view, Counters(), snaps[i..], now, dryRun);
        assert snaps[i..][1..] == snaps[i + 1..];
        ProcessSwap(snaps[i], now);
      }
    }

    method ProcessSwap(snap: RelaySwap, now: int)
      requires registry.Valid()
      modifies this, registry`view, registry.legs
      ensures registry.Valid()
      ensures (registry.view, Counters()) == Process(registry.h, old(registry.view), old(Counters()), snap, now, dryRun)
    {
      var legs := LegsOf(snap);
      if |legs| < 2 {
        return;
      }
      var a, b := legs[0], legs[1];
      if a.status == "CLAIMED" && b.status == "LOCKED" {
        if dryRun {
          return;
        }
        CallClaim(b.legId, a.preimage, now);
        return;
      }
      if b.status == "CLAIMED" && a.status == "LOCKED" {
        if dryRun {
          return;
        }
        CallClaim(a.legId, b.preimage, now);
        return;
      }
      if a.status == "LOCKED" && now >= Deadline(a) {
        if dryRun {
          return;
        }
        CallRefund(a.legId, now);
        return;
      }
      if b.status == "LOCKED" && now >= Deadline(b) {
        if dryRun {
          return;
        }
        CallRefund(b.legId, now);
      }
    }

    /** The claim callback; the flag is false where it raises. */
    method ClaimCallback(legId: string, preimage: Option<string>, now: int) returns (ok: bool)
      requires registry.Valid()
      modifies registry`view, registry.legs
      ensures registry.Valid()
      ensures registry.view == Perform(registry.h, old(registry.view), ClaimCall(legId, preimage), now).0
      ensures ok == Perform(registry.h, old(registry.view), ClaimCall(legId, preimage), now).1
    {
      if preimage == None {
        return false;
      }
      var result := registry.ClaimLegById(legId, preimage.value, now);
      return result.Ok?;
    }

    method RefundCallback(legId: string, now: int) returns (ok: bool)
      requires registry.Valid()
      modifies registry`view, registry.legs
      ensures registry.Valid()
      ensures registry.view == Perform(registry.h, old(registry.view), RefundCall(legId), now).0
      ensures ok == Perform(registry.h, old(registry.view), RefundCall(legId), now).1
    {
      var result := registry.RefundLegById(legId, now);
      return result.Ok?;
    }

    method CallClaim(legId: string, preimage: Option<string>, now: int)
      requires registry.Valid()
      modifies this, registry`view, registry.legs
      ensures registry.Valid()
      ensures registry.view == Carry(registry.h, old(registry.view), old(Counters()), ClaimCall(legId, preimage), now).0
      ensures Counters() == Carry(registry.h, old(registry.view), old(Counters()), ClaimCall(legId, preimage), now).1
    {
      var ok := ClaimCallback(legId, preimage, now);
      CountCall(ClaimCall(legId, preimage), ok);
    }

    method CallRefund(legId: string, now: int)
      requires registry.Valid()
      modifies this, registry`view, registry.legs
      ensures registry.Valid()
      ensures registry.view == Carry(registry.h, old(registry.view), old(Counters()), RefundCall(legId), now).0
      ensures Counters() == Carry(registry.h, old(registry.view), old(Counters()), RefundCall(legId), now).1
    {
      var ok := RefundCallback(legId, now);
      CountCall(RefundCall(legId), ok);
    }

    method CountCall(action: Action, ok: bool)
      modifies this
      ensures Counters() == Count(old(Counters()), action, ok)
    {
      if !ok {
        errors := errors + 1;
      } else if action.ClaimCall? {
        claimsInitiated := claimsInitiated + 1;
      } else if action.RefundCall? {
        refundsInitiated := refundsInitiated + 1;
      }
    }
  }
}
