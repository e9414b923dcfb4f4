/** The swap registry in place: leg objects that the transitions update, reached through
    a dict of swaps and an index of leg ids. Each method does exactly what the value-level
    state machine of module Htlc does. */
module HtlcRegistry {
  import opened Wrappers
  import opened Hashing
  import opened Htlc
  import Hex

  class HtlcLeg {
    const legId: string
    const side: Side
    const initiator: string
    const counterparty: string
    const amount: int
    const hashlock: string
    const timelock: int
    var status: Status
    var preimage: Option<string>
    var lockedAt: Option<int>
    var claimedAt: Option<int>
    var refundedAt: Option<int>
    var lockTx: Option<string>
    var claimTx: Option<string>
    var refundTx: Option<string>
    ghost const place: Place

    constructor (leg: Leg, ghost place: Place)
      ensures Value() == leg && this.place == place
    {
      this.place := place;
      legId, side, initiator, counterparty := leg.legId, leg.side, leg.initiator, leg.counterparty;
      amount, hashlock, timelock, status := leg.amount, leg.hashlock, leg.timelock, leg.status;
      preimage, lockedAt, claimedAt, refundedAt := leg.preimage, leg.lockedAt, leg.claimedAt, leg.refundedAt;
      lockTx, claimTx, refundTx := leg.lockTx, leg.claimTx, leg.refundTx;
    }

    function Value(): Leg
      reads this
    {
      Leg(legId, side, initiator, counterparty, amount, hashlock, timelock, status, preimage,
          lockedAt, claimedAt, refundedAt, lockTx, claimTx, refundTx)
    }
  }

  /** Writing back what is there changes nothing. */
  lemma PutSame(reg: Registry, p: Place)
    requires p.swapId in reg.swaps
    ensures Put(reg, p, LegAt(reg, p)) == reg
  {
    assert Put(reg, p, LegAt(reg, p)).swaps == reg.swaps;
  }

  /** The record of a swap never changes; its legs do. */
  datatype HtlcSwap = HtlcSwap(swapId: string, hashlock: string, casperLeg: HtlcLeg, evmLeg: HtlcLeg, createdAt: int)

  function SwapValue(s: HtlcSwap): Swap
    reads s.casperLeg, s.evmLeg
  {
    Swap(s.swapId, s.hashlock, s.casperLeg.Value(), s.evmLeg.Value(), s.createdAt)
  }

  class HtlcRegistry {
    const h: HashFn
    var swaps: map<string, HtlcSwap>
    var order: seq<string>
    var legIndex: map<string, string>
    ghost var legs: set<HtlcLeg>
    /** The state of the value-level machine that the objects hold. */
    ghost var view: Registry

    /** One swap's objects belong to the registry, sit where their label says and hold
        what the view says. */
    ghost predicate Holds(id: string)
      requires id in swaps && id in view.swaps
      reads this, legs
    {
      var s := swaps[id];
      && s.casperLeg in legs && s.casperLeg.place == Place(id, Casper)
      && s.evmLeg in legs && s.evmLeg.place == Place(id, Evm)
      && SwapValue(s) == view.swaps[id]
    }

    ghost predicate Valid()
      reads this, legs
    {
      && swaps.Keys == view.swaps.Keys && order == view.order && legIndex == view.legIndex
      && forall id | id in swaps :: Holds(id)
    }

    /** A call's result, as an object or an error, is the one the state machine gives. */
    ghost predicate Reports(result: Result<HtlcLeg, RejectCode>, expected: Result<Leg, RejectCode>)
      reads this, legs
    {
      match result
      case Ok(leg) => leg in legs && expected == Ok(leg.Value())
      case Err(e) => expected == Err(e)
    }

    constructor (h: HashFn)
      ensures Valid() && view == EMPTY && legs == {} && this.h == h
    {
      this.h := h;
      swaps, order, legIndex, legs := map[], [], map[], {};
      view := EMPTY;
    }

    ghost function Object(p: Place): HtlcLeg
      requires p.swapId in swaps
      reads this
    {
      if p.side == Casper then swaps[p.swapId].casperLeg else swaps[p.swapId].evmLeg
    }

    /** `_require_leg` and `get_leg`: null where the code raises UNKNOWN_LEG or returns None. */
    method FindLeg(legId: string) returns (leg: HtlcLeg?)
      requires Valid()
      ensures leg == null <==> Find(view, legId) == None
      ensures leg != null ==> leg in legs && Find(view, legId) == Some(leg.place)
                              && leg.Value() == LegAt(view, leg.place)
      ensures leg != null ==> leg.place.swapId in swaps && leg == Object(leg.place)
    {
      if legId !in legIndex {
        return null;
      }
      var swapId := legIndex[legId];
      if swapId == "" || swapId !in swaps {
        return null;
      }
      var swap := swaps[swapId];
      assert Holds(swapId);
      if swap.casperLeg.legId == legId {
        return swap.casperLeg;
      }
      if swap.evmLeg.legId == legId {
        return swap.evmLeg;
      }
      return null;
    }

    method InitiateSwap(r: Request, now: int) returns (result: Result<HtlcSwap, RejectCode>)
      requires Valid()
      modifies this
      ensures Valid() && fresh(legs - old(legs)) && old(legs) <= legs
      ensures view == Initiate(h, old(view), r, now).0
      ensures result.Err? ==> Err(result.error) == Initiate(h, old(view), r, now).1 && view == old(view)
      ensures result.Ok? ==> result.value.casperLeg in legs && result.value.evmLeg in legs
                             && Ok(SwapValue(result.value)) == Initiate(h, old(view), r, now).1
    {
      match RequestError(r) {
        case Some(e) => return Err(e);
        case None =>
      }
      var s := NewSwap(h, r, NormHex(r.hashlock).value, now);
      if s.swapId in swaps {
        return Err(LegAlreadyExists);
      }
      var swap := Store(s);
      return Ok(swap);
    }

    /** Creates the leg objects of a new swap and enters it into dict and index. */
    method Store(s: Swap) returns (swap: HtlcSwap)
      requires Valid() && s.swapId !in swaps
      modifies this
      ensures Valid() && fresh(legs - old(legs)) && old(legs) <= legs
      ensures view == Add(old(view), s) && swap.casperLeg in legs && swap.evmLeg in legs && SwapValue(swap) == s
    {
      var casperLeg := new HtlcLeg(s.casper, Place(s.swapId, Casper));
      var evmLeg := new HtlcLeg(s.evm, Place(s.swapId, Evm));
      swap := HtlcSwap(s.swapId, s.hashlock, casperLeg, evmLeg, s.createdAt);
      Enter(s, swap);
    }

    /** The dict and index entries of a swap whose leg objects are at hand. */
    method Enter(s: Swap, swap: HtlcSwap)
      requires Valid() && s.swapId !in swaps
      requires swap.casperLeg.place == Place(s.swapId, Casper) && swap.evmLeg.place == Place(s.swapId, Evm)
            && SwapValue(swap) == s
      modifies this
      ensures Valid() && legs == old(legs) + {swap.casperLeg, swap.evmLeg} && view == Add(old(view), s)
    {
      var casperLeg, evmLeg := swap.casperLeg, swap.evmLeg;
      ghost var before := swaps;
      assert forall id | id in before :: Holds(id);
      swaps := swaps[s.swapId := swap];
      order := order + [s.swapId];
      legIndex := legIndex[casperLeg.legId := s.swapId];
      legIndex := legIndex[evmLeg.legId := s.swapId];
      legs := legs + {casperLeg, evmLeg};
      view := Add(view, s);
      forall id | id in swaps
        ensures Holds(id)
      {
        if id != s.swapId {
          assert id in before;
        }
      }
    }

    /** Brings the view up to date after the fields of one leg object were written. */
    ghost method Record(leg: HtlcLeg)
      requires swaps.Keys == view.swaps.Keys && order == view.order && legIndex == view.legIndex
      requires leg in legs && leg.place.swapId in swaps
      requires forall id | id in swaps && id != leg.place.swapId :: Holds(id)
      requires
        var s := swaps[leg.place.swapId];
        && s.casperLeg in legs && s.casperLeg.place == Place(leg.place.swapId, Casper)
        && s.evmLeg in legs && s.evmLeg.place == Place(leg.place.swapId, Evm)
        && SwapValue(s) == view.swaps[leg.place.swapId].Set(leg.place.side, leg.Value())
      modifies this`view
      ensures Valid() && view == Put(old(view), leg.place, leg.Value())
    {
      assert forall id | id in swaps && id != leg.place.swapId :: Holds(id);
      view := Put(view, leg.place, leg.Value());
      forall id | id in swaps
        ensures Holds(id)
      {
      }
    }

    method MarkLocked(leg: HtlcLeg, now: int)
      requires Valid() && leg in legs && leg.place.swapId in swaps && leg == Object(leg.place)
      modifies this`view, leg
      ensures Valid()
      ensures leg.Value() == old(leg.Value()).(status := Locked, lockedAt := Some(now),
                                               lockTx := Some(TxHash(h, leg.side, leg.legId, "lock", now)))
      ensures view == Put(old(view), leg.place, leg.Value())
    {
      assert Holds(leg.place.swapId);
      ghost var before := leg.Value();
      var tx := TxHash(h, leg.side, leg.legId, "lock", now);
      leg.status := Locked;
      leg.lockedAt := Some(now);
      leg.lockTx := Some(tx);
      ghost var after := leg.Value();
      assert after == before.(status := Locked, lockedAt := Some(now), lockTx := Some(tx));
      Record(leg);
      assert leg.Value() == after;
    }

    method MarkClaimed(leg: HtlcLeg, preimage: string, now: int)
      requires Valid() && leg in legs && leg.place.swapId in swaps && leg == Object(leg.place)
      modifies this`view, leg
      ensures Valid()
      ensures leg.Value() == old(leg.Value()).(status := Claimed, preimage := Some(preimage), claimedAt := Some(now),
                                                       claimTx := Some(TxHash(h, leg.side, leg.legId, "claim", now)))
      ensures view == Put(old(view), leg.place, leg.Value())
    {
      assert Holds(leg.place.swapId);
      ghost var before := leg.Value();
      var tx := TxHash(h, leg.side, leg.legId, "claim", now);
      leg.status := Claimed;
      leg.preimage := Some(preimage);
      leg.claimedAt := Some(now);
      leg.claimTx := Some(tx);
      ghost var after := leg.Value();
      assert after == before.(status := Claimed, preimage := Some(preimage), claimedAt := Some(now),
                              claimTx := Some(tx));
      Record(leg);
      assert leg.Value() == after;
    }

    method MarkRefunded(leg: HtlcLeg, now: int)
      requires Valid() && leg in legs && leg.place.swapId in swaps && leg == Object(leg.place)
      modifies this`view, leg
      ensures Valid()
      ensures leg.Value() == old(leg.Value()).(status := Refunded, refundedAt := Some(now),
                                               refundTx := Some(TxHash(h, leg.side, leg.legId, "refund", now)))
      ensures view == Put(old(view), leg.place, leg.Value())
    {
      assert Holds(leg.place.swapId);
      ghost var before := leg.Value();
      var tx := TxHash(h, leg.side, leg.legId, "refund", now);
      leg.status := Refunded;
      leg.refundedAt := Some(now);
      leg.refundTx := Some(tx);
      ghost var after := leg.Value();
      assert after == before.(status := Refunded, refundedAt := Some(now), refundTx := Some(tx));
      Record(leg);
      assert leg.Value() == after;
    }

    method LockLegById(legId: string, now: int) returns (result: Result<HtlcLeg, RejectCode>)
      requires Valid()
      modifies this`view, legs
      ensures Valid()
      ensures view == Lock(h, old(view), legId, now).0 && Reports(result, Lock(h, old(view), legId, now).1)
      ensures result.Err? ==> view == old(view)
    {
      var leg := FindLeg(legId);
      if leg == null {
        return Err(UnknownLeg);
      }
      if leg.status == Locked {
        PutSame(view, leg.place);
        return Ok(leg);
      }
      if leg.status != Proposed {
        return Err(NotProposed);
      }
      if now >= leg.timelock {
        return Err(TimelockExpired);
      }
      MarkLocked(leg, now);
      return Ok(leg);
    }

    method ClaimLegById(legId: string, preimageHex: string, now: int) returns (result: Result<HtlcLeg, RejectCode>)
      requires Valid()
      modifies this`view, legs
      ensures Valid()
      ensures view == Claim(h, old(view), legId, preimageHex, now).0
            && Reports(result, Claim(h, old(view), legId, preimageHex, now).1)
      ensures result.Err? ==> view == old(view)
    {
      var norm := NormHex(preimageHex);
      if norm == None {
        return Err(InvalidHashlock);
      }
      var bytes := Hex.FromHex(norm.value);
      if bytes == None {
        return Err(InvalidHashlock);
      }
      var leg := FindLeg(legId);
      if leg == null {
        return Err(UnknownLeg);
      }
      if leg.status == Claimed {
        return Err(AlreadyClaimed);
      }
      if leg.status == Refunded {
        return Err(AlreadyRefunded);
      }
      if leg.status != Locked {
        return Err(NotLocked);
      }
      if now >= leg.timelock {
        return Err(TimelockExpired);
      }
      if h(BytesText(bytes.value)) != leg.hashlock {
        return Err(PreimageMismatch);
      }
      MarkClaimed(leg, norm.value, now);
      return Ok(leg);
    }

    method RefundLegById(legId: string, now: int) returns (result: Result<HtlcLeg, RejectCode>)
      requires Valid()
      modifies this`view, legs
      ensures Valid()
      ensures view == Refund(h, old(view), legId, now).0 && Reports(result, Refund(h, old(view), legId, now).1)
      ensures result.Err? ==> view == old(view)
    {
      var leg := FindLeg(legId);
      if leg == null {
        return Err(UnknownLeg);
      }
      if leg.status == Refunded {
        return Err(AlreadyRefunded);
      }
      if leg.status == Claimed {
        return Err(AlreadyClaimed);
      }
      if leg.status != Locked {
        return Err(NotLocked);
      }
      if now < leg.timelock {
        return Err(TimelockNotExpired);
      }
      MarkRefunded(leg, now);
      return Ok(leg);
    }

    method SwapStateSummary(swapId: string) returns (summary: Option<Summary>)
      requires Valid()
      ensures summary == Summarize(view, swapId)
    {
      if swapId !in swaps {
        return None;
      }
      var s := swaps[swapId];
      assert Holds(swapId);
      var casper, evm := s.casperLeg.status, s.evmLeg.status;
      var revealed := if s.casperLeg.preimage.Some? then s.casperLeg.preimage else s.evmLeg.preimage;
      var bothClaimed := casper == Claimed && evm == Claimed;
      var bothRefunded := casper == Refunded && evm == Refunded;
      var mixed := (casper == Claimed && evm == Refunded) || (casper == Refunded && evm == Claimed);
      var outcome := if bothClaimed then Completed else if bothRefunded then Aborted else InProgress;
      return Some(Summary(casper, evm, revealed, outcome, mixed));
    }
  }
}
