/** A reachable instance of the shared-leg hazard: two swaps whose Casper legs carry the
    same data, hence the same leg id. */
module SharedLegs {
  import opened Wrappers
  import opened Hashing
  import opened Htlc
  import opened SwapRuns
  import opened SwapSafety
  import Hex

  function Hashlock(h: HashFn): Digest {
    h(BytesText([0]))
  }

  /** Same Casper leg, different EVM initiators and EVM deadlines. */
  function FirstRequest(h: HashFn): Request {
    Request(Hashlock(h), "alice", "bob", 5, 30, "carol", "dave", 7, 20)
  }

  function SecondRequest(h: HashFn): Request {
    Request(Hashlock(h), "alice", "bob", 5, 30, "erin", "dave", 7, 10)
  }

  function First(h: HashFn): Swap {
    NewSwap(h, FirstRequest(h), Hashlock(h), 0)
  }

  function Second(h: HashFn): Swap {
    NewSwap(h, SecondRequest(h), Hashlock(h), 3)
  }

  /** The five ids in play do not collide. */
  predicate IdsDistinct(h: HashFn) {
    && First(h).swapId != Second(h).swapId
    && First(h).casper.legId != First(h).evm.legId && First(h).casper.legId != Second(h).evm.legId
    && First(h).evm.legId != Second(h).evm.legId
  }

  lemma RequestsFine(h: HashFn)
    ensures RequestError(FirstRequest(h)) == None && RequestError(SecondRequest(h)) == None
    ensures NormHex(Hashlock(h)) == Some(Hashlock(h))
    ensures First(h).swapId != "" && Second(h).swapId != ""
  {
    NormHexIdempotent(Hashlock(h));
    NewSwapOk(h, FirstRequest(h), 0);
    NewSwapOk(h, SecondRequest(h), 3);
  }

  lemma PreimageOpens(h: HashFn)
    ensures NormHex("00") == Some("00") && Opens(h, "00", Hashlock(h))
  {
    NormHexIdempotent("00");
    var s := "00";
    assert s[2..] == "";
    assert Hex.HexValue('0') == 0;
    assert Hex.FromHex(s) == Some([0 as Hex.byte] + []);
    assert [0 as Hex.byte] + [] == [0];
  }

  // ----- the states of the scenario ---------------------------------------------------

  /** Only the first swap exists. */
  function One(h: HashFn, s: Swap): Registry {
    var id := First(h).swapId;
    Registry(map[id := s], [id], map[First(h).casper.legId := id][First(h).evm.legId := id])
  }

  /** Both exist; the shared leg id now leads to the second. */
  function Two(h: HashFn, s: Swap, t: Swap): Registry {
    Add(One(h, s), Second(h)).(swaps := map[First(h).swapId := s, Second(h).swapId := t])
  }

  predicate IsFirst(h: HashFn, s: Swap) {
    SameTerms(First(h).casper, s.casper) && SameTerms(First(h).evm, s.evm) && s.hashlock == Hashlock(h)
  }

  predicate IsSecond(h: HashFn, t: Swap) {
    SameTerms(Second(h).casper, t.casper) && SameTerms(Second(h).evm, t.evm) && t.hashlock == Hashlock(h)
  }

  lemma FindOne(h: HashFn, s: Swap)
    requires IdsDistinct(h) && IsFirst(h, s)
    ensures Find(One(h, s), First(h).casper.legId) == Some(Place(First(h).swapId, Casper))
    ensures Find(One(h, s), First(h).evm.legId) == Some(Place(First(h).swapId, Evm))
  {
    RequestsFine(h);
  }

  lemma FindTwo(h: HashFn, s: Swap, t: Swap)
    requires IdsDistinct(h) && IsFirst(h, s) && IsSecond(h, t)
    ensures Find(Two(h, s, t), First(h).casper.legId) == Some(Place(Second(h).swapId, Casper))
    ensures Find(Two(h, s, t), First(h).evm.legId) == Some(Place(First(h).swapId, Evm))
    ensures Find(Two(h, s, t), Second(h).evm.legId) == Some(Place(Second(h).swapId, Evm))
  {
    RequestsFine(h);
  }

  function Locked1(h: HashFn, leg: Leg, now: int): Leg {
    leg.(status := Locked, lockedAt := Some(now), lockTx := Some(TxHash(h, leg.side, leg.legId, "lock", now)))
  }

  /** First swap initiated, both its legs locked. */
  function FirstLocked(h: HashFn): Swap {
    First(h).(casper := Locked1(h, First(h).casper, 1), evm := Locked1(h, First(h).evm, 2))
  }

  /** Second swap with both legs locked, then its EVM leg refunded at its deadline. */
  function SecondLocked(h: HashFn): Swap {
    Second(h).(casper := Locked1(h, Second(h).casper, 4), evm := Locked1(h, Second(h).evm, 5))
  }

  function SecondRefunded(h: HashFn): Swap {
    SecondLocked(h).(evm := RefundLeg(h, SecondLocked(h).evm, 10).value)
  }

  /** First swap's EVM leg claimed with the shared preimage. */
  function FirstClaimed(h: HashFn): Swap
    requires ClaimLeg(h, FirstLocked(h).evm, "00", 11).Ok?
  {
    FirstLocked(h).(evm := ClaimLeg(h, FirstLocked(h).evm, "00", 11).value)
  }

  function Opening(h: HashFn): seq<Event> {
    [Event(DoInitiate(FirstRequest(h)), 0)] +
    ([Event(DoLock(First(h).casper.legId), 1)] +
     [Event(DoLock(First(h).evm.legId), 2)])
  }

  function Middle(h: HashFn): seq<Event> {
    [Event(DoInitiate(SecondRequest(h)), 3)] +
    ([Event(DoLock(First(h).casper.legId), 4)] +
     [Event(DoLock(Second(h).evm.legId), 5)])
  }

  function Ending(h: HashFn): seq<Event> {
    [Event(DoRefund(Second(h).evm.legId), 10)] + [Event(DoClaim(First(h).evm.legId, "00"), 11)]
  }

  lemma RunOne(h: HashFn, reg: Registry, e: Event)
    requires Inv(h, reg)
    ensures Inv(h, Step(h, reg, e)) && Run(h, reg, [e]) == Step(h, reg, e)
  {
    RunStep(h, reg, e, []);
    assert [e] + [] == [e];
  }

  lemma RunThree(h: HashFn, reg: Registry, e: Event, f: Event, g: Event, r1: Registry, r2: Registry, r3: Registry)
    requires Inv(h, reg) && Step(h, reg, e) == r1 && OrderOk(r1) && Step(h, r1, f) == r2 && OrderOk(r2)
          && Step(h, r2, g) == r3
    ensures Inv(h, r3) && Run(h, reg, [e] + ([f] + [g])) == r3
  {
    RunStep(h, reg, e, [f] + [g]);
    RunStep(h, r1, f, [g]);
    RunOne(h, r2, g);
  }

  lemma FirstInitiated(h: HashFn)
    requires IdsDistinct(h)
    ensures Initiate(h, EMPTY, FirstRequest(h), 0).0 == One(h, First(h))
  {
    RequestsFine(h);
  }

  lemma LockStep(h: HashFn, reg: Registry, p: Place, legId: string, now: int)
    requires OrderOk(reg) && Find(reg, legId) == Some(p) && LegAt(reg, p).status == Proposed
          && now < LegAt(reg, p).timelock
    ensures Step(h, reg, Event(DoLock(legId), now)) == Put(reg, p, Locked1(h, LegAt(reg, p), now))
  {
  }

  lemma PutOne(h: HashFn, s: Swap, side: Side, leg: Leg)
    ensures Put(One(h, s), Place(First(h).swapId, side), leg) == One(h, s.Set(side, leg))
  {
    var id := First(h).swapId;
    assert map[id := s][id := s.Set(side, leg)] == map[id := s.Set(side, leg)];
  }

  function FirstHalfLocked(h: HashFn): Swap {
    First(h).(casper := Locked1(h, First(h).casper, 1))
  }

  lemma FirstStep1(h: HashFn)
    requires IdsDistinct(h) && OrderOk(One(h, First(h)))
    ensures Step(h, One(h, First(h)), Event(DoLock(First(h).casper.legId), 1)) == One(h, FirstHalfLocked(h))
  {
    var s := First(h);
    FindOne(h, s);
    LockStep(h, One(h, s), Place(s.swapId, Casper), s.casper.legId, 1);
    PutOne(h, s, Casper, Locked1(h, s.casper, 1));
  }

  lemma FirstStep2(h: HashFn)
    requires IdsDistinct(h) && OrderOk(One(h, FirstHalfLocked(h)))
    ensures Step(h, One(h, FirstHalfLocked(h)), Event(DoLock(First(h).evm.legId), 2)) == One(h, FirstLocked(h))
  {
    var s := FirstHalfLocked(h);
    FindOne(h, s);
    LockStep(h, One(h, s), Place(s.swapId, Evm), s.evm.legId, 2);
    PutOne(h, s, Evm, Locked1(h, s.evm, 2));
  }

  lemma OneOrdered(h: HashFn, s: Swap)
    ensures OrderOk(One(h, s))
  {
  }

  lemma OpeningReaches(h: HashFn)
    requires IdsDistinct(h)
    ensures Inv(h, One(h, FirstLocked(h))) && Run(h, EMPTY, Opening(h)) == One(h, FirstLocked(h))
  {
    OneOrdered(h, First(h));
    OneOrdered(h, FirstHalfLocked(h));
    FirstInitiated(h);
    FirstStep1(h);
    FirstStep2(h);
    RunThree(h, EMPTY, Event(DoInitiate(FirstRequest(h)), 0), Event(DoLock(First(h).casper.legId), 1),
             Event(DoLock(First(h).evm.legId), 2),
             One(h, First(h)), One(h, FirstHalfLocked(h)), One(h, FirstLocked(h)));
  }

  lemma SecondInitiated(h: HashFn, s: Swap)
    requires IdsDistinct(h) && IsFirst(h, s)
    ensures Initiate(h, One(h, s), SecondRequest(h), 3).0 == Two(h, s, Second(h))
  {
    RequestsFine(h);
    assert One(h, s).swaps[Second(h).swapId := Second(h)] == map[First(h).swapId := s, Second(h).swapId := Second(h)];
  }

  lemma PutSecond(h: HashFn, s: Swap, t: Swap, side: Side, leg: Leg)
    requires IdsDistinct(h)
    ensures Put(Two(h, s, t), Place(Second(h).swapId, side), leg) == Two(h, s, t.Set(side, leg))
  {
    var a, b := First(h).swapId, Second(h).swapId;
    assert map[a := s, b := t][b := t.Set(side, leg)] == map[a := s, b := t.Set(side, leg)];
  }

  lemma PutFirst(h: HashFn, s: Swap, t: Swap, side: Side, leg: Leg)
    requires IdsDistinct(h)
    ensures Put(Two(h, s, t), Place(First(h).swapId, side), leg) == Two(h, s.Set(side, leg), t)
  {
    var a, b := First(h).swapId, Second(h).swapId;
    assert map[a := s, b := t][a := s.Set(side, leg)] == map[a := s.Set(side, leg), b := t];
  }

  function HalfLocked(h: HashFn): Swap {
    Second(h).(casper := Locked1(h, Second(h).casper, 4))
  }

  lemma SecondStep1(h: HashFn)
    requires IdsDistinct(h) && OrderOk(Two(h, FirstLocked(h), Second(h)))
    ensures Step(h, Two(h, FirstLocked(h), Second(h)), Event(DoLock(First(h).casper.legId), 4))
          == Two(h, FirstLocked(h), HalfLocked(h))
  {
    var s, t := FirstLocked(h), Second(h);
    FindTwo(h, s, t);
    LockStep(h, Two(h, s, t), Place(Second(h).swapId, Casper), First(h).casper.legId, 4);
    PutSecond(h, s, t, Casper, Locked1(h, t.casper, 4));
  }

  lemma SecondStep2(h: HashFn)
    requires IdsDistinct(h) && OrderOk(Two(h, FirstLocked(h), HalfLocked(h)))
    ensures Step(h, Two(h, FirstLocked(h), HalfLocked(h)), Event(DoLock(Second(h).evm.legId), 5))
          == Two(h, FirstLocked(h), SecondLocked(h))
  {
    var s, t := FirstLocked(h), HalfLocked(h);
    FindTwo(h, s, t);
    LockStep(h, Two(h, s, t), Place(Second(h).swapId, Evm), Second(h).evm.legId, 5);
    PutSecond(h, s, t, Evm, Locked1(h, t.evm, 5));
  }

  lemma MiddleReaches(h: HashFn)
    requires IdsDistinct(h) && Inv(h, One(h, FirstLocked(h)))
    ensures Inv(h, Two(h, FirstLocked(h), SecondLocked(h)))
    ensures Run(h, One(h, FirstLocked(h)), Middle(h)) == Two(h, FirstLocked(h), SecondLocked(h))
  {
    var s := FirstLocked(h);
    var e, f := Event(DoInitiate(SecondRequest(h)), 3), Event(DoLock(First(h).casper.legId), 4);
    SecondInitiated(h, s);
    StepKeepsInv(h, One(h, s), e);
    SecondStep1(h);
    StepKeepsInv(h, Two(h, s, Second(h)), f);
    SecondStep2(h);
    RunThree(h, One(h, s), e, f, Event(DoLock(Second(h).evm.legId), 5),
             Two(h, s, Second(h)), Two(h, s, HalfLocked(h)), Two(h, s, SecondLocked(h)));
  }

  lemma RefundStep(h: HashFn)
    requires IdsDistinct(h) && OrderOk(Two(h, FirstLocked(h), SecondLocked(h)))
    ensures Step(h, Two(h, FirstLocked(h), SecondLocked(h)), Event(DoRefund(Second(h).evm.legId), 10))
            == Two(h, FirstLocked(h), SecondRefunded(h))
  {
    FindTwo(h, FirstLocked(h), SecondLocked(h));
    PutSecond(h, FirstLocked(h), SecondLocked(h), Evm, SecondRefunded(h).evm);
  }

  lemma FirstClaimOk(h: HashFn)
    ensures ClaimLeg(h, FirstLocked(h).evm, "00", 11).Ok?
  {
    PreimageOpens(h);
  }

  lemma ClaimStep(h: HashFn)
    requires IdsDistinct(h) && OrderOk(Two(h, FirstLocked(h), SecondRefunded(h)))
    ensures ClaimLeg(h, FirstLocked(h).evm, "00", 11).Ok?
    ensures Step(h, Two(h, FirstLocked(h), SecondRefunded(h)), Event(DoClaim(First(h).evm.legId, "00"), 11))
            == Two(h, FirstClaimed(h), SecondRefunded(h))
  {
    var s, t := FirstLocked(h), SecondRefunded(h);
    PreimageOpens(h);
    FirstClaimOk(h);
    FindTwo(h, s, t);
    ClaimAt(h, Two(h, s, t), Place(First(h).swapId, Evm), "00", 11);
    PutFirst(h, s, t, Evm, FirstClaimed(h).evm);
  }

  lemma EndingReaches(h: HashFn)
    requires IdsDistinct(h) && Inv(h, Two(h, FirstLocked(h), SecondLocked(h)))
    ensures ClaimLeg(h, FirstLocked(h).evm, "00", 11).Ok?
    ensures Run(h, Two(h, FirstLocked(h), SecondLocked(h)), Ending(h)) == Two(h, FirstClaimed(h), SecondRefunded(h))
  {
    var e, f := Event(DoRefund(Second(h).evm.legId), 10), Event(DoClaim(First(h).evm.legId, "00"), 11);
    RefundStep(h);
    RunStep(h, Two(h, FirstLocked(h), SecondLocked(h)), e, [f]);
    ClaimStep(h);
    RunOne(h, Two(h, FirstLocked(h), SecondRefunded(h)), f);
  }

  lemma RunReaches(h: HashFn)
    requires IdsDistinct(h)
    ensures ClaimLeg(h, FirstLocked(h).evm, "00", 11).Ok?
    ensures var reg := Two(h, FirstClaimed(h), SecondRefunded(h));
            Run(h, EMPTY, Opening(h) + Middle(h) + Ending(h)) == reg && Inv(h, reg)
  {
    OpeningReaches(h);
    MiddleReaches(h);
    EndingReaches(h);
    RunAppend(h, EMPTY, Opening(h), Middle(h));
    RunAppend(h, EMPTY, Opening(h) + Middle(h), Ending(h));
  }

  /** A run of eight honest calls, followed by one relayer pass, ends with one leg of a
      swap claimed and the other refunded. */
  lemma SharedLegReachable(h: HashFn)
    requires IdsDistinct(h)
    ensures
      var reg := Run(h, EMPTY, Opening(h) + Middle(h) + Ending(h));
      var b := Second(h).swapId;
      b in reg.swaps && !Mixed(reg.swaps[b]) && b in FullPass(h, reg, 12).swaps && Mixed(FullPass(h, reg, 12).swaps[b])
  {
    RunReaches(h);
    var reg := Two(h, FirstClaimed(h), SecondRefunded(h));
    FindTwo(h, FirstClaimed(h), SecondRefunded(h));
    SharedLegMixes(h, reg, First(h).swapId, Second(h).swapId, 12);
  }
}
