/** What a batch's report says: which rejections it lists, for what, and in which order. */
module BatchReport {
  import opened Wrappers
  import opened Text
  import opened Decimal
  import opened Hex
  import opened ArbiterVotes
  import opened BatchGuard

  /** A pending escrow whose release needs arbiters. */
  predicate NeedsVotes(c: Context, action: string, sh: string) {
    && action == "release" && c.registered != []
    && sh in c.snapshots && c.snapshots[sh].status == "pending" && c.snapshots[sh].amountMotes > c.capMotes
  }

  /** The condition each rejection reports, with what it carries. */
  ghost predicate Reported(c: Context, action: string, hashes: seq<string>, r: Rejection) {
    match r
    case UnknownAction => false
    case EmptyBatch => hashes == []
    case BatchTooLarge => |hashes| > c.maxBatch
    case ArbiterListMismatch => !c.paired
    case DuplicateServiceHash(sh) => exists i, j | 0 <= i < j < |hashes| :: hashes[i] == sh && hashes[j] == sh
    case EscrowNotFound(sh) => sh in hashes && sh !in c.snapshots
    case EscrowNotPending(sh, status) =>
      sh in hashes && sh in c.snapshots && c.snapshots[sh].status == status && status != "pending"
    case QuorumShortfall(sh, votes, required, amount, cap) =>
      && sh in hashes && NeedsVotes(c, action, sh) && c.votes(sh) < c.threshold
      && votes == c.votes(sh) && required == c.threshold
      && amount == c.snapshots[sh].amountMotes && cap == c.capMotes
  }

  /** The order of the report. */
  function Rank(r: Rejection): nat {
    match r
    case UnknownAction => 0
    case EmptyBatch => 1
    case BatchTooLarge => 2
    case ArbiterListMismatch => 3
    case DuplicateServiceHash(_) => 4
    case EscrowNotFound(_) => 5
    case EscrowNotPending(_, _) => 5
    case QuorumShortfall(_, _, _, _, _) => 6
  }

  function Times<T(==)>(x: T, s: seq<T>): nat {
    multiset(s)[x]
  }

  lemma TimesSnoc<T>(x: T, s: seq<T>)
    requires s != []
    ensures Times(x, s) == Times(x, s[..|s| - 1]) + if s[|s| - 1] == x then 1 else 0
  {
    assert s == s[..|s| - 1] + [s[|s| - 1]];
  }

  lemma TimesOfSum<T>(x: T, s: seq<T>, t: seq<T>)
    ensures Times(x, s + t) == Times(x, s) + Times(x, t)
  {
  }

  // ----- duplicates --------------------------------------------------------------------------------

  lemma {:induction false} DupeTimes(hashes: seq<string>, sh: string)
    ensures Times(sh, Dupes(hashes)) == if sh in hashes then Times(sh, hashes) - 1 else 0
    decreases |hashes|
  {
    if hashes != [] {
      var n := |hashes| - 1;
      DupeTimes(hashes[..n], sh);
      TimesSnoc(sh, hashes);
      assert hashes == hashes[..n] + [hashes[n]];
      if hashes[n] in hashes[..n] {
        TimesOfSum(sh, Dupes(hashes[..n]), [hashes[n]]);
      }
    }
  }

  lemma {:induction false} DupeRejectionsAt(dupes: seq<string>, i: nat)
    requires i < |dupes|
    ensures DupeRejections(dupes)[i] == DuplicateServiceHash(dupes[i])
    decreases |dupes|
  {
    if i < |dupes| - 1 {
      DupeRejectionsAt(dupes[..|dupes| - 1], i);
    }
  }

  lemma {:induction false} Twice(hashes: seq<string>, sh: string)
    ensures Times(sh, hashes) > 1 <==> exists i, j | 0 <= i < j < |hashes| :: hashes[i] == sh && hashes[j] == sh
    decreases |hashes|
  {
    if hashes != [] {
      var n := |hashes| - 1;
      Twice(hashes[..n], sh);
      TimesSnoc(sh, hashes);
      if i, j :| 0 <= i < j < n && hashes[i] == sh && hashes[j] == sh {
        assert hashes[..n][i] == sh && hashes[..n][j] == sh;
      }
      if hashes[n] == sh && sh in hashes[..n] {
        var i :| 0 <= i < n && hashes[..n][i] == sh;
        assert hashes[i] == sh && hashes[n] == sh;
      }
    }
  }

  lemma DupeRejectionsTimes(dupes: seq<string>, r: Rejection)
    ensures Times(r, DupeRejections(dupes)) == if r.DuplicateServiceHash? then Times(r.serviceHash, dupes) else 0
    decreases |dupes|
  {
    if dupes != [] {
      var n := |dupes| - 1;
      DupeRejectionsTimes(dupes[..n], r);
      TimesOfSum(r, DupeRejections(dupes[..n]), [DuplicateServiceHash(dupes[n])]);
      if r.DuplicateServiceHash? {
        TimesSnoc(r.serviceHash, dupes);
      }
    }
  }

  // ----- escrows -----------------------------------------------------------------------------------

  /** Unknown and settled escrows. */
  predicate EscrowKind(r: Rejection) {
    r.EscrowNotFound? || r.EscrowNotPending?
  }

  predicate Refused(c: Context, sh: string, r: Rejection) {
    match r
    case EscrowNotFound(x) => x == sh && sh !in c.snapshots
    case EscrowNotPending(x, status) =>
      x == sh && sh in c.snapshots && c.snapshots[sh].status == status && status != "pending"
    case _ => false
  }

  lemma {:induction false} EscrowTimes(c: Context, hashes: seq<string>, r: Rejection)
    ensures Times(r, EscrowRejections(c, hashes))
            == if EscrowKind(r) && Refused(c, r.serviceHash, r) then Times(r.serviceHash, hashes) else 0
    decreases |hashes|
  {
    if hashes != [] {
      var n := |hashes| - 1;
      EscrowTimes(c, hashes[..n], r);
      TimesOfSum(r, EscrowRejections(c, hashes[..n]), EscrowRejection(c, hashes[n]));
      if EscrowKind(r) {
        TimesSnoc(r.serviceHash, hashes);
      }
    }
  }

  // ----- votes -------------------------------------------------------------------------------------

  predicate TooFew(c: Context, sh: string, r: Rejection) {
    && r.QuorumShortfall? && sh in c.snapshots && c.votes(sh) < c.threshold
    && r == QuorumShortfall(sh, c.votes(sh), c.threshold, c.snapshots[sh].amountMotes, c.capMotes)
  }

  lemma {:induction false} ShortfallTimes(c: Context, above: seq<string>, r: Rejection)
    requires forall sh | sh in above :: sh in c.snapshots
    ensures Times(r, Shortfalls(c, above))
            == if r.QuorumShortfall? && TooFew(c, r.serviceHash, r) then Times(r.serviceHash, above) else 0
    decreases |above|
  {
    if above != [] {
      var n := |above| - 1;
      ShortfallTimes(c, above[..n], r);
      TimesOfSum(r, Shortfalls(c, above[..n]), Shortfall(c, above[n]));
      if r.QuorumShortfall? {
        TimesSnoc(r.serviceHash, above);
      }
    }
  }

  /** The escrows listed as over the cap: the pending ones of a release whose amount exceeds
      it, as often as the batch names them. */
  lemma {:induction false} AboveCapExactly(c: Context, action: string, hashes: seq<string>, sh: string)
    ensures Times(sh, AboveCap(c, action, hashes))
            == if action == "release" && sh in c.snapshots && c.snapshots[sh].status == "pending"
                  && c.snapshots[sh].amountMotes > c.capMotes then Times(sh, hashes) else 0
    decreases |hashes|
  {
    if hashes != [] {
      var n := |hashes| - 1;
      AboveCapExactly(c, action, hashes[..n], sh);
      TimesSnoc(sh, hashes);
      TimesOfSum(sh, AboveCap(c, action, hashes[..n]), if c.OverCap(action, hashes[n]) then [hashes[n]] else []);
    }
  }

  // ----- the whole report --------------------------------------------------------------------------

  /** How often a rejection is due. */
  ghost function Due(c: Context, action: string, hashes: seq<string>, r: Rejection): int {
    if !Reported(c, action, hashes, r) then 0
    else match r
      case DuplicateServiceHash(sh) => Times(sh, hashes) - 1
      case EscrowNotFound(sh) => Times(sh, hashes)
      case EscrowNotPending(sh, _) => Times(sh, hashes)
      case QuorumShortfall(sh, _, _, _, _) => Times(sh, hashes)
      case _ => 1
  }

  lemma NeedsQuorumFor(c: Context, action: string, hashes: seq<string>, sh: string)
    ensures sh in hashes && NeedsVotes(c, action, sh) ==> NeedsQuorum(c, action, hashes)
    ensures NeedsQuorum(c, action, hashes) && sh in AboveCap(c, action, hashes)
            <==> sh in hashes && NeedsVotes(c, action, sh)
  {
    AboveCapMembers(c, action, hashes, sh);
  }

  function Quorum(c: Context, action: string, hashes: seq<string>): seq<Rejection> {
    if NeedsQuorum(c, action, hashes) then Shortfalls(c, AboveCap(c, action, hashes)) else []
  }

  lemma QuorumTimes(c: Context, action: string, hashes: seq<string>, r: Rejection)
    ensures Times(r, Quorum(c, action, hashes)) == if r.QuorumShortfall? then Due(c, action, hashes, r) else 0
  {
    ShortfallTimes(c, AboveCap(c, action, hashes), r);
    if r.QuorumShortfall? {
      NeedsQuorumFor(c, action, hashes, r.serviceHash);
      AboveCapExactly(c, action, hashes, r.serviceHash);
    }
  }

  lemma DupesDue(c: Context, action: string, hashes: seq<string>, r: Rejection)
    ensures Times(r, DupeRejections(Dupes(hashes)))
            == if r.DuplicateServiceHash? then Due(c, action, hashes, r) else 0
  {
    DupeRejectionsTimes(Dupes(hashes), r);
    if r.DuplicateServiceHash? {
      DupeTimes(hashes, r.serviceHash);
      Twice(hashes, r.serviceHash);
    }
  }

  lemma EscrowsDue(c: Context, action: string, hashes: seq<string>, r: Rejection)
    ensures Times(r, EscrowRejections(c, hashes)) == if EscrowKind(r) then Due(c, action, hashes, r) else 0
  {
    EscrowTimes(c, hashes, r);
  }

  predicate StructuralKind(r: Rejection) {
    r.EmptyBatch? || r.BatchTooLarge? || r.ArbiterListMismatch?
  }

  lemma StructuralTimes(c: Context, action: string, hashes: seq<string>, r: Rejection)
    ensures Times(r, Structural(c, hashes)) == if StructuralKind(r) then Due(c, action, hashes, r) else 0
  {
  }

  lemma TimesOfFour<T>(x: T, a: seq<T>, b: seq<T>, c: seq<T>, d: seq<T>)
    ensures Times(x, a + b + c + d) == Times(x, a) + Times(x, b) + Times(x, c) + Times(x, d)
  {
  }

  /** The report lists every rejection that is due, as often as it is due, and nothing else. */
  lemma ReportExactly(c: Context, action: string, hashes: seq<string>, r: Rejection)
    ensures Times(r, Rejections(c, action, hashes)) == Due(c, action, hashes, r)
  {
    TimesOfFour(r, Structural(c, hashes), DupeRejections(Dupes(hashes)), EscrowRejections(c, hashes),
                Quorum(c, action, hashes));
    StructuralTimes(c, action, hashes, r);
    DupesDue(c, action, hashes, r);
    EscrowsDue(c, action, hashes, r);
    QuorumTimes(c, action, hashes, r);
  }

  ghost predicate Ranked(s: seq<Rejection>) {
    forall i, j | 0 <= i < j < |s| :: Rank(s[i]) <= Rank(s[j])
  }

  ghost predicate AllRanked(s: seq<Rejection>, low: nat, high: nat) {
    forall i | 0 <= i < |s| :: low <= Rank(s[i]) <= high
  }

  lemma RankedParts(s: seq<Rejection>, t: seq<Rejection>, low: nat, mid: nat, high: nat)
    requires Ranked(s) && AllRanked(s, low, mid) && AllRanked(t, high, high) && low <= mid <= high
    ensures Ranked(s + t) && AllRanked(s + t, low, high)
  {
  }

  lemma RankedMembers(s: seq<Rejection>, rank: nat)
    requires forall r | Rank(r) != rank :: Times(r, s) == 0
    ensures AllRanked(s, rank, rank)
  {
    forall i | 0 <= i < |s|
      ensures Rank(s[i]) == rank
    {
      assert Times(s[i], s) > 0;
    }
  }

  lemma DupesRanked(c: Context, action: string, hashes: seq<string>)
    ensures AllRanked(DupeRejections(Dupes(hashes)), 4, 4)
  {
    forall r | Rank(r) != 4
      ensures Times(r, DupeRejections(Dupes(hashes))) == 0
    {
      DupesDue(c, action, hashes, r);
    }
    RankedMembers(DupeRejections(Dupes(hashes)), 4);
  }

  lemma EscrowsRanked(c: Context, action: string, hashes: seq<string>)
    ensures AllRanked(EscrowRejections(c, hashes), 5, 5)
  {
    forall r | Rank(r) != 5
      ensures Times(r, EscrowRejections(c, hashes)) == 0
    {
      EscrowsDue(c, action, hashes, r);
    }
    RankedMembers(EscrowRejections(c, hashes), 5);
  }

  lemma QuorumRanked(c: Context, action: string, hashes: seq<string>)
    ensures AllRanked(Quorum(c, action, hashes), 6, 6)
  {
    forall r | Rank(r) != 6
      ensures Times(r, Quorum(c, action, hashes)) == 0
    {
      QuorumTimes(c, action, hashes, r);
    }
    RankedMembers(Quorum(c, action, hashes), 6);
  }

  lemma StructuralRanked(c: Context, hashes: seq<string>)
    ensures Ranked(Structural(c, hashes)) && AllRanked(Structural(c, hashes), 1, 3)
  {
  }

  lemma RankedFour(a: seq<Rejection>, b: seq<Rejection>, e: seq<Rejection>, q: seq<Rejection>)
    requires Ranked(a) && AllRanked(a, 1, 3) && AllRanked(b, 4, 4) && AllRanked(e, 5, 5) && AllRanked(q, 6, 6)
    ensures Ranked(a + b + e + q)
  {
    RankedParts(a, b, 1, 3, 4);
    RankedParts(a + b, e, 1, 4, 5);
    RankedParts(a + b + e, q, 1, 5, 6);
  }

  lemma ReportParts(c: Context, action: string, hashes: seq<string>)
    ensures Rejections(c, action, hashes)
            == Structural(c, hashes) + DupeRejections(Dupes(hashes)) + EscrowRejections(c, hashes)
               + Quorum(c, action, hashes)
  {
  }

  /** Size first, then duplicates, then escrows, then votes. */
  lemma ReportOrder(c: Context, action: string, hashes: seq<string>)
    ensures Ranked(Rejections(c, action, hashes))
  {
    StructuralRanked(c, hashes);
    DupesRanked(c, action, hashes);
    EscrowsRanked(c, action, hashes);
    QuorumRanked(c, action, hashes);
    ReportParts(c, action, hashes);
    RankedFour(Structural(c, hashes), DupeRejections(Dupes(hashes)), EscrowRejections(c, hashes),
               Quorum(c, action, hashes));
  }

  /** Each kind comes in the order of the batch: what a longer batch adds comes last. */
  lemma BatchOrder(c: Context, action: string, hashes: seq<string>, k: nat)
    requires k <= |hashes|
    ensures Dupes(hashes[..k]) <= Dupes(hashes)
    ensures EscrowRejections(c, hashes[..k]) <= EscrowRejections(c, hashes)
    ensures AboveCap(c, action, hashes[..k]) <= AboveCap(c, action, hashes)
    decreases |hashes|
  {
    if k < |hashes| {
      var n := |hashes| - 1;
      BatchOrder(c, action, hashes[..n], k);
      assert hashes[..n][..k] == hashes[..k];
    } else {
      assert hashes[..k] == hashes;
    }
  }

  lemma DistinctExactly(hashes: seq<string>)
    ensures Distinct(hashes) <==> forall sh | sh in hashes :: Times(sh, hashes) == 1
  {
    forall sh | sh in hashes
      ensures Times(sh, hashes) > 1
              <==> exists i, j | 0 <= i < j < |hashes| :: hashes[i] == sh && hashes[j] == sh
    {
      Twice(hashes, sh);
    }
    if !Distinct(hashes) {
      var i, j :| 0 <= i < j < |hashes| && hashes[i] == hashes[j];
      assert hashes[j] == hashes[i] && hashes[i] in hashes;
    }
  }

  /** Admission in terms of the snapshots, and the two actions there are. */
  lemma PolicyExactly(c: Context, action: string, hashes: seq<string>)
    ensures Policy(c, action, hashes)
            <==> && (action == "release" || action == "cancel")
                 && 0 < |hashes| <= c.maxBatch && c.paired
                 && (forall sh | sh in hashes :: Times(sh, hashes) == 1)
                 && forall sh | sh in hashes ::
                      && sh in c.snapshots && c.snapshots[sh].status == "pending"
                      && (action == "cancel" || c.registered == []
                          || c.snapshots[sh].amountMotes <= c.capMotes || c.votes(sh) >= c.threshold)
  {
    assert Known(action) <==> action == "release" || action == "cancel";
    DistinctExactly(hashes);
    assert forall i | 0 <= i < |hashes| :: hashes[i] in hashes;
  }
}
