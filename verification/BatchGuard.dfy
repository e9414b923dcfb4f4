/** The batch cap and quorum guard. */
module BatchGuard {
  import opened Wrappers
  import opened Text
  import opened ArbiterVotes

  datatype Snapshot = Snapshot(serviceHash: string, status: string, amountMotes: int)

  /** A rejection's code with its service_hash and detail; the message text is not modelled. */
  datatype Rejection =
    | UnknownAction
    | EmptyBatch
    | BatchTooLarge
    | ArbiterListMismatch
    | DuplicateServiceHash(serviceHash: string)
    | EscrowNotFound(serviceHash: string)
    | EscrowNotPending(serviceHash: string, actualStatus: string)
    | QuorumShortfall(serviceHash: string, validVotes: int, required: int, amountMotes: int, capMotes: int)

  datatype Decision = Decision(admit: bool, action: string, needsQuorum: bool, validVotes: int, requiredQuorum: int,
                               aboveCap: seq<string>, rejections: seq<Rejection>)

  /** What evaluate_batch is told besides the action and the hashes: `paired` says that as
      many signatures as public keys were submitted, `votes` counts the valid ones for an
      escrow. */
  datatype Context = Context(snapshots: map<string, Snapshot>, capMotes: int, registered: seq<string>, threshold: int,
                             paired: bool, votes: string -> nat, maxBatch: int)
  {
    predicate Pending(sh: string) {
      sh in snapshots && snapshots[sh].status == "pending"
    }

    /** A release whose amount exceeds the cap. */
    predicate OverCap(action: string, sh: string) {
      Pending(sh) && action == "release" && snapshots[sh].amountMotes > capMotes
    }
  }

  /** The valid cap-approval votes for an escrow among those submitted. */
  function CapVotes(verify: Verifier, pubkeys: seq<string>, signatures: seq<string>,
                    registered: seq<string>): string -> nat {
    (sh: string) => Count(verify, pubkeys, signatures, registered, Message(CapApproval("release", sh)))
  }

  function Submitted(c: Context, verify: Verifier, pubkeys: seq<string>, signatures: seq<string>): Context {
    c.(paired := |pubkeys| == |signatures|, votes := CapVotes(verify, pubkeys, signatures, c.registered))
  }

  // ----- the policy, declaratively --------------------------------------------------------------

  predicate Known(action: string) {
    action == "release" || action == "cancel"
  }

  predicate Distinct(hashes: seq<string>) {
    forall i, j | 0 <= i < j < |hashes| :: hashes[i] != hashes[j]
  }

  /** An escrow may be acted on: it is pending and, where a release exceeds the cap and
      arbiters are registered, enough of them signed for this very escrow. */
  predicate Actionable(c: Context, action: string, sh: string) {
    c.Pending(sh) && (c.OverCap(action, sh) && c.registered != [] ==> c.votes(sh) >= c.threshold)
  }

  predicate Policy(c: Context, action: string, hashes: seq<string>) {
    && Known(action)
    && hashes != [] && |hashes| <= c.maxBatch && Distinct(hashes)
    && c.paired
    && forall i | 0 <= i < |hashes| :: Actionable(c, action, hashes[i])
  }

  // ----- the rejections, in order ----------------------------------------------------------------

  function Structural(c: Context, hashes: seq<string>): seq<Rejection> {
    (if hashes == [] then [EmptyBatch] else [])
    + (if |hashes| > c.maxBatch then [BatchTooLarge] else [])
    + (if !c.paired then [ArbiterListMismatch] else [])
  }

  /** Every occurrence of a hash after its first. */
  function Dupes(hashes: seq<string>): seq<string>
    decreases |hashes|
  {
    if hashes == [] then [] else
      var n := |hashes| - 1;
      Dupes(hashes[..n]) + if hashes[n] in hashes[..n] then [hashes[n]] else []
  }

  function DupeRejections(dupes: seq<string>): seq<Rejection>
    ensures |DupeRejections(dupes)| == |dupes|
    decreases |dupes|
  {
    if dupes == [] then [] else DupeRejections(dupes[..|dupes| - 1]) + [DuplicateServiceHash(dupes[|dupes| - 1])]
  }

  function EscrowRejection(c: Context, sh: string): seq<Rejection> {
    if sh !in c.snapshots then [EscrowNotFound(sh)]
    else if c.snapshots[sh].status != "pending" then [EscrowNotPending(sh, c.snapshots[sh].status)]
    else []
  }

  function EscrowRejections(c: Context, hashes: seq<string>): seq<Rejection>
    decreases |hashes|
  {
    if hashes == [] then [] else
      EscrowRejections(c, hashes[..|hashes| - 1]) + EscrowRejection(c, hashes[|hashes| - 1])
  }

  function AboveCap(c: Context, action: string, hashes: seq<string>): (r: seq<string>)
    ensures forall sh | sh in r :: c.OverCap(action, sh)
    decreases |hashes|
  {
    if hashes == [] then [] else
      var sh := hashes[|hashes| - 1];
      AboveCap(c, action, hashes[..|hashes| - 1]) + if c.OverCap(action, sh) then [sh] else []
  }

  function Shortfall(c: Context, sh: string): seq<Rejection>
    requires sh in c.snapshots
  {
    if c.votes(sh) < c.threshold
    then [QuorumShortfall(sh, c.votes(sh), c.threshold, c.snapshots[sh].amountMotes, c.capMotes)] else []
  }

  function Shortfalls(c: Context, above: seq<string>): seq<Rejection>
    requires forall sh | sh in above :: sh in c.snapshots
    decreases |above|
  {
    if above == [] then [] else
      Shortfalls(c, above[..|above| - 1]) + Shortfall(c, above[|above| - 1])
  }

  predicate NeedsQuorum(c: Context, action: string, hashes: seq<string>) {
    AboveCap(c, action, hashes) != [] && c.registered != []
  }

  function Rejections(c: Context, action: string, hashes: seq<string>): seq<Rejection> {
    Structural(c, hashes) + DupeRejections(Dupes(hashes)) + EscrowRejections(c, hashes)
    + if NeedsQuorum(c, action, hashes) then Shortfalls(c, AboveCap(c, action, hashes)) else []
  }

  /** The tightest of the counts. */
  ghost predicate IsLeastVotes(c: Context, above: seq<string>, n: int) {
    (forall i | 0 <= i < |above| :: n <= c.votes(above[i])) && exists i | 0 <= i < |above| :: n == c.votes(above[i])
  }

  function Least(c: Context, above: seq<string>): Option<int>
    decreases |above|
  {
    if above == [] then None else
      var rest, n := Least(c, above[..|above| - 1]), c.votes(above[|above| - 1]);
      if rest.None? || n < rest.value then Some(n) else rest
  }

  lemma {:induction false} LeastIsLeast(c: Context, above: seq<string>)
    requires above != []
    ensures Least(c, above).Some? && IsLeastVotes(c, above, Least(c, above).value)
    decreases |above|
  {
    var n := |above| - 1;
    if n > 0 {
      LeastIsLeast(c, above[..n]);
      var i :| 0 <= i < n && Least(c, above[..n]).value == c.votes(above[..n][i]);
      assert above[i] == above[..n][i];
      assert forall k | 0 <= k < n :: above[k] == above[..n][k];
    } else {
      assert Least(c, above[..n]) == None;
    }
  }

  // ----- the evaluation ---------------------------------------------------------------------------

  method EvaluateBatch(c: Context, rawAction: string, hashes: seq<string>) returns (d: Decision)
    ensures d.action == Lower(rawAction) && d.requiredQuorum == c.threshold
    ensures d.admit <==> Policy(c, d.action, hashes)
    ensures !Known(d.action) ==> d == Decision(false, d.action, false, 0, c.threshold, [], [UnknownAction])
    ensures Known(d.action) ==>
              && d.rejections == Rejections(c, d.action, hashes)
              && d.aboveCap == AboveCap(c, d.action, hashes)
              && d.needsQuorum == NeedsQuorum(c, d.action, hashes)
              && if d.needsQuorum then IsLeastVotes(c, d.aboveCap, d.validVotes) else d.validVotes == 0
  {
    var action := Lower(rawAction);
    if !Known(action) {
      return Decision(false, action, false, 0, c.threshold, [], [UnknownAction]);
    }
    var rejections := CheckStructure(c, hashes);
    var dupes := CheckDuplicates(hashes);
    rejections := rejections + dupes;
    var escrows, above := CheckEscrows(c, action, hashes);
    rejections := rejections + escrows;
    var needsQuorum := above != [] && action == "release" && c.registered != [];
    var validVotes := 0;
    AboveCapRelease(c, action, hashes);
    if needsQuorum {
      var shortfalls;
      shortfalls, validVotes := CheckQuorum(c, above);
      rejections := rejections + shortfalls;
    }
    AdmitsExactlyPolicy(c, action, hashes);
    assert needsQuorum || rejections == Rejections(c, action, hashes);
    d := Decision(rejections == [], action, needsQuorum, validVotes, c.threshold, above, rejections);
  }

  method CheckStructure(c: Context, hashes: seq<string>) returns (rejections: seq<Rejection>)
    ensures rejections == Structural(c, hashes)
  {
    rejections := [];
    if hashes == [] {
      rejections := rejections + [EmptyBatch];
    }
    if |hashes| > c.maxBatch {
      rejections := rejections + [BatchTooLarge];
    }
    if !c.paired {
      rejections := rejections + [ArbiterListMismatch];
    }
  }

  method CheckDuplicates(hashes: seq<string>) returns (rejections: seq<Rejection>)
    ensures rejections == DupeRejections(Dupes(hashes))
  {
    var seen: set<string> := {};
    var dupes := [];
    for k := 0 to |hashes|
      invariant forall x :: x in seen <==> x in hashes[..k]
      invariant dupes == Dupes(hashes[..k])
    {
      assert hashes[..k + 1][..k] == hashes[..k] && hashes[..k + 1] == hashes[..k] + [hashes[k]];
      if hashes[k] in seen {
        dupes := dupes + [hashes[k]];
      } else {
        seen := seen + {hashes[k]};
      }
    }
    assert hashes[..|hashes|] == hashes;
    rejections := [];
    for k := 0 to |dupes|
      invariant rejections == DupeRejections(dupes[..k])
    {
      assert dupes[..k + 1][..k] == dupes[..k];
      rejections := rejections + [DuplicateServiceHash(dupes[k])];
    }
    assert dupes[..|dupes|] == dupes;
  }

  method CheckEscrows(c: Context, action: string, hashes: seq<string>)
    returns (rejections: seq<Rejection>, above: seq<string>)
    ensures rejections == EscrowRejections(c, hashes) && above == AboveCap(c, action, hashes)
  {
    rejections, above := [], [];
    for k := 0 to |hashes|
      invariant rejections == EscrowRejections(c, hashes[..k]) && above == AboveCap(c, action, hashes[..k])
    {
      var sh := hashes[k];
      assert hashes[..k + 1][..k] == hashes[..k];
      if sh !in c.snapshots {
        rejections := rejections + [EscrowNotFound(sh)];
        continue;
      }
      var snap := c.snapshots[sh];
      if snap.status != "pending" {
        rejections := rejections + [EscrowNotPending(sh, snap.status)];
        continue;
      }
      if action == "release" && snap.amountMotes > c.capMotes {
        above := above + [sh];
      }
    }
    assert hashes[..|hashes|] == hashes;
  }

  method CheckQuorum(c: Context, above: seq<string>) returns (rejections: seq<Rejection>, least: int)
    requires above != [] && forall sh | sh in above :: sh in c.snapshots
    ensures rejections == Shortfalls(c, above) && IsLeastVotes(c, above, least)
  {
    rejections := [];
    var minValid: Option<int> := None;
    for k := 0 to |above|
      invariant rejections == Shortfalls(c, above[..k]) && minValid == Least(c, above[..k])
    {
      var sh := above[k];
      assert above[..k + 1][..k] == above[..k];
      var n := c.votes(sh);
      if minValid == None || n < minValid.value {
        minValid := Some(n);
      }
      if n < c.threshold {
        rejections := rejections + [QuorumShortfall(sh, n, c.threshold, c.snapshots[sh].amountMotes, c.capMotes)];
      }
    }
    assert above[..|above|] == above;
    LeastIsLeast(c, above);
    least := minValid.value;
  }

  lemma AboveCapRelease(c: Context, action: string, hashes: seq<string>)
    ensures AboveCap(c, action, hashes) != [] ==> action == "release"
  {
    var above := AboveCap(c, action, hashes);
    assert above != [] ==> above[0] in above;
  }

  // ----- no rejection means the policy holds ----------------------------------------------------------

  lemma DistinctSnoc(hashes: seq<string>, last: string)
    ensures Distinct(hashes + [last]) <==> Distinct(hashes) && last !in hashes
  {
    var all := hashes + [last];
    assert all[|hashes|] == last && forall i | 0 <= i < |hashes| :: all[i] == hashes[i];
    if last in hashes {
      var i :| 0 <= i < |hashes| && hashes[i] == last;
      assert all[i] == all[|hashes|];
    }
  }

  lemma {:induction false} NoDupes(hashes: seq<string>)
    ensures Dupes(hashes) == [] <==> Distinct(hashes)
    decreases |hashes|
  {
    if hashes != [] {
      var n := |hashes| - 1;
      NoDupes(hashes[..n]);
      DistinctSnoc(hashes[..n], hashes[n]);
      assert hashes == hashes[..n] + [hashes[n]];
    }
  }

  lemma {:induction false} NoEscrowRejections(c: Context, hashes: seq<string>)
    ensures EscrowRejections(c, hashes) == [] <==> forall i | 0 <= i < |hashes| :: c.Pending(hashes[i])
    decreases |hashes|
  {
    if hashes != [] {
      NoEscrowRejections(c, hashes[..|hashes| - 1]);
    }
  }

  lemma {:induction false} AboveCapMembers(c: Context, action: string, hashes: seq<string>, sh: string)
    ensures sh in AboveCap(c, action, hashes) <==> sh in hashes && c.OverCap(action, sh)
    decreases |hashes|
  {
    if hashes != [] {
      var n := |hashes| - 1;
      AboveCapMembers(c, action, hashes[..n], sh);
      assert hashes == hashes[..n] + [hashes[n]];
    }
  }

  lemma {:induction false} NoShortfalls(c: Context, above: seq<string>)
    requires forall sh | sh in above :: sh in c.snapshots
    ensures Shortfalls(c, above) == [] <==> forall i | 0 <= i < |above| :: c.votes(above[i]) >= c.threshold
    decreases |above|
  {
    if above != [] {
      NoShortfalls(c, above[..|above| - 1]);
    }
  }

  /** The votes part alone: no shortfall exactly when every over-cap escrow has its quorum. */
  lemma QuorumHolds(c: Context, action: string, hashes: seq<string>)
    ensures (NeedsQuorum(c, action, hashes) ==> Shortfalls(c, AboveCap(c, action, hashes)) == [])
            <==> forall i | 0 <= i < |hashes| ::
                   c.OverCap(action, hashes[i]) && c.registered != [] ==> c.votes(hashes[i]) >= c.threshold
  {
    var above := AboveCap(c, action, hashes);
    NoShortfalls(c, above);
    forall sh
      ensures sh in above <==> sh in hashes && c.OverCap(action, sh)
    {
      AboveCapMembers(c, action, hashes, sh);
    }
    assert forall i | 0 <= i < |hashes| && c.OverCap(action, hashes[i]) :: hashes[i] in above;
    assert forall i | 0 <= i < |above| :: above[i] in hashes && c.OverCap(action, above[i]);
    if c.registered != [] && forall i | 0 <= i < |above| :: c.votes(above[i]) >= c.threshold {
      forall i | 0 <= i < |hashes| && c.OverCap(action, hashes[i])
        ensures c.votes(hashes[i]) >= c.threshold
      {
        var j :| 0 <= j < |above| && above[j] == hashes[i];
      }
    }
    if forall i | 0 <= i < |hashes| :: c.OverCap(action, hashes[i]) && c.registered != []
          ==> c.votes(hashes[i]) >= c.threshold {
      forall i | 0 <= i < |above| && c.registered != []
        ensures c.votes(above[i]) >= c.threshold
      {
        var j :| 0 <= j < |hashes| && hashes[j] == above[i];
      }
    }
  }

  lemma AdmitsExactlyPolicy(c: Context, action: string, hashes: seq<string>)
    requires Known(action)
    ensures Rejections(c, action, hashes) == [] <==> Policy(c, action, hashes)
  {
    NoDupes(hashes);
    NoEscrowRejections(c, hashes);
    QuorumHolds(c, action, hashes);
  }

  /** A batch is admitted exactly when it is within bounds, repeats nothing, and each of
      its escrows would be admitted alone with the same votes. */
  lemma BatchIsItsSingletons(c: Context, action: string, hashes: seq<string>)
    ensures Policy(c, action, hashes)
            <==> hashes != [] && |hashes| <= c.maxBatch && Distinct(hashes)
                 && forall i | 0 <= i < |hashes| :: Policy(c, action, [hashes[i]])
  {
    assert forall i | 0 <= i < |hashes| :: Policy(c, action, [hashes[i]]) ==> Actionable(c, action, [hashes[i]][0]);
    if hashes != [] {
      assert Policy(c, action, [hashes[0]]) ==> Known(action) && c.paired;
    }
  }

  /** Submitting more votes never turns an admitted batch into a refused one. */
  lemma MoreVotesKeepAdmission(c: Context, verify: Verifier, pks: seq<string>, sigs: seq<string>,
                               pks': seq<string>, sigs': seq<string>, action: string, hashes: seq<string>)
    requires |pks'| == |sigs'| && forall v | v in Zip(pks, sigs) :: v in Zip(pks', sigs')
    requires Policy(Submitted(c, verify, pks, sigs), action, hashes)
    ensures Policy(Submitted(c, verify, pks', sigs'), action, hashes)
  {
    var v, v' := CapVotes(verify, pks, sigs, c.registered), CapVotes(verify, pks', sigs', c.registered);
    forall sh
      ensures v(sh) <= v'(sh)
    {
      CountMonotone(verify, Zip(pks, sigs), Zip(pks', sigs'), c.registered, Message(CapApproval("release", sh)));
    }
    HigherCountsKeepAdmission(Submitted(c, verify, pks, sigs), v', action, hashes);
  }

  lemma HigherCountsKeepAdmission(c: Context, votes: string -> nat, action: string, hashes: seq<string>)
    requires Policy(c, action, hashes) && forall sh :: c.votes(sh) <= votes(sh)
    ensures Policy(c.(votes := votes), action, hashes)
  {
    assert forall i | 0 <= i < |hashes| :: Actionable(c, action, hashes[i]);
  }
}
