/** Arbiter votes: the messages an arbiter signs and how submitted votes are counted. */
module ArbiterVotes {
  import opened Wrappers
  import opened Text
  import opened Decimal
  import opened Hex
  import opened Signatures

  // ----- messages ---------------------------------------------------------------------------

  datatype Ballot =
    | Resolve(serviceHash: string, inFavorOf: string)
    | CapApproval(action: string, serviceHash: string)
    | InsuranceClaim(escrowId: string, claimant: string, amount: int)

  function Message(b: Ballot): string {
    match b
    case Resolve(serviceHash, inFavorOf) => "resolve:" + serviceHash + ":" + inFavorOf
    case CapApproval(action, serviceHash) => action + ":" + serviceHash + ":cap_approval"
    case InsuranceClaim(escrowId, claimant, amount) => "claim:" + escrowId + ":" + claimant + ":" + IntStr(amount)
  }

  /** Cap approvals exist for these two actions. */
  predicate Documented(b: Ballot) {
    b.CapApproval? ==> b.action == "release" || b.action == "reveal_swap"
  }

  /** The field the message would not keep apart if it held a colon. */
  predicate Separable(b: Ballot) {
    match b
    case Resolve(_, inFavorOf) => Lacks(inFavorOf, ':')
    case CapApproval(_, _) => Documented(b)
    case InsuranceClaim(_, claimant, _) => Lacks(claimant, ':')
  }

  /** How long the part behind the movable colon is. */
  function Cut(b: Ballot): nat {
    match b
    case Resolve(_, inFavorOf) => |inFavorOf|
    case CapApproval(_, _) => 0
    case InsuranceClaim(_, claimant, _) => |claimant|
  }

  /** The text around the movable colon, without what surrounds it. */
  lemma ResolveBody(a: Ballot, b: Ballot)
    requires a.Resolve? && b.Resolve?
    ensures Message(a) == Message(b)
            <==> a.serviceHash + [':'] + a.inFavorOf == b.serviceHash + [':'] + b.inFavorOf
  {
    var x, y := a.serviceHash + [':'] + a.inFavorOf, b.serviceHash + [':'] + b.inFavorOf;
    assert Message(a) == "resolve:" + x && Message(b) == "resolve:" + y;
    assert ("resolve:" + x)[8..] == x && ("resolve:" + y)[8..] == y;
  }

  lemma InsuranceClaimBody(a: Ballot, b: Ballot)
    requires a.InsuranceClaim? && b.InsuranceClaim?
    ensures Message(a) == Message(b)
            <==> a.amount == b.amount && a.escrowId + [':'] + a.claimant == b.escrowId + [':'] + b.claimant
  {
    var x, y := a.escrowId + [':'] + a.claimant, b.escrowId + [':'] + b.claimant;
    assert Message(a) == "claim:" + x + [':'] + IntStr(a.amount);
    assert Message(b) == "claim:" + y + [':'] + IntStr(b.amount);
    if Message(a) == Message(b) {
      IntStrLacks(a.amount, ':');
      IntStrLacks(b.amount, ':');
      CutAtLast(':', "claim:" + x, IntStr(a.amount), "claim:" + y, IntStr(b.amount));
      IntStrInjective(a.amount, b.amount);
      assert ("claim:" + x)[6..] == x && ("claim:" + y)[6..] == y;
    }
  }

  lemma CapApprovalExact(a: Ballot, b: Ballot)
    requires a.CapApproval? && b.CapApproval? && Documented(a) && Documented(b) && Message(a) == Message(b)
    ensures a == b
  {
    var x, y := a.serviceHash + ":cap_approval", b.serviceHash + ":cap_approval";
    assert a.action + [':'] + x == Message(a) && b.action + [':'] + y == Message(b);
    CutAtFirst(':', a.action, x, b.action, y);
    assert a.serviceHash == x[..|x| - 13] == y[..|y| - 13] == b.serviceHash;
  }

  lemma KindsApart(a: Ballot, b: Ballot)
    requires Documented(a) && Documented(b) && Message(a) == Message(b)
    ensures a.Resolve? <==> b.Resolve?
    ensures a.CapApproval? <==> b.CapApproval?
  {
    assert Message(a)[2] == if a.Resolve? then 's' else if a.InsuranceClaim? then 'a'
                            else if a.action == "release" then 'l' else 'v';
    assert Message(b)[2] == if b.Resolve? then 's' else if b.InsuranceClaim? then 'a'
                            else if b.action == "release" then 'l' else 'v';
  }

  /** Two ballots with one message are of one kind, and they are the same ballot if and only
      if their verdicts, or their claimants, are equally long. */
  lemma SharedMessageExact(a: Ballot, b: Ballot)
    requires Documented(a) && Documented(b) && Message(a) == Message(b)
    ensures a == b <==> Cut(a) == Cut(b)
  {
    KindsApart(a, b);
    match a
    case Resolve(_, _) =>
      ResolveBody(a, b);
      if Cut(a) == Cut(b) {
        SplitsByLength(':', a.serviceHash, a.inFavorOf, b.serviceHash, b.inFavorOf);
      }
    case CapApproval(_, _) => CapApprovalExact(a, b);
    case InsuranceClaim(_, _, _) =>
      InsuranceClaimBody(a, b);
      if Cut(a) == Cut(b) {
        SplitsByLength(':', a.escrowId, a.claimant, b.escrowId, b.claimant);
      }
  }

  /** With a verdict and a claimant free of colons a message stands for one ballot: kind,
      escrow, verdict and amount. */
  lemma MessageExact(a: Ballot, b: Ballot)
    requires Separable(a) && Separable(b)
    ensures Message(a) == Message(b) <==> a == b
  {
    if Message(a) == Message(b) {
      KindsApart(a, b);
      match a
      case Resolve(_, _) =>
        ResolveBody(a, b);
        CutAtLast(':', a.serviceHash, a.inFavorOf, b.serviceHash, b.inFavorOf);
      case CapApproval(_, _) => CapApprovalExact(a, b);
      case InsuranceClaim(_, _, _) =>
        InsuranceClaimBody(a, b);
        CutAtLast(':', a.escrowId, a.claimant, b.escrowId, b.claimant);
    }
  }

  /** Neither of the two texts around the movable colon holds one. */
  predicate ColonFree(b: Ballot) {
    match b
    case Resolve(serviceHash, inFavorOf) => Lacks(serviceHash, ':') && Lacks(inFavorOf, ':')
    case CapApproval(_, _) => true
    case InsuranceClaim(escrowId, claimant, _) => Lacks(escrowId, ':') && Lacks(claimant, ':')
  }

  lemma ColonFreeAlone(b: Ballot, f: Ballot)
    requires Documented(b) && Documented(f) && ColonFree(b) && Message(f) == Message(b)
    ensures f == b
  {
    KindsApart(f, b);
    match b
    case Resolve(_, _) =>
      ResolveBody(f, b);
      OneSplit(':', f.serviceHash, f.inFavorOf, b.serviceHash, b.inFavorOf);
    case CapApproval(_, _) => CapApprovalExact(f, b);
    case InsuranceClaim(_, _, _) =>
      InsuranceClaimBody(f, b);
      OneSplit(':', f.escrowId, f.claimant, b.escrowId, b.claimant);
  }

  /** Another ballot with the same message, for one with a colon to spare. */
  lemma Twin(b: Ballot) returns (f: Ballot)
    requires !ColonFree(b)
    ensures f != b && Documented(f) && Message(f) == Message(b)
  {
    match b
    case Resolve(serviceHash, inFavorOf) =>
      var u, v := OtherSplit(':', serviceHash, inFavorOf);
      f := Resolve(u, v);
      ResolveBody(f, b);
    case InsuranceClaim(escrowId, claimant, amount) =>
      var u, v := OtherSplit(':', escrowId, claimant);
      f := InsuranceClaim(u, v, amount);
      InsuranceClaimBody(f, b);
  }

  /** Exactly when a ballot is the only one with its message. */
  lemma MessageIdentifies(b: Ballot)
    requires Documented(b)
    ensures (forall f: Ballot | Documented(f) && Message(f) == Message(b) :: f == b) <==> ColonFree(b)
  {
    if ColonFree(b) {
      forall f: Ballot | Documented(f) && Message(f) == Message(b)
        ensures f == b
      {
        ColonFreeAlone(b, f);
      }
    } else {
      var f := Twin(b);
    }
  }

  /** One such pair: two escrows that share a message. */
  lemma ColonShiftsMessage()
    ensures Message(Resolve("a", "b:c")) == Message(Resolve("a:b", "c"))
  {
    assert "resolve:" + "a" + ":" + "b:c" == "resolve:" + "a:b" + ":" + "c";
  }

  // ----- one vote -----------------------------------------------------------------------------

  /** Tag 01, then hex of the given number of bytes. */
  function Tagged(s: string, size: nat): (r: Option<seq<byte>>)
    ensures r.Some? ==> |r.value| == size
  {
    if !StartsWith(Lower(s), "01") then None
    else match FromHex(s[2..])
      case None => None
      case Some(raw) => if |raw| == size then Some(raw) else None
  }

  type Verifier = (Key, seq<byte>, string) -> bool

  predicate VoteOk(verify: Verifier, pubkey: string, signature: string, message: string) {
    Tagged(pubkey, 32).Some? && Tagged(signature, 64).Some?
    && verify(Tagged(pubkey, 32).value, Tagged(signature, 64).value, message)
  }

  /** Tag 01 and then hex of these bytes. */
  predicate Stands(text: string, bytes: seq<byte>) {
    |text| >= 2 && text[0] == '0' && text[1] == '1' && FromHex(text[2..]) == Some(bytes)
  }

  /** When a vote is valid, on the submitted text and the text that was signed: an ed25519 key
      of 32 bytes and its signature of 64 over the ballot, written out. */
  lemma VoteExactly(verify: Verifier, pubkey: string, signature: string, b: Ballot)
    ensures VoteOk(verify, pubkey, signature, Message(b))
            <==> exists key, sig ::
                   && Stands(pubkey, key) && |key| == 32 && Stands(signature, sig) && |sig| == 64
                   && verify(key, sig,
                             match b
                             case Resolve(escrow, verdict) => "resolve:" + escrow + ":" + verdict
                             case CapApproval(action, escrow) => action + ":" + escrow + ":cap_approval"
                             case InsuranceClaim(escrow, claimant, amount) =>
                               "claim:" + escrow + ":" + claimant + ":" + IntStr(amount))
  {
    TaggedExactly(pubkey, 32);
    TaggedExactly(signature, 64);
  }

  lemma TaggedExactly(text: string, size: nat)
    ensures forall bytes :: Tagged(text, size) == Some(bytes) <==> Stands(text, bytes) && |bytes| == size
  {
    var l := Lower(text);
    assert |l| >= 2 ==> (StartsWith(l, "01") <==> l[0] == '0' && l[1] == '1');
    assert |text| >= 2 ==> (l[0] == '0' <==> text[0] == '0') && (l[1] == '1' <==> text[1] == '1');
  }

  /** An approval to release is no approval to reveal a swap, and neither is one for another
      escrow. */
  lemma ApprovalsApart(escrow: string, other: string)
    ensures Message(CapApproval("release", escrow)) != Message(CapApproval("reveal_swap", other))
    ensures Message(CapApproval("release", escrow)) == Message(CapApproval("release", other)) <==> escrow == other
    ensures Message(CapApproval("reveal_swap", escrow)) == Message(CapApproval("reveal_swap", other))
            <==> escrow == other
  {
    MessageExact(CapApproval("release", escrow), CapApproval("reveal_swap", other));
    MessageExact(CapApproval("release", escrow), CapApproval("release", other));
    MessageExact(CapApproval("reveal_swap", escrow), CapApproval("reveal_swap", other));
  }

  /** A signature that counts for two ballots counts for one and the same, unless their
      verdicts or claimants differ in length, which takes a colon in one of them. */
  lemma VoteNotReplayed(scheme: Scheme, pubkey: string, signature: string, a: Ballot, b: Ballot)
    requires Documented(a) && Documented(b)
    requires Tagged(pubkey, 32).Some? && scheme.Binding(Tagged(pubkey, 32).value, {Message(a), Message(b)})
    requires VoteOk(scheme.verify, pubkey, signature, Message(a))
          && VoteOk(scheme.verify, pubkey, signature, Message(b))
    ensures a == b <==> Cut(a) == Cut(b)
    ensures Separable(a) && Separable(b) ==> a == b
  {
    SharedMessageExact(a, b);
    if Separable(a) && Separable(b) {
      MessageExact(a, b);
    }
  }

  // ----- counting -----------------------------------------------------------------------------

  /** The pairs zip() yields. */
  function Zip(pubkeys: seq<string>, signatures: seq<string>): (r: seq<(string, string)>)
    ensures |r| == if |pubkeys| <= |signatures| then |pubkeys| else |signatures|
    ensures forall i | 0 <= i < |r| :: r[i] == (pubkeys[i], signatures[i])
  {
    var n := if |pubkeys| <= |signatures| then |pubkeys| else |signatures|;
    seq(n, i requires 0 <= i < n => (pubkeys[i], signatures[i]))
  }

  /** Registered keys with at least one valid submitted signature. */
  function Voters(verify: Verifier, votes: seq<(string, string)>, registered: seq<string>,
                  message: string): set<string> {
    set i | 0 <= i < |votes| && votes[i].0 in registered
          && VoteOk(verify, votes[i].0, votes[i].1, message) :: votes[i].0
  }

  function Count(verify: Verifier, pubkeys: seq<string>, signatures: seq<string>, registered: seq<string>,
                 message: string): nat {
    |Voters(verify, Zip(pubkeys, signatures), registered, message)|
  }

  method CountValidVotes(verify: Verifier, pubkeys: seq<string>, signatures: seq<string>, registered: seq<string>,
                         message: string) returns (valid: nat)
    ensures valid == Count(verify, pubkeys, signatures, registered, message)
  {
    var votes := Zip(pubkeys, signatures);
    var seen: set<string> := {};
    valid := 0;
    for k := 0 to |votes|
      invariant seen == Voters(verify, votes[..k], registered, message) && valid == |seen|
    {
      var (pubkey, signature) := votes[k];
      VotersStep(verify, votes, k, registered, message);
      if pubkey in seen || pubkey !in registered {
        continue;
      }
      if !VoteOk(verify, pubkey, signature, message) {
        continue;
      }
      valid := valid + 1;
      seen := seen + {pubkey};
    }
    assert votes[..|votes|] == votes;
  }

  lemma VotersStep(verify: Verifier, votes: seq<(string, string)>, k: nat, registered: seq<string>, message: string)
    requires k < |votes|
    ensures var (pubkey, signature) := votes[k];
            Voters(verify, votes[..k + 1], registered, message)
            == Voters(verify, votes[..k], registered, message)
               + if pubkey in registered && VoteOk(verify, pubkey, signature, message) then {pubkey} else {}
  {
    var v := votes[k];
    var before := Voters(verify, votes[..k], registered, message);
    var after := Voters(verify, votes[..k + 1], registered, message);
    forall p | p in before
      ensures p in after
    {
      var i :| 0 <= i < k && votes[..k][i].0 == p && p in registered && VoteOk(verify, p, votes[..k][i].1, message);
      assert votes[..k + 1][i] == votes[..k][i];
    }
    forall p | p in after
      ensures p in before || (p == v.0 && p in registered && VoteOk(verify, p, v.1, message))
    {
      var i :| 0 <= i < k + 1 && votes[..k + 1][i].0 == p && p in registered
            && VoteOk(verify, p, votes[..k + 1][i].1, message);
      if i < k {
        assert votes[..k][i] == votes[..k + 1][i];
      }
    }
    if v.0 in registered && VoteOk(verify, v.0, v.1, message) {
      assert votes[..k + 1][k] == v;
    }
  }

  lemma SubsetCard<T>(a: set<T>, b: set<T>)
    requires a <= b
    ensures |a| <= |b|
  {
    assert b == a + (b - a);
  }

  /** More votes never lower the count, and neither their order nor repetitions matter. */
  lemma CountMonotone(verify: Verifier, a: seq<(string, string)>, b: seq<(string, string)>, registered: seq<string>,
                      message: string)
    requires forall v | v in a :: v in b
    ensures Voters(verify, a, registered, message) <= Voters(verify, b, registered, message)
    ensures |Voters(verify, a, registered, message)| <= |Voters(verify, b, registered, message)|
  {
    forall p | p in Voters(verify, a, registered, message)
      ensures p in Voters(verify, b, registered, message)
    {
      var i :| 0 <= i < |a| && a[i].0 == p && p in registered && VoteOk(verify, p, a[i].1, message);
      assert a[i] in b;
      var j :| 0 <= j < |b| && b[j] == a[i];
      assert b[j].0 in registered && VoteOk(verify, b[j].0, b[j].1, message);
    }
    SubsetCard(Voters(verify, a, registered, message), Voters(verify, b, registered, message));
  }

  lemma CountOrderIndependent(verify: Verifier, a: seq<(string, string)>, b: seq<(string, string)>,
                              registered: seq<string>, message: string)
    requires multiset(a) == multiset(b)
    ensures Voters(verify, a, registered, message) == Voters(verify, b, registered, message)
  {
    forall v
      ensures v in a <==> v in b
    {
      assert v in a <==> v in multiset(a);
      assert v in b <==> v in multiset(b);
    }
    CountMonotone(verify, a, b, registered, message);
    CountMonotone(verify, b, a, registered, message);
  }

  /** The keys behind a set of registered spellings. */
  function Keys(pubkeys: set<string>): set<Key> {
    set p | p in pubkeys && Tagged(p, 32).Some? :: Tagged(p, 32).value
  }

  /** No key is registered under two spellings (hex case, white space). */
  predicate SpelledOnce(registered: seq<string>) {
    forall i, j | 0 <= i < |registered| && 0 <= j < |registered| && Tagged(registered[i], 32).Some?
                  && Tagged(registered[i], 32) == Tagged(registered[j], 32) :: registered[i] == registered[j]
  }

  /** No two of these spellings stand for one key. */
  ghost predicate KeysApart(pubkeys: set<string>) {
    forall p, q | p in pubkeys && q in pubkeys && Tagged(p, 32) == Tagged(q, 32) :: p == q
  }

  lemma KeysWithout(pubkeys: set<string>, p: string)
    requires p in pubkeys && Tagged(p, 32).Some?
    ensures Keys(pubkeys) == Keys(pubkeys - {p}) + {Tagged(p, 32).value}
  {
    forall q | q in pubkeys && Tagged(q, 32).Some?
      ensures Tagged(q, 32).value in Keys(pubkeys - {p}) + {Tagged(p, 32).value}
    {
      assert q == p || q in pubkeys - {p};
    }
  }

  lemma {:induction false} KeysAtMost(pubkeys: set<string>)
    requires forall p | p in pubkeys :: Tagged(p, 32).Some?
    ensures |Keys(pubkeys)| <= |pubkeys|
    decreases |pubkeys|
  {
    if pubkeys == {} {
      assert Keys(pubkeys) == {};
    } else {
      var p :| p in pubkeys;
      KeysWithout(pubkeys, p);
      KeysAtMost(pubkeys - {p});
    }
  }

  lemma {:induction false} KeysCount(pubkeys: set<string>)
    requires KeysApart(pubkeys) && forall p | p in pubkeys :: Tagged(p, 32).Some?
    ensures |Keys(pubkeys)| == |pubkeys|
    decreases |pubkeys|
  {
    if pubkeys == {} {
      assert Keys(pubkeys) == {};
    } else {
      var p :| p in pubkeys;
      KeysWithout(pubkeys, p);
      KeysCount(pubkeys - {p});
      assert Tagged(p, 32).value !in Keys(pubkeys - {p});
    }
  }

  lemma KeysExactly(pubkeys: set<string>)
    requires forall p | p in pubkeys :: Tagged(p, 32).Some?
    ensures |Keys(pubkeys)| == |pubkeys| <==> KeysApart(pubkeys)
  {
    if KeysApart(pubkeys) {
      KeysCount(pubkeys);
    } else {
      var p, q :| p in pubkeys && q in pubkeys && Tagged(p, 32) == Tagged(q, 32) && p != q;
      KeysWithout(pubkeys, p);
      KeysAtMost(pubkeys - {p});
      assert q in pubkeys - {p};
      assert Keys(pubkeys) == Keys(pubkeys - {p});
    }
  }

  /** The count is of distinct spellings. It is of distinct keys if and only if no two of
      the voters spell one key. */
  lemma CountsKeysExactly(verify: Verifier, pubkeys: seq<string>, signatures: seq<string>, registered: seq<string>,
                          message: string)
    ensures
      var voters := Voters(verify, Zip(pubkeys, signatures), registered, message);
      Count(verify, pubkeys, signatures, registered, message) == |Keys(voters)| <==> KeysApart(voters)
  {
    KeysExactly(Voters(verify, Zip(pubkeys, signatures), registered, message));
  }

  /** So it is where no key is registered under two spellings. */
  lemma CountsKeys(verify: Verifier, pubkeys: seq<string>, signatures: seq<string>, registered: seq<string>,
                   message: string)
    requires SpelledOnce(registered)
    ensures Count(verify, pubkeys, signatures, registered, message)
            == |Keys(Voters(verify, Zip(pubkeys, signatures), registered, message))|
  {
    CountsKeysExactly(verify, pubkeys, signatures, registered, message);
  }

  /** Otherwise one signature submitted under both spellings counts twice. */
  lemma TwoSpellingsTwoVotes(verify: Verifier, p: string, q: string, signature: string, registered: seq<string>,
                             message: string)
    requires p != q && p in registered && q in registered && Tagged(p, 32) == Tagged(q, 32)
    requires VoteOk(verify, p, signature, message)
    ensures !SpelledOnce(registered)
    ensures Count(verify, [p, q], [signature, signature], registered, message) == 2
    ensures |Keys(Voters(verify, Zip([p, q], [signature, signature]), registered, message))| == 1
  {
    var i :| 0 <= i < |registered| && registered[i] == p;
    var j :| 0 <= j < |registered| && registered[j] == q;
    assert Tagged(registered[i], 32) == Tagged(registered[j], 32) && registered[i] != registered[j];
    var votes := Zip([p, q], [signature, signature]);
    assert votes[0] == (p, signature) && votes[1] == (q, signature);
    assert Voters(verify, votes, registered, message) == {p, q};
    assert Keys({p, q}) == {Tagged(p, 32).value};
  }
}
