/** Who holds issued macaroons: what they can compute, and which tokens that makes verify. */
module MacaroonReach {
  import opened Wrappers
  import opened Macaroons
  import opened MacaroonLaws

  // ----- what an adversary can compute ------------------------------------------------------

  /** One step of a computation on byte strings: write a text, use a given symbol, join two
      earlier results, cut one, or apply HMAC to two. */
  datatype Action =
    | Write(text: string)
    | Use(s: Symbol)
    | Join(i: nat, j: nat)
    | Cut(i: nat, from: nat, to: nat)
    | Apply(i: nat, j: nat)

  ghost predicate Computes(given: set<Symbol>, done: seq<Bytes>, a: Action, r: Bytes) {
    match a
    case Write(text) => r == Encode(text)
    case Use(s) => s in given && r == [s]
    case Join(i, j) => i < |done| && j < |done| && r == done[i] + done[j]
    case Cut(i, from, to) => i < |done| && from <= to <= |done[i]| && r == done[i][from..to]
    case Apply(i, j) => i < |done| && j < |done| && r == Hmac(done[i], done[j])
  }

  /** A computation: each result follows from the earlier ones by its action. */
  ghost predicate Computation(given: set<Symbol>, results: seq<Bytes>, actions: seq<Action>) {
    |actions| == |results| && forall n | 0 <= n < |results| :: Computes(given, results[..n], actions[n], results[n])
  }

  /** The symbols within reach of someone who was given some: everything public, and
      HMACs of reachable keys and messages. */
  ghost predicate Knows(given: set<Symbol>, s: Symbol) {
    s in given ||
    match s
    case Lit(_) => true
    case Secret(_) => false
    case Mac(key, msg) =>
      (forall i | 0 <= i < |key| :: Knows(given, key[i])) && (forall i | 0 <= i < |msg| :: Knows(given, msg[i]))
  }

  ghost predicate KnowsAll(given: set<Symbol>, bs: Bytes) {
    forall i | 0 <= i < |bs| :: Knows(given, bs[i])
  }

  /** No computation leaves the reach. */
  lemma {:induction false} ComputationStaysInReach(given: set<Symbol>, results: seq<Bytes>, actions: seq<Action>,
                                                   n: nat)
    requires Computation(given, results, actions) && n < |results|
    ensures KnowsAll(given, results[n])
    decreases n
  {
    assert Computes(given, results[..n], actions[n], results[n]);
    match actions[n]
    case Write(text) =>
    case Use(s) =>
    case Join(i, j) =>
      ComputationStaysInReach(given, results, actions, i);
      ComputationStaysInReach(given, results, actions, j);
    case Cut(i, from, to) =>
      ComputationStaysInReach(given, results, actions, i);
      assert forall k | 0 <= k < to - from :: results[n][k] == results[i][from + k];
    case Apply(i, j) =>
      ComputationStaysInReach(given, results, actions, i);
      ComputationStaysInReach(given, results, actions, j);
      assert results[..n][i] == results[i] && results[..n][j] == results[j];
      assert results[n][0] == Mac(results[i], results[j]);
  }

  // ----- signatures determine messages ----------------------------------------------------

  function Messages(cs: seq<Caveat>): (r: seq<Bytes>)
    ensures |r| == |cs| && forall i | 0 <= i < |cs| :: r[i] == Message(cs[i])
  {
    seq(|cs|, i requires 0 <= i < |cs| => Message(cs[i]))
  }

  lemma WalkIsMac(secret: Symbol, id: string, cs: seq<Caveat>)
    ensures
      var w := Walk(InitialSignature([secret], id), cs);
      |w| == 1 && w[0].Mac? && |w[0].key| == 1 && w[0].key[0].Mac?
    decreases |cs|
  {
    if cs != [] {
      WalkIsMac(secret, id, cs[..|cs| - 1]);
    }
  }

  /** A signature under one secret fixes the identifier and every caveat's message. */
  lemma {:induction false} WalkInjective(name: nat, id: string, cs: seq<Caveat>, id': string, cs': seq<Caveat>)
    requires Walk(InitialSignature([Secret(name)], id), cs) == Walk(InitialSignature([Secret(name)], id'), cs')
    ensures id == id' && Messages(cs) == Messages(cs')
    decreases |cs|
  {
    if cs == [] && cs' == [] {
      SeedsFixIdentifiers([Secret(name)], id, id');
    } else if cs != [] && cs' != [] {
      var front, front' := cs[..|cs| - 1], cs'[..|cs'| - 1];
      WalksUnwind(InitialSignature([Secret(name)], id), cs, InitialSignature([Secret(name)], id'), cs');
      WalkInjective(name, id, front, id', front');
      MessagesFrontLast(cs);
      MessagesFrontLast(cs');
    } else {
      RootKeyIsNoSignature(name, id, cs, id', cs');
    }
  }

  lemma MessagesFrontLast(cs: seq<Caveat>)
    requires cs != []
    ensures Messages(cs) == Messages(cs[..|cs| - 1]) + [Message(cs[|cs| - 1])]
  {
  }

  lemma SeedsFixIdentifiers(secret: Bytes, id: string, id': string)
    requires InitialSignature(secret, id) == InitialSignature(secret, id')
    ensures id == id'
  {
    assert InitialSignature(secret, id)[0] == InitialSignature(secret, id')[0];
    EncodeInjective(id, id');
  }

  lemma WalksUnwind(seed: Bytes, cs: seq<Caveat>, seed': Bytes, cs': seq<Caveat>)
    requires cs != [] && cs' != [] && Walk(seed, cs) == Walk(seed', cs')
    ensures Walk(seed, cs[..|cs| - 1]) == Walk(seed', cs'[..|cs'| - 1])
    ensures Message(cs[|cs| - 1]) == Message(cs'[|cs'| - 1])
  {
    assert Walk(seed, cs)[0] == Walk(seed', cs')[0];
  }

  /** The chain's seed key is not itself a signature, so chains of different length differ. */
  lemma RootKeyIsNoSignature(name: nat, id: string, cs: seq<Caveat>, id': string, cs': seq<Caveat>)
    requires (cs == []) != (cs' == [])
    ensures Walk(InitialSignature([Secret(name)], id), cs) != Walk(InitialSignature([Secret(name)], id'), cs')
  {
    var s := Secret(name);
    var w, w' := Walk(InitialSignature([s], id), cs), Walk(InitialSignature([s], id'), cs');
    assert RootKey([s])[0].key == [s] && !s.Mac?;
    if cs == [] {
      WalkIsMac(s, id', cs'[..|cs'| - 1]);
      assert w[0].key == RootKey([s]);
    } else {
      WalkIsMac(s, id, cs[..|cs| - 1]);
      assert w'[0].key == RootKey([s]);
    }
  }

  // ----- attenuation can only narrow ----------------------------------------------------------

  /** A value of the signature chain under the secret. */
  ghost predicate IsSignature(name: nat, s: Symbol) {
    exists id: string, cs: seq<Caveat> :: Walk(InitialSignature([Secret(name)], id), cs) == [s]
  }

  /** The macaroon with its first i caveats only, in the state before caveat i was added. */
  function Prefix(name: nat, m: Macaroon, i: nat): Macaroon
    requires i <= |m.caveats|
  {
    m.(caveats := m.caveats[..i], signature := Walk(InitialSignature([Secret(name)], m.identifier), m.caveats[..i]))
  }

  /** Caveat i is what add_third_party_caveat makes of the macaroon before it. */
  predicate ThirdPartyAt(name: nat, m: Macaroon, i: nat, dischargeId: string)
    requires i < |m.caveats|
  {
    m.caveats[i].vid == Some(Hmac(Prefix(name, m, i).signature, Encode(dischargeId)))
  }

  /** Minted under the secret and extended with the module's own operations only. */
  ghost predicate Issued(m: Macaroon, name: nat) {
    && SignatureOk(m, [Secret(name)])
    && forall i | 0 <= i < |m.caveats| && m.caveats[i].vid.Some? :: exists d: string :: ThirdPartyAt(name, m, i, d)
  }

  lemma PrefixKept(name: nat, m: Macaroon, c: Caveat, i: nat)
    requires i <= |m.caveats|
    ensures Prefix(name, Extend(m, c), i).signature == Prefix(name, m, i).signature
  {
    assert (m.caveats + [c])[..i] == m.caveats[..i];
  }

  lemma ExtendIssued(name: nat, m: Macaroon, c: Caveat)
    requires Issued(m, name)
    requires c.vid.Some? ==> exists d: string :: c.vid == Some(Hmac(m.signature, Encode(d)))
    ensures Issued(Extend(m, c), name)
  {
    var e := Extend(m, c);
    WalkAppend(InitialSignature([Secret(name)], m.identifier), m.caveats, c);
    forall i | 0 <= i < |e.caveats| && e.caveats[i].vid.Some?
      ensures exists d: string :: ThirdPartyAt(name, e, i, d)
    {
      PrefixKept(name, m, c, i);
      if i < |m.caveats| {
        var d: string :| ThirdPartyAt(name, m, i, d);
        assert ThirdPartyAt(name, e, i, d);
      } else {
        var d: string :| c.vid == Some(Hmac(m.signature, Encode(d)));
        assert m.caveats[..i] == m.caveats;
        assert ThirdPartyAt(name, e, i, d);
      }
    }
  }

  /** What the module issues is Issued. */
  lemma OperationsIssue(name: nat, m: Macaroon, text: string, location: string, hint: string)
    ensures Issued(MintRoot([Secret(name)], text, location).value, name)
    ensures Issued(m, name) && ValidPredicate(text) ==> Issued(Attenuate(m, text).value, name)
    ensures Issued(m, name) ==> Issued(AddThirdPartyCaveat(m, text, location, hint), name)
  {
    if Issued(m, name) {
      ExtendIssued(name, m, Caveat(text, None, None));
      assert ThirdPartyCaveat(m, text, location, hint).vid == Some(Hmac(m.signature, Encode(text)));
      ExtendIssued(name, m, ThirdPartyCaveat(m, text, location, hint));
    }
  }

  function TextOf(bs: Bytes): (r: string)
    ensures |r| == |bs|
  {
    seq(|bs|, i requires 0 <= i < |bs| => if bs[i].Lit? then bs[i].c else ' ')
  }

  /** The discharge identifier inside a verification id. */
  function HiddenId(vid: Bytes): string {
    if |vid| == 1 && vid[0].Mac? then TextOf(vid[0].msg) else ""
  }

  lemma HiddenIdFound(key: Bytes, d: string)
    ensures HiddenId(Hmac(key, Encode(d))) == d
  {
  }

  /** The token that the verification id of caveat i is a signature of: the caveats before
      it, then its discharge identifier as a predicate. */
  function Shed(m: Macaroon, i: nat): Macaroon
    requires i < |m.caveats| && m.caveats[i].vid.Some?
  {
    m.(caveats := m.caveats[..i] + [Caveat(HiddenId(m.caveats[i].vid.value), None, None)],
       signature := m.caveats[i].vid.value)
  }

  /** The verification id in a third-party caveat is the very signature that attenuating
      the macaroon before it with the discharge identifier gives. */
  lemma VidIsAttenuation(m: Macaroon, d: string, location: string, hint: string)
    requires ValidPredicate(d)
    ensures
      var t := AddThirdPartyCaveat(m, d, location, hint);
      Shed(t, |m.caveats|) == Attenuate(m, d).value
  {
    HiddenIdFound(m.signature, d);
    var t := AddThirdPartyCaveat(m, d, location, hint);
    assert t.caveats[..|m.caveats|] == m.caveats;
  }

  lemma ShedVerifies(name: nat, m: Macaroon, i: nat)
    requires Issued(m, name) && i < |m.caveats| && m.caveats[i].vid.Some?
    ensures SignatureOk(Shed(m, i), [Secret(name)])
  {
    var d: string :| ThirdPartyAt(name, m, i, d);
    HiddenIdFound(Prefix(name, m, i).signature, d);
    WalkAppend(InitialSignature([Secret(name)], m.identifier), m.caveats[..i], Caveat(d, None, None));
  }

  ghost predicate Extends(t: Macaroon, m: Macaroon) {
    t.identifier == m.identifier && Messages(m.caveats) <= Messages(t.caveats)
  }

  /** The token behind a verification id is no extension of the macaroon that shows it. */
  lemma ShedIsNoExtension(name: nat, m: Macaroon, i: nat)
    requires Issued(m, name) && i < |m.caveats| && m.caveats[i].vid.Some?
    ensures !Extends(Shed(m, i), m)
  {
    var d: string :| ThirdPartyAt(name, m, i, d);
    var t := Shed(m, i);
    assert |Messages(t.caveats)| == i + 1 && t.caveats[i].vid == None;
    assert Messages(m.caveats)[i] == Message(m.caveats[i]);
    assert Message(m.caveats[i])[0].Mac?;
    assert forall k | 0 <= k < |Message(t.caveats[i])| :: Message(t.caveats[i])[k].Lit?;
    assert Messages(t.caveats)[i] == Message(t.caveats[i]);
  }

  /** A third-party caveat can be shed exactly in the contexts where the caveats before it
      hold and its discharge identifier holds as a predicate; no discharge is asked for. */
  lemma ShedAccepted(name: nat, ctx: Context, m: Macaroon, i: nat, rank: map<string, nat>)
    requires Issued(m, name) && i < |m.caveats| && m.caveats[i].vid.Some?
    requires RanksAll(ctx, m.caveats, rank)
    ensures RanksAll(ctx, Prefix(name, m, i).caveats, rank) && RanksAll(ctx, Shed(m, i).caveats, rank)
    ensures Accepts([Secret(name)], ctx, Shed(m, i), rank)
            <==> Accepts([Secret(name)], ctx, Prefix(name, m, i), rank)
                 && Judge(ctx, HiddenId(m.caveats[i].vid.value)) == Yes
  {
    var p, c := Prefix(name, m, i), Caveat(HiddenId(m.caveats[i].vid.value), None, None);
    assert forall k | 0 <= k < i :: p.caveats[k] == m.caveats[k];
    var d: string :| ThirdPartyAt(name, m, i, d);
    HiddenIdFound(p.signature, d);
    assert Shed(m, i) == Extend(p, c);
    ExtendAccepts([Secret(name)], ctx, p, c, rank);
  }

  /** Every third-party caveat can be evaded: where its discharge is missing the token is
      refused, while the token behind its verification id is accepted if and only if the
      macaroon before it is and its discharge identifier holds as a predicate. */
  lemma DischargeEvaded(name: nat, ctx: Context, m: Macaroon, d: string, location: string, hint: string,
                        rank: map<string, nat>)
    requires Issued(m, name) && RanksAll(ctx, m.caveats, rank) && UpToColon(d) !in ctx.discharges
    ensures
      var t, n := AddThirdPartyCaveat(m, d, location, hint), |m.caveats|;
      && Issued(t, name) && RanksAll(ctx, t.caveats, rank) && !Accepts([Secret(name)], ctx, t, rank)
      && RanksAll(ctx, Shed(t, n).caveats, rank) && !Extends(Shed(t, n), t)
      && (Accepts([Secret(name)], ctx, Shed(t, n), rank)
          <==> Accepts([Secret(name)], ctx, m, rank) && Judge(ctx, d) == Yes)
  {
    var t, n := AddThirdPartyCaveat(m, d, location, hint), |m.caveats|;
    OperationsIssue(name, m, d, location, hint);
    ThirdPartyIntersects([Secret(name)], ctx, m, d, location, hint, rank);
    HiddenIdFound(m.signature, d);
    ShedAccepted(name, ctx, t, n, rank);
    ShedIsNoExtension(name, t, n);
    AddedPrefix(name, m, d, location, hint);
  }

  lemma AddedPrefix(name: nat, m: Macaroon, d: string, location: string, hint: string)
    requires SignatureOk(m, [Secret(name)])
    ensures Prefix(name, AddThirdPartyCaveat(m, d, location, hint), |m.caveats|) == m
  {
    assert AddThirdPartyCaveat(m, d, location, hint).caveats[..|m.caveats|] == m.caveats;
  }

  // ----- what holders can reach -----------------------------------------------------------------

  /** The tokens whose signatures stand in the issued macaroons: these themselves and what
      their verification ids sign. */
  ghost function Exposed(issued: set<Macaroon>): set<Macaroon> {
    issued + set m, i | m in issued && 0 <= i < |m.caveats| && m.caveats[i].vid.Some? :: Shed(m, i)
  }

  lemma ExposedVerify(issued: set<Macaroon>, name: nat, e: Macaroon)
    requires (forall m | m in issued :: Issued(m, name)) && e in Exposed(issued)
    ensures SignatureOk(e, [Secret(name)])
  {
    if e !in issued {
      var m, i :| m in issued && 0 <= i < |m.caveats| && m.caveats[i].vid.Some? && e == Shed(m, i);
      ShedVerifies(name, m, i);
    }
  }

  /** What holders were given: anything at all - issued macaroons with their verification
      ids, discharge keys, other authorities' secrets - except the secret, its root key and
      signatures under it that no issued macaroon shows. */
  ghost predicate GivenOnly(given: set<Symbol>, issued: set<Macaroon>, name: nat) {
    && (forall m | m in issued :: Issued(m, name))
    && Secret(name) !in given && RootKey([Secret(name)])[0] !in given
    && forall s | s in given && IsSignature(name, s) :: exists e :: e in Exposed(issued) && e.signature == [s]
  }

  /** They hold every signature that the issued macaroons show. */
  ghost predicate HoldsAll(given: set<Symbol>, issued: set<Macaroon>) {
    forall e, k | e in Exposed(issued) && 0 <= k < |e.signature| :: e.signature[k] in given
  }

  /** A discharge key is among the things that may be given. */
  lemma DischargeKeyHarmless(name: nat, d: string)
    ensures var k := DeriveThirdPartyKey([Secret(name)], d)[0];
            k != Secret(name) && k != RootKey([Secret(name)])[0] && !IsSignature(name, k)
  {
    var k := DeriveThirdPartyKey([Secret(name)], d)[0];
    assert k.msg[0] == Lit('d') && RootKey([Secret(name)])[0].msg[0] == Lit('a');
    assert k.key == [Secret(name)];
    forall id: string, cs: seq<Caveat>
      ensures Walk(InitialSignature([Secret(name)], id), cs) != [k]
    {
      WalkIsMac(Secret(name), id, cs);
    }
  }

  /** The secret's root key is out of reach. */
  lemma RootKeyUnknown(given: set<Symbol>, issued: set<Macaroon>, name: nat)
    requires GivenOnly(given, issued, name)
    ensures !KnowsAll(given, RootKey([Secret(name)]))
  {
    var r := RootKey([Secret(name)])[0];
    assert r.key[0] == Secret(name) && !Knows(given, r.key[0]);
    assert !Knows(given, RootKey([Secret(name)])[0]);
  }

  /** The chain reaches from an exposed token to the caveats cs by known messages. */
  ghost predicate Continues(given: set<Symbol>, e: Macaroon, id: string, cs: seq<Caveat>) {
    && e.identifier == id && Messages(e.caveats) <= Messages(cs)
    && forall j | |e.caveats| <= j < |cs| :: KnowsAll(given, Message(cs[j]))
  }

  lemma GivenSignature(given: set<Symbol>, issued: set<Macaroon>, name: nat, id: string, cs: seq<Caveat>)
    requires GivenOnly(given, issued, name)
    requires Walk(InitialSignature([Secret(name)], id), cs)[0] in given
    ensures exists e :: e in Exposed(issued) && Continues(given, e, id, cs)
  {
    var w := Walk(InitialSignature([Secret(name)], id), cs);
    WalkIsMac(Secret(name), id, cs);
    assert w == [w[0]] && IsSignature(name, w[0]);
    var e :| e in Exposed(issued) && e.signature == [w[0]];
    ExposedVerify(issued, name, e);
    WalkInjective(name, id, cs, e.identifier, e.caveats);
    assert |e.caveats| == |Messages(e.caveats)| == |cs|;
    assert Continues(given, e, id, cs);
  }

  lemma ContinuesOneMore(given: set<Symbol>, e: Macaroon, id: string, cs: seq<Caveat>)
    requires cs != [] && Continues(given, e, id, cs[..|cs| - 1]) && KnowsAll(given, Message(cs[|cs| - 1]))
    ensures Continues(given, e, id, cs)
  {
    MessagesFrontLast(cs);
    assert Messages(e.caveats) <= Messages(cs[..|cs| - 1]) <= Messages(cs);
  }

  lemma {:induction false} ReachedFromExposed(given: set<Symbol>, issued: set<Macaroon>, name: nat,
                                              id: string, cs: seq<Caveat>)
    requires GivenOnly(given, issued, name)
    requires KnowsAll(given, Walk(InitialSignature([Secret(name)], id), cs))
    ensures exists e :: e in Exposed(issued) && Continues(given, e, id, cs)
    decreases |cs|
  {
    var w := Walk(InitialSignature([Secret(name)], id), cs);
    WalkIsMac(Secret(name), id, cs);
    if w[0] in given {
      GivenSignature(given, issued, name, id, cs);
    } else {
      assert Knows(given, w[0]) && KnowsAll(given, w[0].key) && KnowsAll(given, w[0].msg);
      RootKeyUnknown(given, issued, name);
      if cs != [] {
        var front := cs[..|cs| - 1];
        ReachedFromExposed(given, issued, name, id, front);
        var e :| e in Exposed(issued) && Continues(given, e, id, front);
        ContinuesOneMore(given, e, id, cs);
      }
    }
  }

  lemma ContinuationFront(given: set<Symbol>, e: Macaroon, id: string, cs: seq<Caveat>)
    requires Continues(given, e, id, cs) && |e.caveats| < |cs|
    ensures Continues(given, e, id, cs[..|cs| - 1]) && KnowsAll(given, Message(cs[|cs| - 1]))
  {
    MessagesFrontLast(cs);
    assert Messages(cs[..|cs| - 1]) == Messages(cs)[..|cs| - 1];
  }

  lemma KnownStep(given: set<Symbol>, seed: Bytes, cs: seq<Caveat>)
    requires cs != [] && KnowsAll(given, Walk(seed, cs[..|cs| - 1])) && KnowsAll(given, Message(cs[|cs| - 1]))
    ensures KnowsAll(given, Walk(seed, cs))
  {
    assert Walk(seed, cs) == [Mac(Walk(seed, cs[..|cs| - 1]), Message(cs[|cs| - 1]))];
  }

  lemma ExposedKnown(given: set<Symbol>, issued: set<Macaroon>, name: nat, e: Macaroon, cs: seq<Caveat>)
    requires GivenOnly(given, issued, name) && HoldsAll(given, issued)
    requires e in Exposed(issued) && Messages(e.caveats) == Messages(cs)
    ensures KnowsAll(given, Walk(InitialSignature([Secret(name)], e.identifier), cs))
  {
    ExposedVerify(issued, name, e);
    SameMessagesSameWalk(InitialSignature([Secret(name)], e.identifier), e.caveats, cs);
  }

  /** From an exposed signature known messages lead on to known signatures. */
  lemma {:induction false} ContinuationKnown(given: set<Symbol>, issued: set<Macaroon>, name: nat, e: Macaroon,
                                             id: string, cs: seq<Caveat>)
    requires GivenOnly(given, issued, name) && HoldsAll(given, issued)
    requires e in Exposed(issued) && Continues(given, e, id, cs)
    ensures KnowsAll(given, Walk(InitialSignature([Secret(name)], id), cs))
    decreases |cs|
  {
    if |cs| == |e.caveats| {
      assert Messages(e.caveats) == Messages(cs);
      ExposedKnown(given, issued, name, e, cs);
    } else {
      assert |e.caveats| == |Messages(e.caveats)| <= |Messages(cs)| == |cs|;
      ContinuationFront(given, e, id, cs);
      ContinuationKnown(given, issued, name, e, id, cs[..|cs| - 1]);
      KnownStep(given, InitialSignature([Secret(name)], id), cs);
    }
  }

  lemma {:induction false} SameMessagesSameWalk(seed: Bytes, cs: seq<Caveat>, ds: seq<Caveat>)
    requires Messages(cs) == Messages(ds)
    ensures Walk(seed, cs) == Walk(seed, ds)
    decreases |cs|
  {
    assert |cs| == |Messages(cs)| == |Messages(ds)| == |ds|;
    if cs != [] {
      MessagesFrontLast(cs);
      MessagesFrontLast(ds);
      var n := |cs| - 1;
      assert Messages(cs)[n] == Messages(ds)[n] && Messages(cs)[..n] == Messages(ds)[..n];
      SameMessagesSameWalk(seed, cs[..n], ds[..n]);
    }
  }

  // ----- everything within reach can be computed ---------------------------------------------------

  function Shift(a: Action, n: nat): Action {
    match a
    case Write(text) => a
    case Use(s) => a
    case Join(i, j) => Join(i + n, j + n)
    case Cut(i, from, to) => Cut(i + n, from, to)
    case Apply(i, j) => Apply(i + n, j + n)
  }

  function ShiftAll(actions: seq<Action>, shift: nat): (r: seq<Action>)
    ensures |r| == |actions| && forall n | 0 <= n < |actions| :: r[n] == Shift(actions[n], shift)
  {
    seq(|actions|, n requires 0 <= n < |actions| => Shift(actions[n], shift))
  }

  lemma ShiftComputes(given: set<Symbol>, before: seq<Bytes>, done: seq<Bytes>, a: Action, r: Bytes)
    requires Computes(given, done, a, r)
    ensures Computes(given, before + done, Shift(a, |before|), r)
  {
  }

  /** One computation after another. */
  lemma Sequence(given: set<Symbol>, r1: seq<Bytes>, a1: seq<Action>, r2: seq<Bytes>, a2: seq<Action>)
    requires Computation(given, r1, a1) && Computation(given, r2, a2)
    ensures Computation(given, r1 + r2, a1 + ShiftAll(a2, |r1|))
  {
    var results, actions := r1 + r2, a1 + ShiftAll(a2, |r1|);
    forall n | 0 <= n < |results|
      ensures Computes(given, results[..n], actions[n], results[n])
    {
      if n < |r1| {
        assert results[..n] == r1[..n];
      } else {
        var k := n - |r1|;
        assert results[..n] == r1 + r2[..k];
        ShiftComputes(given, r1, r2[..k], a2[k], r2[k]);
      }
    }
  }

  lemma OneMore(given: set<Symbol>, results: seq<Bytes>, actions: seq<Action>, a: Action, r: Bytes)
    requires Computation(given, results, actions) && Computes(given, results, a, r)
    ensures Computation(given, results + [r], actions + [a])
  {
    var rs, as' := results + [r], actions + [a];
    forall n | 0 <= n < |rs|
      ensures Computes(given, rs[..n], as'[n], rs[n])
    {
      assert rs[..n] == results[..n];
    }
  }

  /** A computation of the two operands, then of the combination. */
  lemma Combine(given: set<Symbol>, r1: seq<Bytes>, a1: seq<Action>, r2: seq<Bytes>, a2: seq<Action>, mac: bool)
    returns (results: seq<Bytes>, actions: seq<Action>)
    requires Computation(given, r1, a1) && Computation(given, r2, a2) && r1 != [] && r2 != []
    ensures Computation(given, results, actions) && results != []
    ensures var x, y := r1[|r1| - 1], r2[|r2| - 1];
            results[|results| - 1] == if mac then Hmac(x, y) else x + y
  {
    Sequence(given, r1, a1, r2, a2);
    var i, j := |r1| - 1, |r1| + |r2| - 1;
    var x, y := r1[|r1| - 1], r2[|r2| - 1];
    var a, r := if mac then Apply(i, j) else Join(i, j), if mac then Hmac(x, y) else x + y;
    OneMore(given, r1 + r2, a1 + ShiftAll(a2, |r1|), a, r);
    results, actions := r1 + r2 + [r], a1 + ShiftAll(a2, |r1|) + [a];
  }

  lemma Single(given: set<Symbol>, a: Action, r: Bytes) returns (results: seq<Bytes>, actions: seq<Action>)
    requires Computes(given, [], a, r)
    ensures Computation(given, results, actions) && results == [r]
  {
    results, actions := [r], [a];
    assert results[..0] == [];
  }

  lemma ComputeSymbol(given: set<Symbol>, s: Symbol) returns (results: seq<Bytes>, actions: seq<Action>)
    requires Knows(given, s)
    ensures Computation(given, results, actions) && results != [] && results[|results| - 1] == [s]
    decreases s, 1
  {
    if s in given {
      results, actions := Single(given, Use(s), [s]);
    } else if s.Lit? {
      assert Encode([s.c]) == [s];
      results, actions := Single(given, Write([s.c]), [s]);
    } else {
      var r1, a1 := ComputeBytes(given, s.key);
      var r2, a2 := ComputeBytes(given, s.msg);
      results, actions := Combine(given, r1, a1, r2, a2, true);
    }
  }

  lemma KnowsParts(given: set<Symbol>, bs: Bytes)
    requires KnowsAll(given, bs) && bs != []
    ensures KnowsAll(given, bs[..|bs| - 1]) && Knows(given, bs[|bs| - 1])
    ensures bs == bs[..|bs| - 1] + [bs[|bs| - 1]]
  {
  }

  lemma ComputeBytes(given: set<Symbol>, bs: Bytes) returns (results: seq<Bytes>, actions: seq<Action>)
    requires KnowsAll(given, bs)
    ensures Computation(given, results, actions) && results != [] && results[|results| - 1] == bs
    decreases bs, 0
  {
    if bs == [] {
      results, actions := Single(given, Write(""), []);
    } else {
      var front, last := bs[..|bs| - 1], bs[|bs| - 1];
      KnowsParts(given, bs);
      var r1, a1 := ComputeBytes(given, front);
      var r2, a2 := ComputeSymbol(given, last);
      results, actions := Combine(given, r1, a1, r2, a2, false);
    }
  }

  ghost predicate Computable(given: set<Symbol>, bs: Bytes) {
    exists results: seq<Bytes>, actions: seq<Action>, n: nat ::
      Computation(given, results, actions) && n < |results| && results[n] == bs
  }

  /** The reach is exactly what can be computed. */
  lemma ReachIsComputable(given: set<Symbol>, bs: Bytes)
    ensures Computable(given, bs) <==> KnowsAll(given, bs)
  {
    if Computable(given, bs) {
      var results: seq<Bytes>, actions: seq<Action>, n: nat :|
        Computation(given, results, actions) && n < |results| && results[n] == bs;
      ComputationStaysInReach(given, results, actions, n);
    }
    if KnowsAll(given, bs) {
      var results, actions := ComputeBytes(given, bs);
      assert Computation(given, results, actions) && |results| - 1 < |results| && results[|results| - 1] == bs;
    }
  }

  /** Who holds issued macaroons - verification ids included - and anything else but the
      secret computes verifying signatures for exactly these tokens: an issued macaroon, or
      one cut before a third-party caveat and attenuated by its discharge identifier, each
      with further caveats whose messages can be computed. */
  lemma ReachExactly(given: set<Symbol>, issued: set<Macaroon>, name: nat, id: string, cs: seq<Caveat>)
    requires GivenOnly(given, issued, name) && HoldsAll(given, issued)
    ensures Computable(given, Walk(InitialSignature([Secret(name)], id), cs))
            <==> exists e :: e in Exposed(issued) && Continues(given, e, id, cs)
  {
    ReachIsComputable(given, Walk(InitialSignature([Secret(name)], id), cs));
    if KnowsAll(given, Walk(InitialSignature([Secret(name)], id), cs)) {
      ReachedFromExposed(given, issued, name, id, cs);
    }
    if exists e :: e in Exposed(issued) && Continues(given, e, id, cs) {
      var e :| e in Exposed(issued) && Continues(given, e, id, cs);
      ContinuationKnown(given, issued, name, e, id, cs);
    }
  }

  /** Attenuation narrows as far as that: a computed token that verifies extends an issued
      macaroon, or the token behind one of its verification ids. */
  lemma OnlyExtensions(given: set<Symbol>, issued: set<Macaroon>, name: nat, t: Macaroon)
    requires GivenOnly(given, issued, name) && Computable(given, t.signature) && SignatureOk(t, [Secret(name)])
    ensures (exists m :: m in issued && Extends(t, m))
            || exists m, i :: m in issued && 0 <= i < |m.caveats| && m.caveats[i].vid.Some? && Extends(t, Shed(m, i))
  {
    ReachIsComputable(given, t.signature);
    ReachedFromExposed(given, issued, name, t.identifier, t.caveats);
    var e :| e in Exposed(issued) && Continues(given, e, t.identifier, t.caveats);
    if e in issued {
      assert Extends(t, e);
    } else {
      var m, i :| m in issued && 0 <= i < |m.caveats| && m.caveats[i].vid.Some? && e == Shed(m, i);
      assert Extends(t, Shed(m, i));
    }
  }

  /** As attenuate writes it. */
  predicate FirstParty(c: Caveat) {
    c.vid == None && c.cl == None
  }

  /** The tokens agree on first-party caveats at the positions of m. */
  predicate SamePredicates(t: Macaroon, m: Macaroon) {
    && |m.caveats| <= |t.caveats|
    && forall i | 0 <= i < |m.caveats| && t.caveats[i].vid == None :: t.caveats[i].cid == m.caveats[i].cid
  }

  lemma ExtensionKeepsPredicates(t: Macaroon, m: Macaroon)
    requires Extends(t, m) && forall i | 0 <= i < |m.caveats| :: m.caveats[i].vid == None
    ensures SamePredicates(t, m)
    ensures (forall c | c in m.caveats + t.caveats :: FirstParty(c)) ==> m.caveats <= t.caveats
  {
    assert |m.caveats| == |Messages(m.caveats)| <= |Messages(t.caveats)| == |t.caveats|;
    forall i | 0 <= i < |m.caveats| && t.caveats[i].vid == None
      ensures t.caveats[i].cid == m.caveats[i].cid
    {
      assert Messages(t.caveats)[i] == Messages(m.caveats)[i];
      EncodeInjective(t.caveats[i].cid, m.caveats[i].cid);
    }
    if forall c | c in m.caveats + t.caveats :: FirstParty(c) {
      forall i | 0 <= i < |m.caveats|
        ensures m.caveats[i] == t.caveats[i]
      {
        assert m.caveats[i] in m.caveats + t.caveats && t.caveats[i] in m.caveats + t.caveats;
      }
    }
  }

  /** Without third-party caveats in the issued macaroons there is nothing to shed, and the
      caveat list of an issued macaroon is a prefix of the token's. */
  lemma OnlyExtensionsFirstParty(given: set<Symbol>, issued: set<Macaroon>, name: nat, t: Macaroon)
    requires GivenOnly(given, issued, name) && Computable(given, t.signature) && SignatureOk(t, [Secret(name)])
    requires forall m, i | m in issued && 0 <= i < |m.caveats| :: m.caveats[i].vid == None
    ensures exists m :: m in issued && Extends(t, m) && SamePredicates(t, m)
                        && ((forall c | c in m.caveats + t.caveats :: FirstParty(c)) ==> m.caveats <= t.caveats)
  {
    OnlyExtensions(given, issued, name, t);
    var m :| m in issued && Extends(t, m);
    ExtensionKeepsPredicates(t, m);
  }

  /** Every verification id is one HMAC output, as the code's own 32-byte ids are. */
  predicate PlainVids(cs: seq<Caveat>) {
    forall i | 0 <= i < |cs| && cs[i].vid.Some? :: |cs[i].vid.value| == 1 && cs[i].vid.value[0].Mac?
  }

  lemma IssuedVidsPlain(name: nat, m: Macaroon)
    requires Issued(m, name)
    ensures PlainVids(m.caveats)
  {
    forall i | 0 <= i < |m.caveats| && m.caveats[i].vid.Some?
      ensures |m.caveats[i].vid.value| == 1 && m.caveats[i].vid.value[0].Mac?
    {
      var d: string :| ThirdPartyAt(name, m, i, d);
    }
  }

  lemma PlainMessageExact(c: Caveat, d: Caveat)
    requires PlainVids([c]) && PlainVids([d]) && Message(c) == Message(d)
    ensures c.cid == d.cid && (c.vid == None <==> d.vid == None)
  {
    assert [c][0] == c && [d][0] == d;
    if c.vid.Some? {
      assert Message(c)[0].Mac?;
    }
    if d.vid.Some? {
      assert Message(d)[0].Mac?;
    }
    assert c.vid == None ==> forall k | 0 <= k < |Message(c)| :: Message(c)[k].Lit?;
    assert d.vid == None ==> forall k | 0 <= k < |Message(d)| :: Message(d)[k].Lit?;
    MessageExact(c, d);
  }

  lemma ExposedPlain(issued: set<Macaroon>, name: nat, e: Macaroon)
    requires (forall m | m in issued :: Issued(m, name)) && e in Exposed(issued)
    ensures PlainVids(e.caveats)
  {
    if e in issued {
      IssuedVidsPlain(name, e);
    } else {
      var m, i :| m in issued && 0 <= i < |m.caveats| && m.caveats[i].vid.Some? && e == Shed(m, i);
      IssuedVidsPlain(name, m);
      assert forall k | 0 <= k < i :: e.caveats[k] == m.caveats[k];
    }
  }
}
