/** A caveat's message does not say where its verification id ends, so one message has
    several readings. Which contexts accept what a holder can compute follows from them. */
module MacaroonRecast {
  import opened Wrappers
  import opened Text
  import opened Decimal
  import opened Macaroons
  import opened MacaroonLaws
  import opened MacaroonReach
  import opened CaveatMeaning

  const TAG := "discharge:"

  /** From position k on the identifier reads as one that asks for a discharge. */
  predicate NamesAt(cid: string, k: nat) {
    k <= |cid| && StartsWith(cid[k..], TAG)
  }

  function NamedAt(cid: string, k: nat): string
    requires NamesAt(cid, k)
  {
    UpToColon(cid[k..][|TAG|..])
  }

  ghost predicate Discharged(secret: Bytes, ctx: Context, id: string, rank: map<string, nat>)
    requires Grounded(ctx.discharges, rank)
  {
    id in ctx.discharges && id in rank && DischargeOk(secret, ctx, id, rank)
  }

  /** The caveat holds as a predicate, or the bag discharges it from some position on. */
  ghost predicate SomeReadingHolds(secret: Bytes, ctx: Context, c: Caveat, rank: map<string, nat>)
    requires Grounded(ctx.discharges, rank)
  {
    || (c.vid == None && Judge(ctx, c.cid) == Yes)
    || exists k: nat :: NamesAt(c.cid, k) && Discharged(secret, ctx, NamedAt(c.cid, k), rank)
  }

  // ----- the readings of one caveat ------------------------------------------------------------

  function VidOf(c: Caveat): Bytes {
    if c.vid.Some? then c.vid.value else []
  }

  /** The first k characters of the identifier counted to the verification id. */
  function Reading(c: Caveat, k: nat): Caveat
    requires k <= |c.cid|
  {
    Caveat(c.cid[k..], Some(VidOf(c) + Encode(c.cid[..k])), c.cl)
  }

  lemma ReadingMessage(c: Caveat, k: nat)
    requires k <= |c.cid|
    ensures Message(Reading(c, k)) == Message(c)
  {
    assert Encode(c.cid) == Encode(c.cid[..k]) + Encode(c.cid[k..]);
    assert VidOf(c) + (Encode(c.cid[..k]) + Encode(c.cid[k..])) == VidOf(c) + Encode(c.cid[..k]) + Encode(c.cid[k..]);
  }

  lemma TailsAgree(v: Bytes, s: string, w: Bytes, t: string)
    requires v + Encode(s) == w + Encode(t) && |v| <= |w|
    ensures |w| - |v| <= |s| && s[|w| - |v|..] == t
  {
    var k := |w| - |v|;
    assert |v + Encode(s)| == |v| + |s| && |w + Encode(t)| == |w| + |t|;
    assert Encode(s)[k..] == (v + Encode(s))[|w|..] == (w + Encode(t))[|w|..] == Encode(t);
    assert Encode(s[k..]) == Encode(s)[k..];
    EncodeInjective(s[k..], t);
  }

  lemma VidNeeded(v: Bytes, s: string, t: string)
    requires v + Encode(s) == Encode(t) && (v != [] ==> v[0].Mac?)
    ensures v == []
  {
    assert forall i | 0 <= i < |v| :: (v + Encode(s))[i] == v[i];
    assert forall i | 0 <= i < |t| :: Encode(t)[i].Lit?;
  }

  /** There are no other caveats with this message. */
  lemma ReadingsAreAll(c: Caveat, d: Caveat) returns (k: nat)
    requires PlainVids([c]) && Message(c) == Message(d)
    ensures d.vid == None ==> c.vid == None && d.cid == c.cid
    ensures d.vid.Some? ==> k <= |c.cid| && d.cid == c.cid[k..]
  {
    assert [c][0] == c;
    var v, w := VidOf(c), VidOf(d);
    assert Message(c) == v + Encode(c.cid) && Message(d) == w + Encode(d.cid);
    if w == [] {
      assert w + Encode(d.cid) == Encode(d.cid);
      VidNeeded(v, c.cid, d.cid);
    }
    TailsAgree(v, c.cid, w, d.cid);
    k := |w| - |v|;
    assert c.cid[0..] == c.cid;
  }

  lemma NamedTarget(d: Caveat)
    ensures Target(d) == if NamesAt(d.cid, 0) then Some(NamedAt(d.cid, 0)) else None
  {
    assert d.cid[0..] == d.cid;
  }

  lemma NamesFrom(cid: string, k: nat)
    requires k <= |cid|
    ensures NamesAt(cid[k..], 0) <==> NamesAt(cid, k)
    ensures NamesAt(cid, k) ==> NamedAt(cid[k..], 0) == NamedAt(cid, k)
  {
    assert cid[k..][0..] == cid[k..];
  }

  /** A caveat with the same message that holds is a reading that holds. */
  lemma HoldsBySomeReading(secret: Bytes, ctx: Context, c: Caveat, d: Caveat, rank: map<string, nat>)
    requires PlainVids([c]) && Message(c) == Message(d)
    requires Grounded(ctx.discharges, rank) && Ranks(ctx, d, rank) && CaveatOk(secret, ctx, d, rank)
    ensures SomeReadingHolds(secret, ctx, c, rank)
  {
    var k := ReadingsAreAll(c, d);
    if d.vid.Some? {
      NamedTarget(d);
      NamesFrom(c.cid, k);
      assert NamesAt(c.cid, k) && Discharged(secret, ctx, NamedAt(c.cid, k), rank);
    }
  }

  lemma ReadingHolds(secret: Bytes, ctx: Context, c: Caveat, k: nat, rank: map<string, nat>)
    requires Grounded(ctx.discharges, rank) && NamesAt(c.cid, k)
    requires Discharged(secret, ctx, NamedAt(c.cid, k), rank)
    ensures Ranks(ctx, Reading(c, k), rank) && CaveatOk(secret, ctx, Reading(c, k), rank)
  {
    NamedTarget(Reading(c, k));
    NamesFrom(c.cid, k);
  }

  /** A caveat with the same message that holds. */
  lemma ChooseReading(secret: Bytes, ctx: Context, c: Caveat, rank: map<string, nat>) returns (d: Caveat)
    requires Grounded(ctx.discharges, rank) && SomeReadingHolds(secret, ctx, c, rank)
    ensures Message(d) == Message(c) && Ranks(ctx, d, rank) && CaveatOk(secret, ctx, d, rank)
  {
    if c.vid == None && Judge(ctx, c.cid) == Yes {
      d := c;
    } else {
      var k: nat :| NamesAt(c.cid, k) && Discharged(secret, ctx, NamedAt(c.cid, k), rank);
      d := Reading(c, k);
      ReadingMessage(c, k);
      ReadingHolds(secret, ctx, c, k, rank);
    }
  }

  // ----- extensions of one token -----------------------------------------------------------------

  ghost predicate AllReadable(secret: Bytes, ctx: Context, e: Macaroon, rank: map<string, nat>)
    requires Grounded(ctx.discharges, rank)
  {
    forall i | 0 <= i < |e.caveats| :: SomeReadingHolds(secret, ctx, e.caveats[i], rank)
  }

  /** The token is accepted, and the check comes to an end. */
  ghost predicate Accepted(secret: Bytes, ctx: Context, t: Macaroon, rank: map<string, nat>) {
    RanksAll(ctx, t.caveats, rank) && Accepts(secret, ctx, t, rank)
  }

  lemma {:induction false} ChooseReadings(secret: Bytes, ctx: Context, cs: seq<Caveat>, rank: map<string, nat>)
    returns (ds: seq<Caveat>)
    requires Grounded(ctx.discharges, rank)
    requires forall i | 0 <= i < |cs| :: SomeReadingHolds(secret, ctx, cs[i], rank)
    ensures Messages(ds) == Messages(cs)
    ensures forall i | 0 <= i < |ds| :: Ranks(ctx, ds[i], rank) && CaveatOk(secret, ctx, ds[i], rank)
    decreases |cs|
  {
    if cs == [] {
      ds := [];
    } else {
      var front := ChooseReadings(secret, ctx, cs[..|cs| - 1], rank);
      var last := ChooseReading(secret, ctx, cs[|cs| - 1], rank);
      ds := front + [last];
      assert ds[..|ds| - 1] == front;
      MessagesFrontLast(cs);
      MessagesFrontLast(ds);
    }
  }

  lemma AcceptedReadable(secret: Bytes, ctx: Context, e: Macaroon, t: Macaroon, rank: map<string, nat>)
    requires PlainVids(e.caveats) && Extends(t, e) && Accepted(secret, ctx, t, rank)
    ensures AllReadable(secret, ctx, e, rank)
  {
    assert |e.caveats| == |Messages(e.caveats)| <= |Messages(t.caveats)| == |t.caveats|;
    forall i | 0 <= i < |e.caveats|
      ensures SomeReadingHolds(secret, ctx, e.caveats[i], rank)
    {
      assert Messages(e.caveats)[i] == Messages(t.caveats)[i];
      HoldsBySomeReading(secret, ctx, e.caveats[i], t.caveats[i], rank);
    }
  }

  lemma ReadableAccepted(secret: Bytes, ctx: Context, e: Macaroon, rank: map<string, nat>) returns (t: Macaroon)
    requires SignatureOk(e, secret) && Grounded(ctx.discharges, rank) && AllReadable(secret, ctx, e, rank)
    ensures Extends(t, e) && t.signature == e.signature && Accepted(secret, ctx, t, rank)
  {
    var ds := ChooseReadings(secret, ctx, e.caveats, rank);
    t := e.(version := 1, caveats := ds);
    SameMessagesSameWalk(InitialSignature(secret, e.identifier), e.caveats, ds);
  }

  /** Some extension of a token is accepted, one with the token's own signature, if and only
      if each of its caveats has a reading that holds. */
  lemma ExtensionAcceptedExactly(secret: Bytes, ctx: Context, e: Macaroon, rank: map<string, nat>)
    requires SignatureOk(e, secret) && PlainVids(e.caveats) && Grounded(ctx.discharges, rank)
    ensures (exists t :: Extends(t, e) && Accepted(secret, ctx, t, rank)) <==> AllReadable(secret, ctx, e, rank)
    ensures AllReadable(secret, ctx, e, rank)
            ==> exists t :: Extends(t, e) && t.signature == e.signature && Accepted(secret, ctx, t, rank)
  {
    if t :| Extends(t, e) && Accepted(secret, ctx, t, rank) {
      AcceptedReadable(secret, ctx, e, t, rank);
    }
    if AllReadable(secret, ctx, e, rank) {
      var t := ReadableAccepted(secret, ctx, e, rank);
    }
  }

  // ----- what holders get accepted ----------------------------------------------------------------

  lemma ExposedComputable(given: set<Symbol>, issued: set<Macaroon>, name: nat, e: Macaroon)
    requires GivenOnly(given, issued, name) && HoldsAll(given, issued) && e in Exposed(issued)
    ensures Computable(given, e.signature)
  {
    ReachIsComputable(given, e.signature);
  }

  /** The contexts in which holders of issued macaroons can get any token accepted, exactly:
      those where every caveat of an issued macaroon, or of the token behind one of its
      verification ids, has a reading that holds. */
  lemma AcceptanceExactly(given: set<Symbol>, issued: set<Macaroon>, name: nat, ctx: Context, rank: map<string, nat>)
    requires GivenOnly(given, issued, name) && HoldsAll(given, issued) && Grounded(ctx.discharges, rank)
    ensures (exists t: Macaroon :: Computable(given, t.signature) && Accepted([Secret(name)], ctx, t, rank))
            <==> exists e :: e in Exposed(issued) && AllReadable([Secret(name)], ctx, e, rank)
  {
    if t: Macaroon :| Computable(given, t.signature) && Accepted([Secret(name)], ctx, t, rank) {
      var e := ExtendedToken(given, issued, name, t);
      AcceptedReadable([Secret(name)], ctx, e, t, rank);
    }
    if e :| e in Exposed(issued) && AllReadable([Secret(name)], ctx, e, rank) {
      ExposedVerify(issued, name, e);
      ExposedComputable(given, issued, name, e);
      var t := ReadableAccepted([Secret(name)], ctx, e, rank);
      assert Computable(given, t.signature) && Accepted([Secret(name)], ctx, t, rank);
    }
  }

  lemma ExtendedToken(given: set<Symbol>, issued: set<Macaroon>, name: nat, t: Macaroon) returns (e: Macaroon)
    requires GivenOnly(given, issued, name) && Computable(given, t.signature) && SignatureOk(t, [Secret(name)])
    ensures e in Exposed(issued) && Extends(t, e) && PlainVids(e.caveats) && SignatureOk(e, [Secret(name)])
    ensures e.version == 1 || exists m :: m in issued && m.version != 1
  {
    ReachIsComputable(given, t.signature);
    ReachedFromExposed(given, issued, name, t.identifier, t.caveats);
    e :| e in Exposed(issued) && Continues(given, e, t.identifier, t.caveats);
    ExposedVerify(issued, name, e);
    ExposedPlain(issued, name, e);
  }

  // ----- when acceptance narrows ------------------------------------------------------------------

  /** No reading asks for another discharge than the caveat does: a predicate names none
      anywhere, a third-party identifier wherever it names one names the same. */
  predicate Settled(c: Caveat) {
    forall k: nat | k <= |c.cid| && NamesAt(c.cid, k) ::
      c.vid.Some? && NamesAt(c.cid, 0) && NamedAt(c.cid, k) == NamedAt(c.cid, 0)
  }

  lemma SettledExactly(secret: Bytes, ctx: Context, c: Caveat, rank: map<string, nat>)
    requires Settled(c) && Grounded(ctx.discharges, rank)
    ensures SomeReadingHolds(secret, ctx, c, rank) <==> Ranks(ctx, c, rank) && CaveatOk(secret, ctx, c, rank)
  {
    NamedTarget(c);
    if c.vid.Some? && NamesAt(c.cid, 0) && Ranks(ctx, c, rank) && CaveatOk(secret, ctx, c, rank) {
      assert Discharged(secret, ctx, NamedAt(c.cid, 0), rank);
    }
  }

  /** A bag with one bare discharge, and no fact or hook. */
  function OnlyDischarge(secret: Bytes, id: string): Context {
    Context(0, map[], [], map[id := MintRoot(DeriveThirdPartyKey(secret, id), id, "").value])
  }

  lemma OnlyDischargeHolds(secret: Bytes, id: string)
    ensures Grounded(OnlyDischarge(secret, id).discharges, map[id := 0])
    ensures Discharged(secret, OnlyDischarge(secret, id), id, map[id := 0])
  {
    assert DischargeOk(secret, OnlyDischarge(secret, id), id, map[id := 0]);
  }

  lemma ValueKeepsColon(s: string)
    requires ':' in s && ValuePart(s).Some?
    ensures ':' in ValuePart(s).value
  {
    var j :| 0 <= j < |s| && s[j] == ':';
    assert ValuePart(s).value[j] == ':';
  }

  lemma KeyLacksColon(cid: string)
    ensures ':' in cid ==> ':' in cid[KeyLength(cid)..]
  {
    if j :| 0 <= j < |cid| && cid[j] == ':' {
      KeyIsKey(cid);
      assert cid[KeyLength(cid)..][j - KeyLength(cid)] == ':';
    }
  }

  /** With a colon in it the value compared to is no integer. */
  lemma ColonIsNoNumber(cid: string)
    requires ':' in cid && ParseComparison(cid).Some?
    ensures PyInt(ParseComparison(cid).value.value) == None
  {
    var c, rest := ParseComparison(cid).value, cid[KeyLength(cid)..];
    KeyLacksColon(cid);
    ParsedParts(cid);
    assert rest == c.op + rest[|c.op|..];
    ValueKeepsColon(rest[|c.op|..]);
    if PyInt(c.value).Some? {
      PyIntAlphabet(c.value, ':');
    }
  }

  lemma NamesHasColon(cid: string, k: nat)
    requires NamesAt(cid, k)
    ensures ':' in cid
  {
    assert cid[k + 9] == cid[k..][9] == TAG[9] == ':';
  }

  /** Only the discharge that the k-th reading names is at hand: it holds, the caveat itself
      does not unless it names the same. */
  lemma OnlyReading(secret: Bytes, c: Caveat, k: nat)
    requires k <= |c.cid| && NamesAt(c.cid, k)
    requires !(c.vid.Some? && NamesAt(c.cid, 0) && NamedAt(c.cid, k) == NamedAt(c.cid, 0))
    ensures
      var ctx, rank := OnlyDischarge(secret, NamedAt(c.cid, k)), map[NamedAt(c.cid, k) := 0];
      && Grounded(ctx.discharges, rank) && SomeReadingHolds(secret, ctx, c, rank)
      && !(Ranks(ctx, c, rank) && CaveatOk(secret, ctx, c, rank))
  {
    var id := NamedAt(c.cid, k);
    OnlyDischargeHolds(secret, id);
    NamedTarget(c);
    if c.vid == None {
      NamesHasColon(c.cid, k);
      if ParseComparison(c.cid).Some? {
        ColonIsNoNumber(c.cid);
      }
    }
  }

  ghost predicate NeverRecast(secret: Bytes, c: Caveat) {
    forall ctx: Context, rank: map<string, nat>
      | Grounded(ctx.discharges, rank) && SomeReadingHolds(secret, ctx, c, rank)
      :: Ranks(ctx, c, rank) && CaveatOk(secret, ctx, c, rank)
  }

  /** A caveat holds wherever a reading of it does if and only if it is settled. */
  lemma SettledDecides(secret: Bytes, c: Caveat)
    ensures Settled(c) <==> NeverRecast(secret, c)
  {
    if Settled(c) {
      forall ctx: Context, rank: map<string, nat>
        | Grounded(ctx.discharges, rank) && SomeReadingHolds(secret, ctx, c, rank)
        ensures Ranks(ctx, c, rank) && CaveatOk(secret, ctx, c, rank)
      {
        SettledExactly(secret, ctx, c, rank);
      }
    } else {
      var k: nat :| k <= |c.cid| && NamesAt(c.cid, k)
                    && !(c.vid.Some? && NamesAt(c.cid, 0) && NamedAt(c.cid, k) == NamedAt(c.cid, 0));
      OnlyReading(secret, c, k);
    }
  }

  predicate AllSettled(tokens: set<Macaroon>) {
    forall e, i | e in tokens && 0 <= i < |e.caveats| :: Settled(e.caveats[i])
  }

  lemma SettledAccepts(secret: Bytes, ctx: Context, e: Macaroon, rank: map<string, nat>)
    requires Grounded(ctx.discharges, rank) && AllReadable(secret, ctx, e, rank)
    requires e.version == 1 && SignatureOk(e, secret) && forall i | 0 <= i < |e.caveats| :: Settled(e.caveats[i])
    ensures Accepted(secret, ctx, e, rank)
  {
    forall i | 0 <= i < |e.caveats|
      ensures Ranks(ctx, e.caveats[i], rank) && CaveatOk(secret, ctx, e.caveats[i], rank)
    {
      SettledExactly(secret, ctx, e.caveats[i], rank);
    }
  }

  /** Every context that accepts a computed token already accepts an exposed token that it
      extends, provided the exposed tokens' caveats are settled, whatever the token's own
      verification ids are; or else provided these are whole HMAC outputs. */
  lemma AcceptedTokenNarrows(given: set<Symbol>, issued: set<Macaroon>, name: nat, t: Macaroon, ctx: Context,
                             rank: map<string, nat>)
    requires GivenOnly(given, issued, name) && Computable(given, t.signature)
    requires forall m | m in issued :: m.version == 1
    requires AllSettled(Exposed(issued)) || PlainVids(t.caveats)
    requires Accepted([Secret(name)], ctx, t, rank)
    ensures exists e :: e in Exposed(issued) && Extends(t, e) && Accepted([Secret(name)], ctx, e, rank)
  {
    var e := ExtendedToken(given, issued, name, t);
    if PlainVids(t.caveats) {
      ExtendedAccepts([Secret(name)], ctx, e, t, rank);
    } else {
      AcceptedReadable([Secret(name)], ctx, e, t, rank);
      SettledAccepts([Secret(name)], ctx, e, rank);
    }
  }

  /** A prefix of an accepted token's caveats holds where the token does. */
  lemma ExtendedAccepts(secret: Bytes, ctx: Context, e: Macaroon, t: Macaroon, rank: map<string, nat>)
    requires Extends(t, e) && PlainVids(e.caveats) && PlainVids(t.caveats)
    requires e.version == 1 && SignatureOk(e, secret)
    requires RanksAll(ctx, t.caveats, rank) && Accepts(secret, ctx, t, rank)
    ensures RanksAll(ctx, e.caveats, rank) && Accepts(secret, ctx, e, rank)
  {
    assert |e.caveats| == |Messages(e.caveats)| <= |Messages(t.caveats)| == |t.caveats|;
    forall i | 0 <= i < |e.caveats|
      ensures Ranks(ctx, e.caveats[i], rank) && CaveatOk(secret, ctx, e.caveats[i], rank)
    {
      assert Messages(e.caveats)[i] == Messages(t.caveats)[i];
      PlainMessageExact(e.caveats[i], t.caveats[i]);
      SameCaveat(secret, ctx, e.caveats[i], t.caveats[i], rank);
    }
  }

  lemma SameCaveat(secret: Bytes, ctx: Context, c: Caveat, d: Caveat, rank: map<string, nat>)
    requires c.cid == d.cid && (c.vid == None <==> d.vid == None)
    requires Grounded(ctx.discharges, rank) && Ranks(ctx, d, rank)
    ensures Ranks(ctx, c, rank) && (CaveatOk(secret, ctx, c, rank) <==> CaveatOk(secret, ctx, d, rank))
  {
    assert Target(c) == Target(d);
  }

  // ----- the two ways a caveat is recast ------------------------------------------------------------

  /** A predicate that names a discharge anywhere is not looked at: whoever holds the token
      gets an extension of it accepted as soon as the bag discharges what is named. */
  lemma PredicateRecast(name: nat, ctx: Context, m: Macaroon, text: string, k: nat, rank: map<string, nat>)
    requires Issued(m, name) && Accepted([Secret(name)], ctx, m, rank)
    requires ValidPredicate(text) && Judge(ctx, text) != Yes
    requires NamesAt(text, k) && Discharged([Secret(name)], ctx, NamedAt(text, k), rank)
    ensures
      var e := Attenuate(m, text).value;
      && Issued(e, name) && RanksAll(ctx, e.caveats, rank) && !Accepts([Secret(name)], ctx, e, rank)
      && exists t :: Extends(t, e) && t.signature == e.signature && Accepted([Secret(name)], ctx, t, rank)
  {
    var c := Caveat(text, None, None);
    OperationsIssue(name, m, text, "", "");
    RecastAdded(name, ctx, m, c, k, rank);
  }

  /** A third-party caveat whose hint names a second discharge can be retargeted to it. */
  lemma HintRetargets(name: nat, ctx: Context, m: Macaroon, a: string, location: string, b: string,
                      rank: map<string, nat>)
    requires Issued(m, name) && Accepted([Secret(name)], ctx, m, rank)
    requires UpToColon(a) !in ctx.discharges && Discharged([Secret(name)], ctx, UpToColon(b), rank)
    ensures
      var e := AddThirdPartyCaveat(m, a, location, TAG + b);
      && Issued(e, name) && RanksAll(ctx, e.caveats, rank) && !Accepts([Secret(name)], ctx, e, rank)
      && exists t :: Extends(t, e) && t.signature == e.signature && Accepted([Secret(name)], ctx, t, rank)
  {
    var c, k := ThirdPartyCaveat(m, a, location, TAG + b), |TAG| + |a| + 1;
    OperationsIssue(name, m, a, location, TAG + b);
    TargetOfThirdParty(m, a, location, TAG + b);
    assert c.cid[k..] == TAG + b;
    assert (TAG + b)[|TAG|..] == b;
    assert AddThirdPartyCaveat(m, a, location, TAG + b) == Extend(m, c);
    RecastAdded(name, ctx, m, c, k, rank);
  }

  lemma AddedReadable(secret: Bytes, ctx: Context, m: Macaroon, c: Caveat, rank: map<string, nat>)
    requires Grounded(ctx.discharges, rank) && AllReadable(secret, ctx, m, rank)
    requires SomeReadingHolds(secret, ctx, c, rank)
    ensures AllReadable(secret, ctx, Extend(m, c), rank)
  {
    var e := Extend(m, c);
    forall i | 0 <= i < |e.caveats|
      ensures SomeReadingHolds(secret, ctx, e.caveats[i], rank)
    {
      assert e.caveats[i] == if i < |m.caveats| then m.caveats[i] else c;
    }
  }

  lemma RecastAdded(name: nat, ctx: Context, m: Macaroon, c: Caveat, k: nat, rank: map<string, nat>)
    requires Accepted([Secret(name)], ctx, m, rank) && Issued(m, name)
    requires Ranks(ctx, c, rank) && !CaveatOk([Secret(name)], ctx, c, rank)
    requires NamesAt(c.cid, k) && Discharged([Secret(name)], ctx, NamedAt(c.cid, k), rank)
    ensures
      var e := Extend(m, c);
      && RanksAll(ctx, e.caveats, rank) && !Accepts([Secret(name)], ctx, e, rank)
      && exists t :: Extends(t, e) && t.signature == e.signature && Accepted([Secret(name)], ctx, t, rank)
  {
    IssuedVidsPlain(name, m);
    AcceptedReadable([Secret(name)], ctx, m, m, rank);
    AddedReadable([Secret(name)], ctx, m, c, rank);
    ExtendAccepts([Secret(name)], ctx, m, c, rank);
    var t := ReadableAccepted([Secret(name)], ctx, Extend(m, c), rank);
  }
}
