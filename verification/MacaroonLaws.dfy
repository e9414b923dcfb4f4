/** What attenuation and third-party caveats do to acceptance, and what a chained message
    says about its caveat. */
module MacaroonLaws {
  import opened Wrappers
  import opened Text
  import opened Macaroons

  // ----- attenuation intersects acceptance ------------------------------------------------

  lemma WalkAppend(seed: Bytes, cs: seq<Caveat>, c: Caveat)
    ensures Walk(seed, cs + [c]) == Hmac(Walk(seed, cs), Message(c))
  {
    assert (cs + [c])[..|cs|] == cs;
  }

  /** A macaroon with one more caveat, chained from its signature as the code does. */
  function Extend(m: Macaroon, c: Caveat): Macaroon {
    m.(caveats := m.caveats + [c], signature := Hmac(m.signature, Message(c)))
  }

  lemma ExtendRanks(ctx: Context, m: Macaroon, c: Caveat, rank: map<string, nat>)
    ensures RanksAll(ctx, Extend(m, c).caveats, rank) <==> RanksAll(ctx, m.caveats, rank) && Ranks(ctx, c, rank)
  {
    var e := Extend(m, c);
    assert e.caveats[|m.caveats|] == c && forall i | 0 <= i < |m.caveats| :: e.caveats[i] == m.caveats[i];
  }

  lemma ExtendAccepts(secret: Bytes, ctx: Context, m: Macaroon, c: Caveat, rank: map<string, nat>)
    requires RanksAll(ctx, m.caveats, rank) && Ranks(ctx, c, rank)
    ensures SignatureOk(Extend(m, c), secret) <==> SignatureOk(m, secret)
    ensures RanksAll(ctx, Extend(m, c).caveats, rank)
    ensures Accepts(secret, ctx, Extend(m, c), rank)
            <==> Accepts(secret, ctx, m, rank) && CaveatOk(secret, ctx, c, rank)
  {
    ExtendRanks(ctx, m, c, rank);
    WalkAppend(InitialSignature(secret, m.identifier), m.caveats, c);
    var e := Extend(m, c);
    assert SignatureOk(e, secret) <==> SignatureOk(m, secret) by {
      assert e.signature[0] == Mac(m.signature, Message(c));
      assert Walk(InitialSignature(secret, m.identifier), e.caveats)[0]
             == Mac(Walk(InitialSignature(secret, m.identifier), m.caveats), Message(c));
    }
    assert e.caveats[|m.caveats|] == c && forall i | 0 <= i < |m.caveats| :: e.caveats[i] == m.caveats[i];
  }

  /** Attenuating by a whole list of predicates; None at the first one refused. */
  function AttenuateAll(m: Macaroon, ps: seq<string>): Option<Macaroon>
    decreases |ps|
  {
    if ps == [] then Some(m)
    else match Attenuate(m, ps[0])
      case Err(_) => None
      case Ok(n) => AttenuateAll(n, ps[1..])
  }

  lemma FirstAndRest(ctx: Context, ps: seq<string>)
    requires ps != []
    ensures (forall i | 0 <= i < |ps| :: ValidPredicate(ps[i]))
            <==> ValidPredicate(ps[0]) && forall i | 0 <= i < |ps[1..]| :: ValidPredicate(ps[1..][i])
    ensures (forall i | 0 <= i < |ps| :: Judge(ctx, ps[i]) == Yes)
            <==> Judge(ctx, ps[0]) == Yes && forall i | 0 <= i < |ps[1..]| :: Judge(ctx, ps[1..][i]) == Yes
  {
    assert forall i | 1 <= i < |ps| :: ps[i] == ps[1..][i - 1];
  }

  /** The contexts that accept the attenuated macaroon are exactly those that accept the
      original and match every added predicate. */
  lemma {:induction false} AttenuationIntersects(secret: Bytes, ctx: Context, m: Macaroon, ps: seq<string>,
                                                 rank: map<string, nat>)
    requires RanksAll(ctx, m.caveats, rank)
    ensures AttenuateAll(m, ps).Some? <==> forall i | 0 <= i < |ps| :: ValidPredicate(ps[i])
    ensures AttenuateAll(m, ps).Some? ==> RanksAll(ctx, AttenuateAll(m, ps).value.caveats, rank)
    ensures AttenuateAll(m, ps).Some? ==>
      (Accepts(secret, ctx, AttenuateAll(m, ps).value, rank)
       <==> Accepts(secret, ctx, m, rank) && forall i | 0 <= i < |ps| :: Judge(ctx, ps[i]) == Yes)
    decreases |ps|
  {
    if ps != [] && ValidPredicate(ps[0]) {
      var c := Caveat(ps[0], None, None);
      assert Attenuate(m, ps[0]) == Ok(Extend(m, c));
      ExtendAccepts(secret, ctx, m, c, rank);
      AttenuationIntersects(secret, ctx, Extend(m, c), ps[1..], rank);
      FirstAndRest(ctx, ps);
    }
  }

  lemma TargetOfThirdParty(m: Macaroon, dischargeId: string, location: string, hint: string)
    ensures Target(ThirdPartyCaveat(m, dischargeId, location, hint)) == Some(UpToColon(dischargeId))
  {
    var c := ThirdPartyCaveat(m, dischargeId, location, hint);
    var tail := if hint != "" then ":" + hint else "";
    assert c.cid[|"discharge:"|..] == dischargeId + tail;
    CutIgnoresTail(dischargeId, tail);
  }

  lemma {:induction false} CutIgnoresTail(s: string, tail: string)
    requires tail == "" || tail[0] == ':'
    ensures UpToColon(s + tail) == UpToColon(s)
  {
    if s == "" {
      assert s + tail == tail;
    } else {
      assert (s + tail)[1..] == s[1..] + tail;
      CutIgnoresTail(s[1..], tail);
    }
  }

  /** A third-party caveat narrows to the contexts whose bag holds a verifying discharge
      under the caveat's identifier cut at its first colon; that is the identifier asked
      for exactly when it has no colon. */
  lemma ThirdPartyIntersects(secret: Bytes, ctx: Context, m: Macaroon, dischargeId: string, location: string,
                             hint: string, rank: map<string, nat>)
    requires RanksAll(ctx, m.caveats, rank)
    requires UpToColon(dischargeId) in ctx.discharges ==> UpToColon(dischargeId) in rank
    ensures RanksAll(ctx, AddThirdPartyCaveat(m, dischargeId, location, hint).caveats, rank)
    ensures
      var id := UpToColon(dischargeId);
      Accepts(secret, ctx, AddThirdPartyCaveat(m, dischargeId, location, hint), rank)
      <==> Accepts(secret, ctx, m, rank) && id in ctx.discharges && DischargeOk(secret, ctx, id, rank)
    ensures UpToColon(dischargeId) == dischargeId <==> Lacks(dischargeId, ':')
  {
    var c := ThirdPartyCaveat(m, dischargeId, location, hint);
    TargetOfThirdParty(m, dischargeId, location, hint);
    assert AddThirdPartyCaveat(m, dischargeId, location, hint) == Extend(m, c);
    ExtendAccepts(secret, ctx, m, c, rank);
  }

  /** A discharge minted with the derived key, under any identifier, and attenuated
      discharges exactly in the contexts that match its predicates. */
  lemma MintedDischarge(secret: Bytes, ctx: Context, id: string, identifier: string, location: string, ps: seq<string>,
                        rank: map<string, nat>)
    requires Grounded(ctx.discharges, rank) && id in ctx.discharges && id in rank
    requires AttenuateAll(MintRoot(DeriveThirdPartyKey(secret, id), identifier, location).value, ps)
          == Some(ctx.discharges[id])
    ensures DischargeOk(secret, ctx, id, rank) <==> forall i | 0 <= i < |ps| :: Judge(ctx, ps[i]) == Yes
  {
    var key := DeriveThirdPartyKey(secret, id);
    var base := MintRoot(key, identifier, location).value;
    AttenuateAllShape(base, ps, key);
    PlainDischarge(secret, ctx, id, ps, rank);
  }

  lemma PlainDischarge(secret: Bytes, ctx: Context, id: string, ps: seq<string>, rank: map<string, nat>)
    requires Grounded(ctx.discharges, rank) && id in ctx.discharges && id in rank
    requires SignatureOk(ctx.discharges[id], DeriveThirdPartyKey(secret, id))
    requires |ctx.discharges[id].caveats| == |ps|
    requires forall i | 0 <= i < |ps| :: ctx.discharges[id].caveats[i] == Caveat(ps[i], None, None)
    ensures DischargeOk(secret, ctx, id, rank) <==> forall i | 0 <= i < |ps| :: Judge(ctx, ps[i]) == Yes
  {
    var d := ctx.discharges[id];
    forall i | 0 <= i < |ps|
      ensures Ranks(ctx, d.caveats[i], rank) && CaveatRank(ctx, d.caveats[i], rank) == 0
      ensures CaveatOk(secret, ctx, d.caveats[i], rank) <==> Judge(ctx, ps[i]) == Yes
    {
      assert d.caveats[i] == Caveat(ps[i], None, None);
    }
  }

  /** The caveats of d are those and then these predicates. */
  ghost predicate Behind(cs: seq<Caveat>, ds: seq<Caveat>, ps: seq<string>) {
    && |ds| == |cs| + |ps| && (forall i | 0 <= i < |cs| :: ds[i] == cs[i])
    && forall i | 0 <= i < |ps| :: ds[|cs| + i] == Caveat(ps[i], None, None)
  }

  lemma BehindOneMore(cs: seq<Caveat>, ds: seq<Caveat>, ps: seq<string>)
    requires ps != [] && Behind(cs + [Caveat(ps[0], None, None)], ds, ps[1..])
    ensures Behind(cs, ds, ps)
  {
    var c := Caveat(ps[0], None, None);
    forall i | 0 <= i < |ps|
      ensures ds[|cs| + i] == Caveat(ps[i], None, None)
    {
      if i == 0 {
        assert ds[|cs|] == (cs + [c])[|cs|];
      } else {
        var j := i - 1;
        assert ds[|cs + [c]| + j] == Caveat(ps[1..][j], None, None);
      }
    }
    forall i | 0 <= i < |cs|
      ensures ds[i] == cs[i]
    {
      assert ds[i] == (cs + [c])[i];
    }
  }

  lemma {:induction false} AttenuateAllShape(m: Macaroon, ps: seq<string>, key: Bytes)
    requires SignatureOk(m, key) && AttenuateAll(m, ps).Some?
    ensures SignatureOk(AttenuateAll(m, ps).value, key)
    ensures Behind(m.caveats, AttenuateAll(m, ps).value.caveats, ps)
    decreases |ps|
  {
    if ps != [] {
      var c := Caveat(ps[0], None, None);
      assert Attenuate(m, ps[0]) == Ok(Extend(m, c));
      WalkAppend(InitialSignature(key, m.identifier), m.caveats, c);
      AttenuateAllShape(Extend(m, c), ps[1..], key);
      BehindOneMore(m.caveats, AttenuateAll(m, ps).value.caveats, ps);
    }
  }

  // ----- what a message says about its caveat -------------------------------------------------

  function VidLength(c: Caveat): nat {
    if c.vid.Some? then |c.vid.value| else 0
  }

  /** The chain does not separate a verification id from the identifier behind it: equal
      messages mean equal identifiers exactly when as many symbols belong to the former. */
  lemma MessageExact(c: Caveat, d: Caveat)
    requires Message(c) == Message(d)
    ensures c.cid == d.cid <==> VidLength(c) == VidLength(d)
  {
    assert |Message(c)| == VidLength(c) + |c.cid| && |Message(d)| == VidLength(d) + |d.cid|;
    if VidLength(c) == VidLength(d) {
      assert Encode(c.cid) == Message(c)[VidLength(c)..] == Message(d)[VidLength(d)..] == Encode(d.cid);
      EncodeInjective(c.cid, d.cid);
    }
  }

  /** The two kinds of caveat can share a message. */
  lemma KindsShareMessages()
    ensures Message(Caveat("ab=1", None, None)) == Message(Caveat("b=1", Some(Encode("a")), Some("x")))
  {
    assert Encode("ab=1") == Encode("a") + Encode("b=1");
  }

  // ----- acceptance is a property of the bag, not of the rank that shows it acyclic ---------

  lemma {:induction false} CaveatRankIrrelevant(secret: Bytes, ctx: Context, c: Caveat, r: map<string, nat>,
                                                q: map<string, nat>)
    requires Grounded(ctx.discharges, r) && Ranks(ctx, c, r) && Grounded(ctx.discharges, q) && Ranks(ctx, c, q)
    ensures CaveatOk(secret, ctx, c, r) <==> CaveatOk(secret, ctx, c, q)
    decreases CaveatRank(ctx, c, r), 0
  {
    if Leads(ctx.discharges, c) {
      DischargeRankIrrelevant(secret, ctx, Target(c).value, r, q);
    }
  }

  lemma {:induction false} DischargeRankIrrelevant(secret: Bytes, ctx: Context, id: string, r: map<string, nat>,
                                                   q: map<string, nat>)
    requires Grounded(ctx.discharges, r) && Grounded(ctx.discharges, q) && id in ctx.discharges && id in r && id in q
    ensures DischargeOk(secret, ctx, id, r) <==> DischargeOk(secret, ctx, id, q)
    decreases r[id], 1
  {
    var d := ctx.discharges[id];
    RankFalls(ctx, id, r);
    RankFalls(ctx, id, q);
    forall i | 0 <= i < |d.caveats|
      ensures CaveatOk(secret, ctx, d.caveats[i], r) <==> CaveatOk(secret, ctx, d.caveats[i], q)
    {
      CaveatRankIrrelevant(secret, ctx, d.caveats[i], r, q);
    }
  }

  // ----- the tokens, written out -------------------------------------------------------------------------

  /** A minted token: nothing but the identifier, signed with the key derived from the secret;
      and the key its discharge is minted with. */
  lemma MintedSays(secret: Bytes, identifier: string, location: string)
    ensures
      match MintRoot(secret, identifier, location)
      case Ok(m) =>
        && secret != [] && m.identifier == identifier && m.caveats == [] && m.location == location && m.version == 1
        && m.signature == [Mac([Mac(secret, Encode("ae402:macaroon:v1"))], Encode(identifier))]
      case Err(_) => secret == []
    ensures DeriveThirdPartyKey(secret, identifier) == [Mac(secret, Encode("discharge:" + identifier))]
  {
  }

  /** An attenuated one: the predicate behind the other caveats, and the old signature as the key
      of the new. */
  lemma AttenuatedSays(m: Macaroon, text: string)
    ensures
      match Attenuate(m, text)
      case Ok(n) =>
        && text != "" && '\n' !in text && n.caveats == m.caveats + [Caveat(text, None, None)]
        && n.signature == [Mac(m.signature, Encode(text))]
        && n.identifier == m.identifier && n.location == m.location && n.version == m.version
      case Err(_) => text == "" || '\n' in text
  {
  }

  /** One with a third-party caveat: its verification id binds the discharge to the old
      signature, and both go into the new one. */
  lemma ThirdPartySays(m: Macaroon, id: string, location: string, hint: string)
    ensures
      var n, vid := AddThirdPartyCaveat(m, id, location, hint), [Mac(m.signature, Encode(id))];
      var cid := if hint == "" then "discharge:" + id else "discharge:" + id + ":" + hint;
      && n.caveats == m.caveats + [Caveat(cid, Some(vid), Some(location))]
      && n.signature == [Mac(m.signature, vid + Encode(cid))]
      && n.identifier == m.identifier && n.location == m.location && n.version == m.version
  {
    var cid := "discharge:" + id + if hint != "" then ":" + hint else "";
    assert hint == "" ==> cid == "discharge:" + id;
    assert hint != "" ==> cid == "discharge:" + id + ":" + hint;
  }

  /** The signature that a token must carry, caveat by caveat. */
  ghost function Signed(secret: Bytes, identifier: string, caveats: seq<Caveat>): Bytes
    decreases |caveats|
  {
    if caveats == [] then [Mac([Mac(secret, Encode("ae402:macaroon:v1"))], Encode(identifier))]
    else
      var c := caveats[|caveats| - 1];
      [Mac(Signed(secret, identifier, caveats[..|caveats| - 1]),
           match c.vid case Some(v) => v + Encode(c.cid) case None => Encode(c.cid))]
  }

  lemma SignatureExactly(m: Macaroon, secret: Bytes)
    ensures SignatureOk(m, secret) <==> m.signature == Signed(secret, m.identifier, m.caveats)
  {
    WalkIsSigned(secret, m.identifier, m.caveats);
  }

  lemma {:induction false} WalkIsSigned(secret: Bytes, identifier: string, caveats: seq<Caveat>)
    ensures Walk(InitialSignature(secret, identifier), caveats) == Signed(secret, identifier, caveats)
    decreases |caveats|
  {
    if caveats != [] {
      WalkIsSigned(secret, identifier, caveats[..|caveats| - 1]);
    }
  }

  /** A token without third-party caveats is accepted if and only if it is of version 1, carries
      that signature, and each of its predicates holds. */
  lemma FirstPartyAccepted(secret: Bytes, ctx: Context, m: Macaroon, rank: map<string, nat>)
    requires (forall c | c in m.caveats :: c.vid == None) && RanksAll(ctx, m.caveats, rank)
    ensures Accepts(secret, ctx, m, rank)
            <==> && m.version == 1 && m.signature == Signed(secret, m.identifier, m.caveats)
                 && forall c | c in m.caveats :: Judge(ctx, c.cid) == Yes
  {
    SignatureExactly(m, secret);
    forall i | 0 <= i < |m.caveats|
      ensures CaveatOk(secret, ctx, m.caveats[i], rank) <==> Judge(ctx, m.caveats[i].cid) == Yes
    {
      assert m.caveats[i] in m.caveats;
    }
  }
}
