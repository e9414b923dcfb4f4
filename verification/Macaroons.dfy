/** Macaroons over symbolic byte strings: HMAC outputs are free terms, so a signature is
    known only to someone who was given it or could compute it. */
module Macaroons {
  import opened Wrappers
  import opened Text
  import opened Decimal

  /** One symbol of a byte string: a literal byte, an unguessable secret, or the whole
      32-byte output of one HMAC call. */
  datatype Symbol = Lit(c: char) | Secret(name: nat) | Mac(key: seq<Symbol>, msg: seq<Symbol>)

  type Bytes = seq<Symbol>

  function Encode(s: string): (r: Bytes)
    ensures |r| == |s| && forall i | 0 <= i < |s| :: r[i] == Lit(s[i])
  {
    seq(|s|, i requires 0 <= i < |s| => Lit(s[i]))
  }

  lemma EncodeInjective(s: string, t: string)
    requires Encode(s) == Encode(t)
    ensures s == t
  {
    assert |s| == |Encode(s)| == |Encode(t)| == |t|;
    assert forall i | 0 <= i < |s| :: Lit(s[i]) == Encode(s)[i] == Encode(t)[i] == Lit(t[i]);
  }

  function Hmac(key: Bytes, msg: Bytes): Bytes {
    [Mac(key, msg)]
  }

  datatype Caveat = Caveat(cid: string, vid: Option<Bytes>, cl: Option<string>)

  datatype Macaroon = Macaroon(identifier: string, caveats: seq<Caveat>, signature: Bytes, location: string,
                               version: int)

  const DOMAIN_TAG := "ae402:macaroon:v1"

  function RootKey(secret: Bytes): Bytes {
    Hmac(secret, Encode(DOMAIN_TAG))
  }

  function InitialSignature(secret: Bytes, identifier: string): Bytes {
    Hmac(RootKey(secret), Encode(identifier))
  }

  /** What a caveat adds to the chain: its identifier, after the verification id if it
      is a third-party caveat. */
  function Message(c: Caveat): Bytes {
    if c.vid.Some? then c.vid.value + Encode(c.cid) else Encode(c.cid)
  }

  function Walk(seed: Bytes, caveats: seq<Caveat>): Bytes {
    if caveats == [] then seed else Hmac(Walk(seed, caveats[..|caveats| - 1]), Message(caveats[|caveats| - 1]))
  }

  method WalkChain(seed: Bytes, caveats: seq<Caveat>) returns (sig: Bytes)
    ensures sig == Walk(seed, caveats)
  {
    sig := seed;
    for n := 0 to |caveats|
      invariant sig == Walk(seed, caveats[..n])
    {
      assert caveats[..n + 1][..n] == caveats[..n];
      var c := caveats[n];
      if c.vid.Some? {
        sig := Hmac(sig, c.vid.value + Encode(c.cid));
      } else {
        sig := Hmac(sig, Encode(c.cid));
      }
    }
    assert caveats[..|caveats|] == caveats;
  }

  // ----- minting and attenuating ------------------------------------------------------

  datatype MacaroonError = EmptySecret | BadCaveat

  function MintRoot(secret: Bytes, identifier: string, location: string): Result<Macaroon, MacaroonError> {
    if secret == [] then Err(EmptySecret)
    else Ok(Macaroon(identifier, [], InitialSignature(secret, identifier), location, 1))
  }

  predicate ValidPredicate(s: string) {
    s != "" && Lacks(s, '\n')
  }

  function Attenuate(m: Macaroon, predicateText: string): Result<Macaroon, MacaroonError> {
    if !ValidPredicate(predicateText) then Err(BadCaveat)
    else Ok(m.(caveats := m.caveats + [Caveat(predicateText, None, None)],
               signature := Hmac(m.signature, Encode(predicateText))))
  }

  function DeriveThirdPartyKey(secret: Bytes, dischargeId: string): Bytes {
    Hmac(secret, Encode("discharge:" + dischargeId))
  }

  function ThirdPartyCaveat(m: Macaroon, dischargeId: string, location: string, hint: string): Caveat {
    var cid := "discharge:" + dischargeId + if hint != "" then ":" + hint else "";
    Caveat(cid, Some(Hmac(m.signature, Encode(dischargeId))), Some(location))
  }

  function AddThirdPartyCaveat(m: Macaroon, dischargeId: string, location: string, hint: string): Macaroon {
    var c := ThirdPartyCaveat(m, dischargeId, location, hint);
    m.(caveats := m.caveats + [c], signature := Hmac(m.signature, Message(c)))
  }

  // ----- the predicate matcher --------------------------------------------------------

  datatype Fact = IntFact(n: int) | StrFact(s: string)

  /** A user hook: its verdict, or None where it raises. */
  type Hook = string -> Option<bool>

  datatype Context = Context(now: int, facts: map<string, Fact>, hooks: seq<Hook>, discharges: map<string, Macaroon>)

  datatype Verdict = Yes | No | Raises

  predicate IsKeyChar(c: char) {
    'a' <= c <= 'z' || 'A' <= c <= 'Z' || '0' <= c <= '9' || c == '_' || c == '.' || c == '-'
  }

  function KeyLength(s: string): (n: nat)
    ensures n <= |s|
  {
    if s != [] && IsKeyChar(s[0]) then 1 + KeyLength(s[1..]) else 0
  }

  /** The value part: one line, an optional final newline not included. */
  function ValuePart(s: string): Option<string> {
    if s != "" && Lacks(s, '\n') then Some(s)
    else if |s| > 1 && s[|s| - 1] == '\n' && Lacks(s[..|s| - 1], '\n') then Some(s[..|s| - 1])
    else None
  }

  datatype Comparison = Comparison(key: string, op: string, value: string)

  /** key, operator, value: two-character operators are tried first, and given up again
      when they leave no value. */
  function ParseComparison(cid: string): Option<Comparison> {
    var k := KeyLength(cid);
    var rest := cid[k..];
    if k == 0 then None
    else if |rest| >= 2 && (rest[..2] == "<=" || rest[..2] == ">=") && ValuePart(rest[2..]).Some? then
      Some(Comparison(cid[..k], rest[..2], ValuePart(rest[2..]).value))
    else if |rest| >= 1 && (rest[..1] == "=" || rest[..1] == "<" || rest[..1] == ">") && ValuePart(rest[1..]).Some? then
      Some(Comparison(cid[..k], rest[..1], ValuePart(rest[1..]).value))
    else None
  }

  predicate CompareInt(fact: int, op: string, value: int) {
    (op == "=" && fact == value) || (op == "<" && fact < value) || (op == "<=" && fact <= value)
    || (op == ">" && fact > value) || (op == ">=" && fact >= value)
  }

  function Say(b: bool): Verdict {
    if b then Yes else No
  }

  function JudgeComparison(ctx: Context, c: Comparison): Verdict {
    var number := PyInt(c.value);
    if c.key == "expires" then
      if number == None then Raises
      else Say((c.op == "<" && ctx.now < number.value) || (c.op == "<=" && ctx.now <= number.value))
    else if c.key !in ctx.facts then No
    else match ctx.facts[c.key]
      case IntFact(n) =>
        if number.Some? then Say(CompareInt(n, c.op, number.value))
        else Say(c.op == "=" && IntStr(n) == c.value)
      case StrFact(s) =>
        if number.Some? && AllDigits(s) then Say(CompareInt(NatValue(s), c.op, number.value))
        else Say(c.op == "=" && s == if number.Some? then IntStr(number.value) else c.value)
  }

  predicate AnyHook(hooks: seq<Hook>, cid: string) {
    exists i | 0 <= i < |hooks| :: hooks[i](cid) == Some(true)
  }

  function Judge(ctx: Context, cid: string): Verdict {
    match ParseComparison(cid)
    case Some(c) => JudgeComparison(ctx, c)
    case None => Say(AnyHook(ctx.hooks, cid))
  }

  // ----- verification -----------------------------------------------------------------

  predicate SignatureOk(m: Macaroon, secret: Bytes) {
    Walk(InitialSignature(secret, m.identifier), m.caveats) == m.signature
  }

  /** Up to the first colon. */
  function UpToColon(s: string): (r: string)
    ensures r <= s && Lacks(r, ':') && (Lacks(s, ':') <==> r == s)
  {
    if s == [] || s[0] == ':' then []
    else
      assert s == [s[0]] + s[1..];
      [s[0]] + UpToColon(s[1..])
  }

  /** The discharge a third-party caveat asks for: the second colon-separated field. */
  function Target(c: Caveat): Option<string> {
    if StartsWith(c.cid, "discharge:") then Some(UpToColon(c.cid[|"discharge:"|..])) else None
  }

  /** The caveat points to a discharge in the bag. */
  predicate Leads(bag: map<string, Macaroon>, c: Caveat) {
    c.vid.Some? && Target(c).Some? && Target(c).value in bag
  }

  /** Ranked discharges lead to lower ranked ones only, so from them no cycle is reached.
      Discharges without a rank may lead anywhere. */
  ghost predicate Grounded(bag: map<string, Macaroon>, rank: map<string, nat>) {
    forall id | id in bag && id in rank :: forall i | 0 <= i < |bag[id].caveats| ::
      var c := bag[id].caveats[i];
      Leads(bag, c) ==> Target(c).value in rank && rank[Target(c).value] < rank[id]
  }

  /** The caveat reaches no cycle of discharges. */
  ghost predicate Ranks(ctx: Context, c: Caveat, rank: map<string, nat>) {
    Leads(ctx.discharges, c) ==> Target(c).value in rank
  }

  ghost predicate RanksAll(ctx: Context, cs: seq<Caveat>, rank: map<string, nat>) {
    Grounded(ctx.discharges, rank) && forall i | 0 <= i < |cs| :: Ranks(ctx, cs[i], rank)
  }

  ghost function CaveatRank(ctx: Context, c: Caveat, rank: map<string, nat>): nat
    requires Ranks(ctx, c, rank)
  {
    if Leads(ctx.discharges, c) then 1 + rank[Target(c).value] else 0
  }

  ghost predicate CaveatOk(secret: Bytes, ctx: Context, c: Caveat, rank: map<string, nat>)
    requires Grounded(ctx.discharges, rank) && Ranks(ctx, c, rank)
    decreases CaveatRank(ctx, c, rank), 0
  {
    if c.vid == None then Judge(ctx, c.cid) == Yes
    else Target(c).Some? && Target(c).value in ctx.discharges && DischargeOk(secret, ctx, Target(c).value, rank)
  }

  ghost predicate DischargeOk(secret: Bytes, ctx: Context, id: string, rank: map<string, nat>)
    requires Grounded(ctx.discharges, rank) && id in ctx.discharges && id in rank
    decreases rank[id], 1
  {
    var d := ctx.discharges[id];
    && SignatureOk(d, DeriveThirdPartyKey(secret, id))
    && forall i | 0 <= i < |d.caveats| ::
         Ranks(ctx, d.caveats[i], rank) && CaveatRank(ctx, d.caveats[i], rank) <= rank[id]
         && CaveatOk(secret, ctx, d.caveats[i], rank)
  }

  /** verify returns instead of raising. */
  ghost predicate Accepts(secret: Bytes, ctx: Context, m: Macaroon, rank: map<string, nat>)
    requires RanksAll(ctx, m.caveats, rank)
  {
    && m.version == 1 && SignatureOk(m, secret)
    && forall i | 0 <= i < |m.caveats| :: CaveatOk(secret, ctx, m.caveats[i], rank)
  }

  ghost function MaxRank(ctx: Context, caveats: seq<Caveat>, rank: map<string, nat>): (bound: nat)
    requires RanksAll(ctx, caveats, rank)
    ensures forall i | 0 <= i < |caveats| :: CaveatRank(ctx, caveats[i], rank) <= bound
  {
    if caveats == [] then 0
    else
      assert forall i | 0 < i < |caveats| :: caveats[i] == caveats[1..][i - 1];
      var rest, first := MaxRank(ctx, caveats[1..], rank), CaveatRank(ctx, caveats[0], rank);
      if first > rest then first else rest
  }

  /** The loop over the caveats of one token. */
  method VerifyCaveats(secret: Bytes, ctx: Context, caveats: seq<Caveat>, ghost rank: map<string, nat>,
                       ghost bound: nat)
    returns (ok: bool)
    requires RanksAll(ctx, caveats, rank)
    requires forall i | 0 <= i < |caveats| :: CaveatRank(ctx, caveats[i], rank) <= bound
    ensures ok <==> forall i | 0 <= i < |caveats| :: CaveatOk(secret, ctx, caveats[i], rank)
    decreases bound, 2
  {
    for n := 0 to |caveats|
      invariant forall i | 0 <= i < n :: CaveatOk(secret, ctx, caveats[i], rank)
    {
      var fine := VerifyCaveat(secret, ctx, caveats[n], rank);
      if !fine {
        return false;
      }
    }
    return true;
  }

  /** Terminates for every token from which no cycle of discharges is reached, whatever
      else the bag holds. */
  method Verify(secret: Bytes, ctx: Context, m: Macaroon, ghost rank: map<string, nat>) returns (ok: bool)
    requires RanksAll(ctx, m.caveats, rank)
    ensures ok <==> Accepts(secret, ctx, m, rank)
  {
    if m.version != 1 {
      return false;
    }
    var expected := WalkChain(InitialSignature(secret, m.identifier), m.caveats);
    if expected != m.signature {
      return false;
    }
    ok := VerifyCaveats(secret, ctx, m.caveats, rank, MaxRank(ctx, m.caveats, rank));
  }

  method VerifyCaveat(secret: Bytes, ctx: Context, c: Caveat, ghost rank: map<string, nat>) returns (ok: bool)
    requires Grounded(ctx.discharges, rank) && Ranks(ctx, c, rank)
    ensures ok <==> CaveatOk(secret, ctx, c, rank)
    decreases CaveatRank(ctx, c, rank), 1
  {
    if c.vid.Some? {
      ok := VerifyThirdParty(secret, ctx, c, rank);
    } else {
      ok := Judge(ctx, c.cid) == Yes;
    }
  }

  /** The recursive discharge check. */
  method VerifyThirdParty(secret: Bytes, ctx: Context, c: Caveat, ghost rank: map<string, nat>) returns (ok: bool)
    requires Grounded(ctx.discharges, rank) && Ranks(ctx, c, rank) && c.vid.Some?
    ensures ok <==> CaveatOk(secret, ctx, c, rank)
    decreases CaveatRank(ctx, c, rank), 0
  {
    var target := Target(c);
    if target == None || target.value !in ctx.discharges {
      return false;
    }
    ok := VerifyDischarge(secret, ctx, target.value, rank);
  }

  lemma RankFalls(ctx: Context, id: string, rank: map<string, nat>)
    requires Grounded(ctx.discharges, rank) && id in ctx.discharges && id in rank
    ensures var d := ctx.discharges[id];
            RanksAll(ctx, d.caveats, rank)
            && forall i | 0 <= i < |d.caveats| :: CaveatRank(ctx, d.caveats[i], rank) <= rank[id]
  {
  }

  method VerifyDischarge(secret: Bytes, ctx: Context, id: string, ghost rank: map<string, nat>) returns (ok: bool)
    requires Grounded(ctx.discharges, rank) && id in ctx.discharges && id in rank
    ensures ok <==> DischargeOk(secret, ctx, id, rank)
    decreases rank[id], 3
  {
    var d := ctx.discharges[id];
    var expected := WalkChain(InitialSignature(DeriveThirdPartyKey(secret, id), d.identifier), d.caveats);
    if expected != d.signature {
      return false;
    }
    RankFalls(ctx, id, rank);
    ok := VerifyCaveats(secret, ctx, d.caveats, rank, rank[id]);
  }
}
