/** Issuing and verifying credential receipts. */
module Receipts {
  import opened Wrappers
  import opened Text
  import opened Hex
  import opened Sorting
  import opened CanonicalJson
  import opened Signatures
  import opened DidKey
  import Base58

  const VC_CONTEXT_V2 := "https://www.w3.org/ns/credentials/v2"
  const AE402_CONTEXT := "https://ae402.dev/contexts/escrow-receipt/v1"

  function ReceiptType(event: string): Option<string> {
    if event == "release" then Some("EscrowReleaseReceipt")
    else if event == "refund" then Some("EscrowRefundReceipt")
    else if event == "resolve" then Some("EscrowResolveReceipt")
    else None
  }

  /** What a caller asks for. `amount` is any Python value, `issuanceDate` the formatted
      issuance time, `extra` the extra claims in insertion order. */
  datatype Request = Request(event: string, serviceHash: string, escrowId: string, payer: string, receiver: string,
                             amount: Json, asset: string, issuanceDate: string, extra: seq<Member>)

  datatype IssueError = UnknownEvent | AmountNotInt | AmountNegative | ServiceHashMissing
                      | ReservedClaim | UnsupportedClaim | BadIssuerKey

  function BaseSubject(r: Request): seq<Member> {
    [ Member("id", Str("urn:ae402:escrow:" + r.escrowId)),
      Member("type", Str("AE402Escrow")),
      Member("serviceHash", Str(r.serviceHash)),
      Member("event", Str(r.event)),
      Member("payer", Str(r.payer)),
      Member("receiver", Str(r.receiver)),
      Member("amount", Obj([Member("value", r.amount), Member("asset", Str(r.asset))])) ]
  }

  function Body(r: Request, receiptType: string, did: string): seq<Member> {
    [ Member("@context", Arr([Str(VC_CONTEXT_V2), Str(AE402_CONTEXT)])),
      Member("type", Arr([Str("VerifiableCredential"), Str(receiptType)])),
      Member("issuer", Str(did)),
      Member("issuanceDate", Str(r.issuanceDate)),
      Member("credentialSubject", Obj(BaseSubject(r) + r.extra)) ]
  }

  function AfterLastColon(s: string): string {
    if s == [] || s[|s| - 1] == ':' then [] else AfterLastColon(s[..|s| - 1]) + [s[|s| - 1]]
  }

  function MultibaseEncode(raw: seq<byte>): string {
    "z" + Base58.Encode(raw)
  }

  function MultibaseDecode(s: string): Option<seq<byte>> {
    if StartsWith(s, "z") then Base58.Decode(s[1..]) else None
  }

  function Proof(r: Request, did: string, signature: seq<byte>): Json {
    Obj([ Member("type", Str("Ed25519Signature2020")),
          Member("created", Str(r.issuanceDate)),
          Member("verificationMethod", Str(did + "#" + AfterLastColon(did))),
          Member("proofPurpose", Str("assertionMethod")),
          Member("proofValue", Str(MultibaseEncode(signature))) ])
  }

  predicate Collides(r: Request) {
    exists i | 0 <= i < |r.extra| :: HasKey(BaseSubject(r), r.extra[i].key)
  }

  function Issue(scheme: Scheme, secret: Key, r: Request): Result<Json, IssueError> {
    if ReceiptType(r.event) == None then Err(UnknownEvent)
    else if !r.amount.Int? then Err(AmountNotInt)
    else if r.amount.n < 0 then Err(AmountNegative)
    else if r.serviceHash == "" then Err(ServiceHashMissing)
    else if Collides(r) then Err(ReservedClaim)
    else match PubkeyToDidKey(scheme.publicKey(secret))
      case Err(_) => Err(BadIssuerKey)
      case Ok(did) =>
        var body := Body(r, ReceiptType(r.event).value, did);
        match Canonicalize(Obj(body))
        case Err(_) => Err(UnsupportedClaim)
        case Ok(text) => Ok(Obj(body + [Member("proof", Proof(r, did, scheme.sign(secret, text)))]))
  }

  // ----- verification -------------------------------------------------------------

  datatype VerifyError =
    SchemaError | IssuerMismatch | ProofMissing | ProofMalformed | SignatureInvalid | UnsupportedBody

  /** dict.get(key) */
  function Get(ms: seq<Member>, k: string): Json {
    if HasKey(ms, k) then ms[At(ms, k)].value else Null
  }

  predicate Falsy(v: Json) {
    match v
    case Null => true
    case Bool(b) => !b
    case Int(n) => n == 0
    case Str(s) => s == ""
    case Arr(vs) => vs == []
    case Obj(ms) => ms == []
    case _ => false
  }

  predicate ListsString(v: Json, s: string) {
    v.Arr? && exists i | 0 <= i < |v.items| :: v.items[i] == Str(s)
  }

  function WithoutProof(ms: seq<Member>): (r: seq<Member>)
    ensures forall m | m in r :: m in ms
  {
    if ms == [] then []
    else if ms[0].key == "proof" then WithoutProof(ms[1..])
    else [ms[0]] + WithoutProof(ms[1..])
  }

  function CheckProof(proof: Json, issuerDid: string): Result<seq<byte>, VerifyError> {
    match PartsOfProof(proof)
    case Err(e) => Err(e)
    case Ok(parts) => CheckParts(parts, issuerDid)
  }

  function PartsOfProof(proof: Json): Result<ProofParts, VerifyError> {
    if Falsy(proof) then Err(ProofMissing)
    else if !proof.Obj? then Err(ProofMalformed)
    else Ok(PartsOf(proof.members))
  }

  datatype ProofParts = ProofParts(kind: Json, purpose: Json, key: Json, value: Json)

  function PartsOf(ms: seq<Member>): ProofParts {
    ProofParts(Get(ms, "type"), Get(ms, "proofPurpose"), Get(ms, "verificationMethod"), Get(ms, "proofValue"))
  }

  function CheckParts(p: ProofParts, issuerDid: string): Result<seq<byte>, VerifyError> {
    if p.kind != Str("Ed25519Signature2020") || p.purpose != Str("assertionMethod") then Err(ProofMalformed)
    else if !p.key.Str? || !StartsWith(p.key.s, issuerDid) || !p.value.Str? then Err(ProofMalformed)
    else match MultibaseDecode(p.value.s)
      case None => Err(ProofMalformed)
      case Some(signature) => if |signature| != 64 then Err(ProofMalformed) else Ok(signature)
  }

  function Verify(scheme: Scheme, credential: Json, expectedIssuer: Option<string>): Result<Json, VerifyError> {
    if !credential.Obj? then Err(SchemaError)
    else
      var ms := credential.members;
      if !(HasKey(ms, "@context") && HasKey(ms, "type") && HasKey(ms, "issuer")
           && HasKey(ms, "issuanceDate") && HasKey(ms, "credentialSubject")) then Err(SchemaError)
      else if !ListsString(Get(ms, "@context"), VC_CONTEXT_V2) then Err(SchemaError)
      else if !ListsString(Get(ms, "type"), "VerifiableCredential") then Err(SchemaError)
      else
        var issuer := Get(ms, "issuer");
        if !issuer.Str? || !StartsWith(issuer.s, "did:key:") then Err(SchemaError)
        else if expectedIssuer.Some? && issuer.s != expectedIssuer.value then Err(IssuerMismatch)
        else if CheckSignature(scheme, ms, issuer.s).Err? then Err(CheckSignature(scheme, ms, issuer.s).error)
        else Ok(credential)
  }

  /** The proof of a credential with this issuer. */
  function CheckSignature(scheme: Scheme, ms: seq<Member>, did: string): Result<(), VerifyError> {
    match CheckProof(Get(ms, "proof"), did)
    case Err(e) => Err(e)
    case Ok(signature) =>
      match DidKeyToPubkey(did)
      case Err(_) => Err(ProofMalformed)
      case Ok(pubkey) =>
        match Canonicalize(Obj(WithoutProof(ms)))
        case Err(_) => Err(UnsupportedBody)
        case Ok(text) =>
          if scheme.verify(pubkey, signature, text) then Ok(()) else Err(SignatureInvalid)
  }

  // ----- issue, then verify ---------------------------------------------------------

  lemma GetAt(ms: seq<Member>, k: string, i: nat)
    requires NoDuplicates(Keys(ms)) && i < |ms| && ms[i].key == k
    ensures HasKey(ms, k) && Get(ms, k) == ms[i].value
  {
    AtUnique(ms, k, i);
  }

  lemma {:induction false} WithoutProofKeeps(ms: seq<Member>, p: Json)
    requires !HasKey(ms, "proof")
    ensures WithoutProof(ms + [Member("proof", p)]) == ms
  {
    if ms == [] {
      assert WithoutProof([]) == [];
      assert (ms + [Member("proof", p)])[1..] == [];
    } else {
      assert ms[0].key != "proof";
      assert forall i | 0 <= i < |ms[1..]| :: ms[1..][i] == ms[i + 1];
      WithoutProofKeeps(ms[1..], p);
      assert (ms + [Member("proof", p)])[1..] == ms[1..] + [Member("proof", p)];
    }
  }

  lemma MultibaseRoundTrip(raw: seq<byte>)
    ensures MultibaseDecode(MultibaseEncode(raw)) == Some(raw)
  {
    assert MultibaseEncode(raw)[1..] == Base58.Encode(raw);
    Base58.DecodeEncode(raw);
  }

  lemma ProofKeys(r: Request, did: string, signature: seq<byte>)
    ensures NoDuplicates(Keys(Proof(r, did, signature).members))
  {
    var ms := Proof(r, did, signature).members;
    assert |ms[0].key| == 4 && |ms[1].key| == 7 && |ms[2].key| == 18 && |ms[3].key| == 12 && |ms[4].key| == 10;
    assert |Keys(ms)[0]| == 4 && |Keys(ms)[1]| == 7 && |Keys(ms)[2]| == 18 && |Keys(ms)[3]| == 12
          && |Keys(ms)[4]| == 10;
  }

  /** The parts of the proofs that Issue makes. */
  function OwnParts(vm: string, value: string): ProofParts {
    ProofParts(Str("Ed25519Signature2020"), Str("assertionMethod"), Str(vm), Str(value))
  }

  lemma ProofFields(r: Request, did: string, signature: seq<byte>)
    ensures PartsOf(Proof(r, did, signature).members)
          == OwnParts(did + "#" + AfterLastColon(did), MultibaseEncode(signature))
  {
    var ms := Proof(r, did, signature).members;
    ProofKeys(r, did, signature);
    GetAt(ms, "type", 0);
    GetAt(ms, "proofPurpose", 3);
    GetAt(ms, "verificationMethod", 2);
    GetAt(ms, "proofValue", 4);
  }

  lemma ProofPartsFound(r: Request, did: string, signature: seq<byte>)
    ensures PartsOfProof(Proof(r, did, signature))
          == Ok(OwnParts(did + "#" + AfterLastColon(did), MultibaseEncode(signature)))
  {
    ProofFields(r, did, signature);
    PartsOfMembers(Proof(r, did, signature).members);
  }

  lemma PartsOfMembers(ms: seq<Member>)
    requires ms != []
    ensures PartsOfProof(Obj(ms)) == Ok(PartsOf(ms))
  {
  }

  lemma CheckOfParts(proof: Json, did: string, parts: ProofParts, signature: seq<byte>)
    requires PartsOfProof(proof) == Ok(parts) && CheckParts(parts, did) == Ok(signature)
    ensures CheckProof(proof, did) == Ok(signature)
  {
  }

  lemma ProofAccepted(r: Request, did: string, signature: seq<byte>)
    requires |signature| == 64
    ensures CheckProof(Proof(r, did, signature), did) == Ok(signature)
  {
    var vm, value := did + "#" + AfterLastColon(did), MultibaseEncode(signature);
    ProofPartsFound(r, did, signature);
    MultibaseRoundTrip(signature);
    StartsWithItself(did, "#", AfterLastColon(did));
    PartsPass(did, vm, value, signature);
    CheckOfParts(Proof(r, did, signature), did, OwnParts(vm, value), signature);
  }

  lemma StartsWithItself(s: string, a: string, b: string)
    ensures StartsWith(s + a + b, s)
  {
  }

  lemma PartsPass(did: string, vm: string, value: string, signature: seq<byte>)
    requires |signature| == 64 && MultibaseDecode(value) == Some(signature) && StartsWith(vm, did)
    ensures CheckParts(OwnParts(vm, value), did) == Ok(signature)
  {
  }

  lemma CredentialKeys(r: Request, receiptType: string, did: string, p: Json)
    ensures NoDuplicates(Keys(Body(r, receiptType, did) + [Member("proof", p)]))
    ensures !HasKey(Body(r, receiptType, did), "proof")
  {
    var ms := Body(r, receiptType, did) + [Member("proof", p)];
    forall i, j | 0 <= i < j < |ms|
      ensures Keys(ms)[i] != Keys(ms)[j]
    {
      assert |ms[i].key| != |ms[j].key|;
    }
    assert forall i | 0 <= i < 5 :: Keys(ms)[i] == Body(r, receiptType, did)[i].key && Keys(ms)[5] == "proof";
  }

  /** When Issue succeeds. */
  predicate Issuable(r: Request) {
    && ReceiptType(r.event).Some? && r.amount.Int? && r.amount.n >= 0 && r.serviceHash != ""
    && !Collides(r) && Supported(Obj(r.extra))
  }

  lemma BodySupported(r: Request, receiptType: string, did: string)
    requires r.amount.Int?
    ensures Supported(Obj(Body(r, receiptType, did))) <==> Supported(Obj(r.extra))
  {
    var subject := BaseSubject(r) + r.extra;
    assert Supported(Obj(subject)) <==> Supported(Obj(r.extra)) by {
      assert forall i | 0 <= i < |r.extra| :: subject[7 + i] == r.extra[i];
      assert Supported(subject[6].value);
      assert forall i | 0 <= i < 7 :: Supported(subject[i].value);
    }
    var body := Body(r, receiptType, did);
    assert forall i | 0 <= i < 4 :: Supported(body[i].value);
    assert body[4].value == Obj(subject);
  }

  function Credential(scheme: Scheme, secret: Key, r: Request, receiptType: string, did: string): Json
    requires Supported(Obj(Body(r, receiptType, did)))
  {
    var body := Body(r, receiptType, did);
    Obj(body + [Member("proof", Proof(r, did, scheme.sign(secret, Print(Obj(body)))))])
  }

  /** When a receipt is issued, and which. */
  lemma IssueExactly(scheme: Scheme, secret: Key, r: Request, did: string)
    requires PubkeyToDidKey(scheme.publicKey(secret)) == Ok(did)
    ensures Issue(scheme, secret, r).Ok? <==> Issuable(r)
    ensures Issuable(r) ==>
      var receiptType := ReceiptType(r.event).value;
      Supported(Obj(Body(r, receiptType, did)))
      && Issue(scheme, secret, r) == Ok(Credential(scheme, secret, r, receiptType, did))
  {
    if ReceiptType(r.event).Some? && r.amount.Int? {
      BodySupported(r, ReceiptType(r.event).value, did);
    }
  }

  /** A receipt is issued for exactly the issuable requests, and every issued receipt is
      accepted for the issuer it names. */
  lemma IssueThenVerify(scheme: Scheme, secret: Key, r: Request)
    requires scheme.Correct(secret)
    ensures Issue(scheme, secret, r).Ok? <==> Issuable(r)
    ensures Issuable(r) ==>
      var c := Issue(scheme, secret, r).value;
      Verify(scheme, c, Some(PubkeyToDidKey(scheme.publicKey(secret)).value)) == Ok(c)
  {
    var did := PubkeyToDidKey(scheme.publicKey(secret)).value;
    IssueExactly(scheme, secret, r, did);
    if Issuable(r) {
      AcceptsOwn(scheme, secret, r, ReceiptType(r.event).value, did);
    }
  }

  lemma CredentialFields(r: Request, receiptType: string, did: string, proof: Json)
    ensures
      var ms := Body(r, receiptType, did) + [Member("proof", proof)];
      && HasKey(ms, "@context") && HasKey(ms, "type") && HasKey(ms, "issuer")
      && HasKey(ms, "issuanceDate") && HasKey(ms, "credentialSubject")
      && ListsString(Get(ms, "@context"), VC_CONTEXT_V2)
      && ListsString(Get(ms, "type"), "VerifiableCredential")
      && Get(ms, "issuer") == Str(did)
      && Get(ms, "proof") == proof
  {
    var ms := Body(r, receiptType, did) + [Member("proof", proof)];
    CredentialKeys(r, receiptType, did, proof);
    GetAt(ms, "@context", 0);
    GetAt(ms, "type", 1);
    GetAt(ms, "issuer", 2);
    GetAt(ms, "issuanceDate", 3);
    GetAt(ms, "credentialSubject", 4);
    GetAt(ms, "proof", 5);
    assert Get(ms, "@context").items[0] == Str(VC_CONTEXT_V2);
    assert Get(ms, "type").items[0] == Str("VerifiableCredential");
  }

  /** What a credential must offer for Verify to accept it. */
  lemma VerifySuffices(scheme: Scheme, ms: seq<Member>, did: string, signature: seq<byte>, pk: Key, text: string)
    requires HasKey(ms, "@context") && HasKey(ms, "type") && HasKey(ms, "issuer")
    requires HasKey(ms, "issuanceDate") && HasKey(ms, "credentialSubject")
    requires ListsString(Get(ms, "@context"), VC_CONTEXT_V2) && ListsString(Get(ms, "type"), "VerifiableCredential")
    requires Get(ms, "issuer") == Str(did) && StartsWith(did, "did:key:")
    requires CheckProof(Get(ms, "proof"), did) == Ok(signature)
    requires DidKeyToPubkey(did) == Ok(pk)
    requires Canonicalize(Obj(WithoutProof(ms))) == Ok(text) && scheme.verify(pk, signature, text)
    ensures Verify(scheme, Obj(ms), Some(did)) == Ok(Obj(ms))
  {
  }

  lemma AcceptsOwn(scheme: Scheme, secret: Key, r: Request, receiptType: string, did: string)
    requires scheme.Correct(secret) && PubkeyToDidKey(scheme.publicKey(secret)) == Ok(did)
    requires Supported(Obj(Body(r, receiptType, did)))
    ensures
      var c := Credential(scheme, secret, r, receiptType, did);
      Verify(scheme, c, Some(did)) == Ok(c)
  {
    var body := Body(r, receiptType, did);
    var text := Print(Obj(body));
    var signature := scheme.sign(secret, text);
    var proof := Proof(r, did, signature);
    CredentialKeys(r, receiptType, did, proof);
    CredentialFields(r, receiptType, did, proof);
    ProofAccepted(r, did, signature);
    DidKeyBijection(scheme.publicKey(secret), did);
    WithoutProofKeeps(body, proof);
    VerifySuffices(scheme, body + [Member("proof", proof)], did, signature, scheme.publicKey(secret), text);
  }

  // ----- insertion order of the extra claims --------------------------------------------

  lemma BaseDistinct(r: Request)
    ensures NoDuplicates(Keys(BaseSubject(r)))
  {
    var bs := BaseSubject(r);
    assert |bs[0].key| == 2 && |bs[1].key| == 4 && |bs[2].key| == 11 && |bs[3].key| == 5
           && |bs[4].key| == 5 && |bs[5].key| == 8 && |bs[6].key| == 6;
    assert bs[3].key[0] == 'e' && bs[4].key[0] == 'p';
  }

  lemma SubjectKeys(r: Request)
    requires WellFormed(Obj(r.extra)) && !Collides(r)
    ensures NoDuplicates(Keys(BaseSubject(r) + r.extra))
  {
    var bs := BaseSubject(r);
    var ms := bs + r.extra;
    BaseDistinct(r);
    forall i, j | 0 <= i < j < |ms|
      ensures Keys(ms)[i] != Keys(ms)[j]
    {
      if j < |bs| {
        assert Keys(bs)[i] != Keys(bs)[j];
      } else if i >= |bs| {
        assert Keys(r.extra)[i - |bs|] != Keys(r.extra)[j - |bs|];
      } else {
        assert !HasKey(bs, r.extra[j - |bs|].key);
        assert bs[i].key != r.extra[j - |bs|].key;
      }
    }
  }

  lemma BodyKeys(r: Request, receiptType: string, did: string)
    ensures NoDuplicates(Keys(Body(r, receiptType, did)))
  {
    CredentialKeys(r, receiptType, did, Null);
    var body := Body(r, receiptType, did);
    assert forall i | 0 <= i < |body| :: Keys(body)[i] == Keys(body + [Member("proof", Null)])[i];
  }

  lemma BodyWellFormed(r: Request, receiptType: string, did: string)
    requires WellFormed(Obj(r.extra)) && !Collides(r) && r.amount.Int?
    ensures WellFormed(Obj(Body(r, receiptType, did)))
  {
    SubjectKeys(r);
    BodyKeys(r, receiptType, did);
    var bs := BaseSubject(r);
    var amount := bs[6].value;
    assert WellFormed(amount) by {
      assert |amount.members[0].key| == 5 && amount.members[0].key[0] == 'v' && amount.members[1].key[0] == 'a';
    }
    var subject := bs + r.extra;
    assert forall i | 0 <= i < 7 :: subject[i] == bs[i] && WellFormed(bs[i].value);
    assert forall i | 7 <= i < |subject| :: subject[i] == r.extra[i - 7];
    var body := Body(r, receiptType, did);
    assert WellFormed(body[4].value);
    assert forall i | 0 <= i < 4 :: WellFormed(body[i].value);
  }

  lemma CollisionsAgree(r: Request, extra: seq<Member>)
    requires Same(Obj(r.extra), Obj(extra))
    ensures Collides(r) <==> Collides(r.(extra := extra))
  {
    assert Obj(r.extra).members == r.extra && Obj(extra).members == extra;
    CollisionsCarry(r, extra);
    CollisionsCarry(r.(extra := extra), r.extra);
    assert r.(extra := extra).(extra := r.extra) == r;
  }

  lemma CollisionsCarry(r: Request, extra: seq<Member>)
    requires forall k :: HasKey(r.extra, k) <==> HasKey(extra, k)
    ensures Collides(r) ==> Collides(r.(extra := extra))
  {
    if Collides(r) {
      var i :| 0 <= i < |r.extra| && HasKey(BaseSubject(r), r.extra[i].key);
      var k := r.extra[i].key;
      assert HasKey(r.extra, k);
      var j := At(extra, k);
      assert BaseSubject(r) == BaseSubject(r.(extra := extra));
    }
  }

  lemma BodiesSame(r: Request, extra: seq<Member>, receiptType: string, did: string)
    requires WellFormed(Obj(r.extra)) && WellFormed(Obj(extra)) && Same(Obj(r.extra), Obj(extra))
    requires !Collides(r) && !Collides(r.(extra := extra)) && r.amount.Int?
    ensures Same(Obj(Body(r, receiptType, did)), Obj(Body(r.(extra := extra), receiptType, did)))
  {
    var r' := r.(extra := extra);
    SubjectKeys(r);
    SubjectKeys(r');
    assert BaseSubject(r) == BaseSubject(r');
    SameConcat(BaseSubject(r), r.extra, extra);
    BodyKeys(r, receiptType, did);
    BodyKeys(r', receiptType, did);
    var b, b' := Body(r, receiptType, did), Body(r', receiptType, did);
    forall i | 0 <= i < |b|
      ensures b[i].key == b'[i].key && Same(b[i].value, b'[i].value)
    {
      if i < 4 {
        assert b[i] == b'[i];
        SameReflexive(b[i].value);
      }
    }
    SamePointwise(b, b');
  }

  predicate PassesChecks(scheme: Scheme, secret: Key, r: Request) {
    && ReceiptType(r.event).Some? && r.amount.Int? && r.amount.n >= 0 && r.serviceHash != "" && !Collides(r)
    && PubkeyToDidKey(scheme.publicKey(secret)).Ok?
  }

  lemma IssueEarly(scheme: Scheme, secret: Key, r: Request, extra: seq<Member>)
    requires !PassesChecks(scheme, secret, r)
    requires Collides(r) <==> Collides(r.(extra := extra))
    ensures Issue(scheme, secret, r).Err? && Issue(scheme, secret, r) == Issue(scheme, secret, r.(extra := extra))
  {
  }

  lemma IssueLate(scheme: Scheme, secret: Key, r: Request, receiptType: string, did: string)
    requires PassesChecks(scheme, secret, r)
    requires ReceiptType(r.event) == Some(receiptType) && PubkeyToDidKey(scheme.publicKey(secret)) == Ok(did)
    ensures
      var body := Body(r, receiptType, did);
      Issue(scheme, secret, r) ==
        if Supported(Obj(body)) then
          Ok(Obj(body + [Member("proof", Proof(r, did, scheme.sign(secret, Print(Obj(body)))))]))
        else Err(UnsupportedClaim)
  {
  }

  /** The insertion order of the extra claims does not matter: the same outcome, the same
      error or the same proof over an equal credential. */
  lemma ClaimOrderIrrelevant(scheme: Scheme, secret: Key, r: Request, extra: seq<Member>)
    requires WellFormed(Obj(r.extra)) && WellFormed(Obj(extra)) && Same(Obj(r.extra), Obj(extra))
    ensures
      var c, c' := Issue(scheme, secret, r), Issue(scheme, secret, r.(extra := extra));
      && (c.Err? ==> c' == c)
      && (c.Ok? ==> c'.Ok? && Same(Obj(WithoutProof(c.value.members)), Obj(WithoutProof(c'.value.members)))
                    && Get(c.value.members, "proof") == Get(c'.value.members, "proof"))
  {
    var r' := r.(extra := extra);
    CollisionsAgree(r, extra);
    if PassesChecks(scheme, secret, r) {
      var receiptType, did := ReceiptType(r.event).value, PubkeyToDidKey(scheme.publicKey(secret)).value;
      IssueLate(scheme, secret, r, receiptType, did);
      IssueLate(scheme, secret, r', receiptType, did);
      BodyTexts(r, extra, receiptType, did);
      if Supported(Obj(Body(r, receiptType, did))) {
        var p := Proof(r, did, scheme.sign(secret, Print(Obj(Body(r, receiptType, did)))));
        SameIssue(r, r', receiptType, did, p);
      }
    } else {
      IssueEarly(scheme, secret, r, extra);
    }
  }

  lemma BodyTexts(r: Request, extra: seq<Member>, receiptType: string, did: string)
    requires WellFormed(Obj(r.extra)) && WellFormed(Obj(extra)) && Same(Obj(r.extra), Obj(extra))
    requires !Collides(r) && !Collides(r.(extra := extra)) && r.amount.Int?
    ensures
      var b, b' := Obj(Body(r, receiptType, did)), Obj(Body(r.(extra := extra), receiptType, did));
      Same(b, b') && (Supported(b) <==> Supported(b')) && (Supported(b) ==> Print(b) == Print(b'))
  {
    var b, b' := Obj(Body(r, receiptType, did)), Obj(Body(r.(extra := extra), receiptType, did));
    BodyWellFormed(r, receiptType, did);
    BodyWellFormed(r.(extra := extra), receiptType, did);
    BodiesSame(r, extra, receiptType, did);
    SameSupported(b, b');
    if Supported(b) {
      SamePrint(b, b');
    }
  }

  lemma SameIssue(r: Request, r': Request, receiptType: string, did: string, p: Json)
    requires Same(Obj(Body(r, receiptType, did)), Obj(Body(r', receiptType, did)))
    ensures
      var ms := Body(r, receiptType, did) + [Member("proof", p)];
      var ms' := Body(r', receiptType, did) + [Member("proof", p)];
      Same(Obj(WithoutProof(ms)), Obj(WithoutProof(ms'))) && Get(ms, "proof") == p == Get(ms', "proof")
  {
    CredentialKeys(r, receiptType, did, p);
    CredentialKeys(r', receiptType, did, p);
    WithoutProofKeeps(Body(r, receiptType, did), p);
    WithoutProofKeeps(Body(r', receiptType, did), p);
    CredentialFields(r, receiptType, did, p);
    CredentialFields(r', receiptType, did, p);
  }

  // ----- tampering ------------------------------------------------------------------------

  /** What acceptance by Verify comes down to. */
  lemma AcceptedMeans(scheme: Scheme, c: Json) returns (pk: Key, signature: seq<byte>, text: string)
    requires Verify(scheme, c, None).Ok?
    ensures c.Obj? && ListsString(Get(c.members, "@context"), VC_CONTEXT_V2)
    ensures ListsString(Get(c.members, "type"), "VerifiableCredential")
    ensures Get(c.members, "issuer").Str? && DidKeyToPubkey(Get(c.members, "issuer").s) == Ok(pk)
    ensures ProofValue(c) == Some(signature) && |signature| == 64
    ensures Canonicalize(Obj(WithoutProof(c.members))) == Ok(text)
    ensures scheme.verify(pk, signature, text)
  {
    var ms := c.members;
    pk := DidKeyToPubkey(Get(ms, "issuer").s).value;
    signature := CheckProof(Get(ms, "proof"), Get(ms, "issuer").s).value;
    text := Canonicalize(Obj(WithoutProof(ms))).value;
  }

  /** The signature bytes a credential carries. */
  function ProofValue(c: Json): Option<seq<byte>>
    requires c.Obj?
  {
    var proof := Get(c.members, "proof");
    if !proof.Obj? then None
    else
      var value := Get(proof.members, "proofValue");
      if value.Str? then MultibaseDecode(value.s) else None
  }

  /** What the signature of a credential is over. */
  function SignedText(c: Json): Result<string, TypeError>
    requires c.Obj?
  {
    Canonicalize(Obj(WithoutProof(c.members)))
  }

  /** With signatures that bind their message, a proof fits one credential body only: any
      two accepted credentials with the same issuer and signature agree on everything
      outside the proof, up to dict order. */
  lemma ProofFixesBody(scheme: Scheme, c: Json, d: Json, pk: Key)
    requires Verify(scheme, c, None).Ok? && Verify(scheme, d, None).Ok?
    requires WellFormed(Obj(WithoutProof(c.members))) && WellFormed(Obj(WithoutProof(d.members)))
    requires Get(c.members, "issuer") == Get(d.members, "issuer") && ProofValue(c) == ProofValue(d)
    requires DidKeyToPubkey(Get(c.members, "issuer").s) == Ok(pk)
    requires SignedText(c).Ok? && SignedText(d).Ok? && scheme.Binding(pk, {SignedText(c).value, SignedText(d).value})
    ensures Same(Obj(WithoutProof(c.members)), Obj(WithoutProof(d.members)))
  {
    var pk1, signature, text := AcceptedMeans(scheme, c);
    var pk2, signature', text' := AcceptedMeans(scheme, d);
    CanonicalExact(Obj(WithoutProof(c.members)), Obj(WithoutProof(d.members)));
  }
}
