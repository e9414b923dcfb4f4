/** Which claim of an issued credential says what, read off it by key. */
module ReceiptClaims {
  import opened Wrappers
  import opened Text
  import opened Hex
  import opened CanonicalJson
  import opened Signatures
  import opened DidKey
  import opened Receipts

  // ----- the subject -------------------------------------------------------------------------------

  predicate BaseKey(k: string) {
    k in {"id", "type", "serviceHash", "event", "payer", "receiver", "amount"}
  }

  lemma BaseKeys(r: Request, k: string)
    ensures HasKey(BaseSubject(r), k) <==> BaseKey(k)
  {
    var bs := BaseSubject(r);
    assert bs[0].key == "id" && bs[1].key == "type" && bs[2].key == "serviceHash" && bs[3].key == "event"
           && bs[4].key == "payer" && bs[5].key == "receiver" && bs[6].key == "amount";
  }

  lemma BaseSays(r: Request)
    ensures
      var bs := BaseSubject(r);
      && Get(bs, "id") == Str("urn:ae402:escrow:" + r.escrowId) && Get(bs, "type") == Str("AE402Escrow")
      && Get(bs, "serviceHash") == Str(r.serviceHash) && Get(bs, "event") == Str(r.event)
      && Get(bs, "payer") == Str(r.payer) && Get(bs, "receiver") == Str(r.receiver)
      && Get(bs, "amount") == Obj([Member("value", r.amount), Member("asset", Str(r.asset))])
  {
    var bs := BaseSubject(r);
    BaseDistinct(r);
    GetAt(bs, "id", 0);
    GetAt(bs, "type", 1);
    GetAt(bs, "serviceHash", 2);
    GetAt(bs, "event", 3);
    GetAt(bs, "payer", 4);
    GetAt(bs, "receiver", 5);
    GetAt(bs, "amount", 6);
  }

  /** A claim comes from the base, or from the extra ones. */
  lemma SubjectFrom(bs: seq<Member>, extra: seq<Member>, k: string)
    ensures HasKey(bs + extra, k) <==> HasKey(bs, k) || HasKey(extra, k)
    ensures Get(bs + extra, k) == if HasKey(bs, k) then Get(bs, k) else Get(extra, k)
  {
    HasKeyConcat(bs, extra, k);
    if HasKey(bs + extra, k) {
      AtConcat(bs, extra, k);
    }
  }

  ghost predicate SubjectSays(s: Json, r: Request) {
    && s.Obj?
    && (forall k :: HasKey(s.members, k) <==> BaseKey(k) || HasKey(r.extra, k))
    && Get(s.members, "id") == Str("urn:ae402:escrow:" + r.escrowId) && Get(s.members, "type") == Str("AE402Escrow")
    && Get(s.members, "serviceHash") == Str(r.serviceHash) && Get(s.members, "event") == Str(r.event)
    && Get(s.members, "payer") == Str(r.payer) && Get(s.members, "receiver") == Str(r.receiver)
    && Get(s.members, "amount") == Obj([Member("value", r.amount), Member("asset", Str(r.asset))])
    && forall k | HasKey(r.extra, k) :: Get(s.members, k) == Get(r.extra, k)
  }

  lemma SubjectOf(r: Request)
    requires !Collides(r)
    ensures SubjectSays(Obj(BaseSubject(r) + r.extra), r)
  {
    var bs := BaseSubject(r);
    BaseSays(r);
    forall k
      ensures HasKey(bs + r.extra, k) <==> BaseKey(k) || HasKey(r.extra, k)
      ensures BaseKey(k) ==> Get(bs + r.extra, k) == Get(bs, k)
      ensures HasKey(r.extra, k) ==> Get(bs + r.extra, k) == Get(r.extra, k)
    {
      BaseKeys(r, k);
      SubjectFrom(bs, r.extra, k);
      if HasKey(r.extra, k) {
        assert r.extra[At(r.extra, k)].key == k;
      }
    }
    assert BaseKey("id") && BaseKey("type") && BaseKey("serviceHash") && BaseKey("event") && BaseKey("payer")
           && BaseKey("receiver") && BaseKey("amount");
  }

  // ----- the credential ------------------------------------------------------------------------------

  predicate TypeName(event: string, name: string) {
    || (event == "release" && name == "EscrowReleaseReceipt")
    || (event == "refund" && name == "EscrowRefundReceipt")
    || (event == "resolve" && name == "EscrowResolveReceipt")
  }

  ghost predicate ProofSays(p: Json, r: Request, did: string, signature: seq<byte>) {
    && p.Obj?
    && (forall k :: HasKey(p.members, k)
                    <==> k in {"type", "created", "verificationMethod", "proofPurpose", "proofValue"})
    && Get(p.members, "type") == Str("Ed25519Signature2020") && Get(p.members, "created") == Str(r.issuanceDate)
    && Get(p.members, "proofPurpose") == Str("assertionMethod")
    && (exists fragment: string ::
          Get(p.members, "verificationMethod") == Str(did + "#" + fragment) && LastPart(did, fragment))
    && Get(p.members, "proofValue").Str? && MultibaseDecode(Get(p.members, "proofValue").s) == Some(signature)
  }

  /** did.split(":")[-1] */
  predicate LastPart(did: string, part: string) {
    Lacks(part, ':') && (part == did || (|part| < |did| && did[|did| - |part| - 1..] == ":" + part))
  }

  lemma {:induction false} LastPartFound(s: string)
    ensures LastPart(s, AfterLastColon(s))
    decreases |s|
  {
    if s != [] && s[|s| - 1] != ':' {
      var n := |s| - 1;
      LastPartFound(s[..n]);
      var part := AfterLastColon(s[..n]);
      assert AfterLastColon(s) == part + [s[n]];
      if part == s[..n] {
        assert s == s[..n] + [s[n]];
      } else {
        assert s[..n][n - |part| - 1..] + [s[n]] == s[n - |part| - 1..];
        assert (":" + part) + [s[n]] == ":" + (part + [s[n]]);
      }
    }
  }

  lemma ProofHasKeys(r: Request, did: string, signature: seq<byte>, k: string)
    ensures HasKey(Proof(r, did, signature).members, k)
            <==> k in {"type", "created", "verificationMethod", "proofPurpose", "proofValue"}
  {
    var ms := Proof(r, did, signature).members;
    assert ms[0].key == "type" && ms[1].key == "created" && ms[2].key == "verificationMethod"
           && ms[3].key == "proofPurpose" && ms[4].key == "proofValue" && |ms| == 5;
  }

  lemma CreatedThen(r: Request, did: string, signature: seq<byte>)
    ensures Get(Proof(r, did, signature).members, "created") == Str(r.issuanceDate)
  {
    ProofKeys(r, did, signature);
    GetAt(Proof(r, did, signature).members, "created", 1);
  }

  lemma ProofOf(r: Request, did: string, signature: seq<byte>)
    ensures ProofSays(Proof(r, did, signature), r, did, signature)
  {
    var p, fragment := Proof(r, did, signature), AfterLastColon(did);
    CreatedThen(r, did, signature);
    ProofFields(r, did, signature);
    MultibaseRoundTrip(signature);
    LastPartFound(did);
    forall k
      ensures HasKey(p.members, k)
              <==> k in {"type", "created", "verificationMethod", "proofPurpose", "proofValue"}
    {
      ProofHasKeys(r, did, signature, k);
    }
    PartsSay(p.members, did, fragment, MultibaseEncode(signature));
    assert Get(p.members, "verificationMethod") == Str(did + "#" + fragment) && LastPart(did, fragment);
  }

  lemma PartsSay(ms: seq<Member>, did: string, fragment: string, value: string)
    requires PartsOf(ms) == OwnParts(did + "#" + fragment, value)
    ensures Get(ms, "type") == Str("Ed25519Signature2020") && Get(ms, "proofPurpose") == Str("assertionMethod")
    ensures Get(ms, "verificationMethod") == Str(did + "#" + fragment) && Get(ms, "proofValue") == Str(value)
  {
  }

  /** What the members of an issued credential say. */
  ghost predicate MembersSay(ms: seq<Member>, r: Request, did: string, signature: seq<byte>) {
    && (forall k :: HasKey(ms, k)
                    <==> k in {"@context", "type", "issuer", "issuanceDate", "credentialSubject", "proof"})
    && Get(ms, "@context")
       == Arr([Str("https://www.w3.org/ns/credentials/v2"), Str("https://ae402.dev/contexts/escrow-receipt/v1")])
    && (exists name: string ::
          Get(ms, "type") == Arr([Str("VerifiableCredential"), Str(name)]) && TypeName(r.event, name))
    && Get(ms, "issuer") == Str(did) && Get(ms, "issuanceDate") == Str(r.issuanceDate)
    && SubjectSays(Get(ms, "credentialSubject"), r) && ProofSays(Get(ms, "proof"), r, did, signature)
  }

  /** The same with the issuer's DID and the signature over the canonical text of the rest. */
  ghost predicate Says(scheme: Scheme, secret: Key, r: Request, c: Json) {
    && c.Obj? && PubkeyToDidKey(scheme.publicKey(secret)).Ok? && Canonicalize(Obj(WithoutProof(c.members))).Ok?
    && MembersSay(c.members, r, PubkeyToDidKey(scheme.publicKey(secret)).value,
                  scheme.sign(secret, Canonicalize(Obj(WithoutProof(c.members))).value))
  }

  lemma BodySays(r: Request, receiptType: string, did: string, proof: Json)
    ensures
      var ms := Body(r, receiptType, did) + [Member("proof", proof)];
      && (forall k :: HasKey(ms, k)
                      <==> k in {"@context", "type", "issuer", "issuanceDate", "credentialSubject", "proof"})
      && Get(ms, "@context")
         == Arr([Str("https://www.w3.org/ns/credentials/v2"), Str("https://ae402.dev/contexts/escrow-receipt/v1")])
      && Get(ms, "type") == Arr([Str("VerifiableCredential"), Str(receiptType)]) && Get(ms, "issuer") == Str(did)
      && Get(ms, "issuanceDate") == Str(r.issuanceDate)
      && Get(ms, "credentialSubject") == Obj(BaseSubject(r) + r.extra) && Get(ms, "proof") == proof
  {
    var ms := Body(r, receiptType, did) + [Member("proof", proof)];
    CredentialKeys(r, receiptType, did, proof);
    assert ms[0].key == "@context" && ms[1].key == "type" && ms[2].key == "issuer" && ms[3].key == "issuanceDate"
           && ms[4].key == "credentialSubject" && ms[5].key == "proof" && |ms| == 6;
    GetAt(ms, "@context", 0);
    GetAt(ms, "type", 1);
    GetAt(ms, "issuer", 2);
    GetAt(ms, "issuanceDate", 3);
    GetAt(ms, "credentialSubject", 4);
    GetAt(ms, "proof", 5);
  }

  lemma AllSay(r: Request, receiptType: string, did: string, signature: seq<byte>)
    requires !Collides(r) && TypeName(r.event, receiptType)
    ensures MembersSay(Body(r, receiptType, did) + [Member("proof", Proof(r, did, signature))], r, did, signature)
  {
    BodySays(r, receiptType, did, Proof(r, did, signature));
    SubjectOf(r);
    ProofOf(r, did, signature);
  }

  lemma CredentialSays(scheme: Scheme, secret: Key, r: Request, receiptType: string, did: string)
    requires scheme.Correct(secret) && PubkeyToDidKey(scheme.publicKey(secret)) == Ok(did)
    requires Supported(Obj(Body(r, receiptType, did))) && !Collides(r) && TypeName(r.event, receiptType)
    ensures Says(scheme, secret, r, Credential(scheme, secret, r, receiptType, did))
  {
    var body := Body(r, receiptType, did);
    var signature := scheme.sign(secret, Print(Obj(body)));
    AllSay(r, receiptType, did, signature);
    CredentialKeys(r, receiptType, did, Proof(r, did, signature));
    WithoutProofKeeps(body, Proof(r, did, signature));
  }

  lemma ReceiptTypes(r: Request)
    requires ReceiptType(r.event).Some?
    ensures TypeName(r.event, ReceiptType(r.event).value)
  {
  }

  /** Every issued credential says what it was asked to say, and nothing else. */
  lemma IssuedSays(scheme: Scheme, secret: Key, r: Request)
    requires scheme.Correct(secret) && Issue(scheme, secret, r).Ok?
    ensures Says(scheme, secret, r, Issue(scheme, secret, r).value)
  {
    var did := PubkeyToDidKey(scheme.publicKey(secret)).value;
    IssueExactly(scheme, secret, r, did);
    ReceiptTypes(r);
    CredentialSays(scheme, secret, r, ReceiptType(r.event).value, did);
  }

  // ----- what verification asks for ----------------------------------------------------------------------

  ghost predicate CarriesSignature(p: Json, did: string, signature: seq<byte>) {
    && p.Obj?
    && Get(p.members, "type") == Str("Ed25519Signature2020") && Get(p.members, "proofPurpose") == Str("assertionMethod")
    && Get(p.members, "verificationMethod").Str? && did <= Get(p.members, "verificationMethod").s
    && Get(p.members, "proofValue").Str? && MultibaseDecode(Get(p.members, "proofValue").s) == Some(signature)
    && |signature| == 64
  }

  lemma PartsCarry(ms: seq<Member>, parts: ProofParts, did: string, signature: seq<byte>)
    requires parts == PartsOf(ms)
    ensures CheckParts(parts, did) == Ok(signature) <==> CarriesSignature(Obj(ms), did, signature)
  {
  }

  lemma NoParts(p: Json, did: string, signature: seq<byte>)
    requires !p.Obj? || p.members == []
    ensures CheckProof(p, did).Err? && !CarriesSignature(p, did, signature)
  {
    assert PartsOfProof(p).Err?;
    assert p.Obj? ==> Get(p.members, "type") == Null;
  }

  lemma ProofCarries(p: Json, did: string, signature: seq<byte>)
    ensures CheckProof(p, did) == Ok(signature) <==> CarriesSignature(p, did, signature)
  {
    if p.Obj? && p.members != [] {
      PartsOfMembers(p.members);
      PartsCarry(p.members, PartsOf(p.members), did, signature);
    } else {
      NoParts(p, did, signature);
    }
  }

  predicate HasFields(ms: seq<Member>) {
    && HasKey(ms, "@context") && HasKey(ms, "type") && HasKey(ms, "issuer")
    && HasKey(ms, "issuanceDate") && HasKey(ms, "credentialSubject")
    && ListsString(Get(ms, "@context"), "https://www.w3.org/ns/credentials/v2")
    && ListsString(Get(ms, "type"), "VerifiableCredential")
  }

  ghost predicate SignedBy(scheme: Scheme, ms: seq<Member>, did: string, pk: Key, signature: seq<byte>, text: string) {
    && Get(ms, "issuer") == Str(did) && "did:key:" <= did && CarriesSignature(Get(ms, "proof"), did, signature)
    && DidKeyToPubkey(did) == Ok(pk) && Canonicalize(Obj(WithoutProof(ms))) == Ok(text)
    && scheme.verify(pk, signature, text)
  }

  /** How the outcomes of the single checks decide. */
  lemma ChecksDecide(scheme: Scheme, ms: seq<Member>, expected: Option<string>, did: string,
                     checked: Result<seq<byte>, VerifyError>, text: Result<string, TypeError>)
    requires HasFields(ms) && Get(ms, "issuer") == Str(did) && checked == CheckProof(Get(ms, "proof"), did)
    requires text == Canonicalize(Obj(WithoutProof(ms)))
    ensures Verify(scheme, Obj(ms), expected).Ok?
            <==> && "did:key:" <= did && (expected == None || expected == Some(did))
                 && checked.Ok? && DidKeyToPubkey(did).Ok? && text.Ok?
                 && scheme.verify(DidKeyToPubkey(did).value, checked.value, text.value)
    ensures Verify(scheme, Obj(ms), expected).Ok? ==> Verify(scheme, Obj(ms), expected) == Ok(Obj(ms))
  {
    FieldsDecide(scheme, ms, expected, did);
    SignatureDecides(scheme, ms, did, checked, text);
  }

  lemma FieldsDecide(scheme: Scheme, ms: seq<Member>, expected: Option<string>, did: string)
    requires HasFields(ms) && Get(ms, "issuer") == Str(did)
    ensures Verify(scheme, Obj(ms), expected)
            == if !("did:key:" <= did) then Err(SchemaError)
               else if expected != None && expected != Some(did) then Err(IssuerMismatch)
               else if CheckSignature(scheme, ms, did).Err? then Err(CheckSignature(scheme, ms, did).error)
               else Ok(Obj(ms))
  {
  }

  lemma SignatureDecides(scheme: Scheme, ms: seq<Member>, did: string, checked: Result<seq<byte>, VerifyError>,
                         text: Result<string, TypeError>)
    requires checked == CheckProof(Get(ms, "proof"), did) && text == Canonicalize(Obj(WithoutProof(ms)))
    ensures CheckSignature(scheme, ms, did)
            == if checked.Err? then Err(checked.error)
               else if DidKeyToPubkey(did).Err? then Err(ProofMalformed)
               else if text.Err? then Err(UnsupportedBody)
               else if scheme.verify(DidKeyToPubkey(did).value, checked.value, text.value) then Ok(())
               else Err(SignatureInvalid)
  {
  }

  lemma FieldsNeeded(scheme: Scheme, ms: seq<Member>, expected: Option<string>)
    requires Verify(scheme, Obj(ms), expected).Ok?
    ensures HasFields(ms) && Get(ms, "issuer").Str?
  {
  }

  /** A credential is accepted if and only if it has the five fields with the context and type
      listed, and names a did:key issuer, the expected one if any, whose key verifies the 64
      bytes of its proof over the canonical text of the rest. */
  lemma VerifyExactly(scheme: Scheme, ms: seq<Member>, expected: Option<string>)
    ensures Verify(scheme, Obj(ms), expected).Ok?
            <==> HasFields(ms) && exists did: string, pk: Key, signature: seq<byte>, text: string ::
                   SignedBy(scheme, ms, did, pk, signature, text) && (expected == None || expected == Some(did))
    ensures Verify(scheme, Obj(ms), expected).Ok? ==> Verify(scheme, Obj(ms), expected) == Ok(Obj(ms))
  {
    var text := Canonicalize(Obj(WithoutProof(ms)));
    if Verify(scheme, Obj(ms), expected).Ok? {
      FieldsNeeded(scheme, ms, expected);
      var did := Get(ms, "issuer").s;
      var checked := CheckProof(Get(ms, "proof"), did);
      ChecksDecide(scheme, ms, expected, did, checked, text);
      ProofCarries(Get(ms, "proof"), did, checked.value);
      assert SignedBy(scheme, ms, did, DidKeyToPubkey(did).value, checked.value, text.value);
    }
    if HasFields(ms) {
      if did: string, pk: Key, signature: seq<byte>, t: string :|
        SignedBy(scheme, ms, did, pk, signature, t) && (expected == None || expected == Some(did)) {
        ProofCarries(Get(ms, "proof"), did, signature);
        ChecksDecide(scheme, ms, expected, did, Ok(signature), text);
      }
    }
  }

  // ----- which error is raised ---------------------------------------------------------------------------

  predicate NoProof(p: Json) {
    p == Null || p == Bool(false) || p == Int(0) || p == Str("") || p == Arr([]) || p == Obj([])
  }

  /** Fields, context, type and a did:key issuer are in place. */
  predicate WellFormed(c: Json) {
    && c.Obj? && HasFields(c.members)
    && Get(c.members, "issuer").Str? && "did:key:" <= Get(c.members, "issuer").s
  }

  /** The proof holds a signature and the issuer a key. */
  ghost predicate Checkable(p: Json, did: string) {
    DidKeyToPubkey(did).Ok? && exists signature :: CarriesSignature(p, did, signature)
  }

  lemma ProofErrors(p: Json, did: string)
    ensures CheckProof(p, did) == Err(ProofMissing) <==> NoProof(p)
    ensures CheckProof(p, did).Ok? <==> exists signature :: CarriesSignature(p, did, signature)
    ensures CheckProof(p, did).Ok? || CheckProof(p, did) == Err(ProofMissing)
            || CheckProof(p, did) == Err(ProofMalformed)
    ensures NoProof(p) ==> CheckProof(p, did).Err?
  {
    if CheckProof(p, did).Ok? {
      ProofCarries(p, did, CheckProof(p, did).value);
    }
    if signature :| CarriesSignature(p, did, signature) {
      ProofCarries(p, did, signature);
    }
    if !NoProof(p) && p.Obj? {
      PartsErrors(PartsOf(p.members), did);
    }
  }

  lemma PartsErrors(parts: ProofParts, did: string)
    ensures CheckParts(parts, did).Ok? || CheckParts(parts, did) == Err(ProofMalformed)
  {
  }

  /** The first of the checks to fail decides the error: form, issuer, proof, canonical text,
      signature. */
  lemma ErrorsExactly(scheme: Scheme, c: Json, expected: Option<string>)
    ensures
      var r := Verify(scheme, c, expected);
      && (r == Err(SchemaError) <==> !WellFormed(c))
      && (WellFormed(c) ==>
            var did, p := Get(c.members, "issuer").s, Get(c.members, "proof");
            var text, mismatch := Canonicalize(Obj(WithoutProof(c.members))), expected != None && expected != Some(did);
            && (r == Err(IssuerMismatch) <==> mismatch)
            && (r == Err(ProofMissing) <==> !mismatch && NoProof(p))
            && (r == Err(ProofMalformed) <==> !mismatch && !NoProof(p) && !Checkable(p, did))
            && (r == Err(UnsupportedBody) <==> !mismatch && !NoProof(p) && Checkable(p, did) && text.Err?)
            && (r == Err(SignatureInvalid)
                <==> && !mismatch && !NoProof(p) && Checkable(p, did) && text.Ok?
                     && forall signature | CarriesSignature(p, did, signature) ::
                          !scheme.verify(DidKeyToPubkey(did).value, signature, text.value)))
  {
    if WellFormed(c) {
      var did, p := Get(c.members, "issuer").s, Get(c.members, "proof");
      var checked, text := CheckProof(p, did), Canonicalize(Obj(WithoutProof(c.members)));
      ProofErrors(p, did);
      VerifyCases(scheme, c.members, expected, did, checked, text);
      if checked.Ok? {
        forall signature
          ensures CarriesSignature(p, did, signature) <==> checked == Ok(signature)
        {
          ProofCarries(p, did, signature);
        }
      }
    }
  }

  lemma VerifyCases(scheme: Scheme, ms: seq<Member>, expected: Option<string>, did: string,
                    checked: Result<seq<byte>, VerifyError>, text: Result<string, TypeError>)
    requires HasFields(ms) && Get(ms, "issuer") == Str(did) && "did:key:" <= did
    requires checked == CheckProof(Get(ms, "proof"), did) && text == Canonicalize(Obj(WithoutProof(ms)))
    ensures Verify(scheme, Obj(ms), expected)
            == if expected != None && expected != Some(did) then Err(IssuerMismatch)
               else if checked.Err? then Err(checked.error)
               else if DidKeyToPubkey(did).Err? then Err(ProofMalformed)
               else if text.Err? then Err(UnsupportedBody)
               else if scheme.verify(DidKeyToPubkey(did).value, checked.value, text.value) then Ok(Obj(ms))
               else Err(SignatureInvalid)
  {
    FieldsDecide(scheme, ms, expected, did);
    SignatureDecides(scheme, ms, did, checked, text);
  }
}
