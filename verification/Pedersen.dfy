/** Pedersen commitments and the range proofs built on them, over any group parameters. */
module Pedersen {
  import opened Wrappers
  import opened Text
  import opened Decimal
  import opened Hex
  import opened IntBytes
  import opened ModArith

  /** The modulus, the two generators and the order that bounds the randomness. */
  datatype Group = Group(p: Modulus, g: nat, h: nat, q: nat)
  {
    ghost predicate Sound() {
      Prime(p) && g % p != 0 && h % p != 0
    }

    function Value(amount: nat, randomness: nat): (v: nat)
      ensures v < p
    {
      (PowMod(g, amount, p) * PowMod(h, randomness, p)) % p
    }
  }

  const U64: int := 0x1_0000_0000_0000_0000

  predicate IsU64(n: int) {
    0 <= n < U64
  }

  datatype Commitment = Commitment(bytes: seq<byte>, randomness: int)

  datatype ProofError = AmountOutOfRange | RandomnessOutOfRange | EmptyRange | AmountNotInRange | DoesNotOpen

  /** `randomness` is the caller's or the one freshly drawn. */
  function Commit(grp: Group, amount: int, randomness: int): Result<Commitment, ProofError> {
    if !IsU64(amount) then Err(AmountOutOfRange)
    else if randomness <= 0 || randomness >= grp.q then Err(RandomnessOutOfRange)
    else Ok(Commitment(MinimalIntBytes(grp.Value(amount, randomness)), randomness))
  }

  predicate VerifyOpening(grp: Group, bytes: seq<byte>, amount: int, randomness: int) {
    IsU64(amount) && 0 < randomness < grp.q && grp.Value(amount, randomness) == FromBytes(bytes)
  }

  datatype RangeProof = RangeProof(commitmentHex: string, minAmount: int, maxAmount: int, amount: int, randomness: int)

  function Build(grp: Group, c: Commitment, amount: int, minAmount: int, maxAmount: int)
    : Result<RangeProof, ProofError>
  {
    if minAmount > maxAmount then Err(EmptyRange)
    else if amount < minAmount || amount > maxAmount then Err(AmountNotInRange)
    else if !VerifyOpening(grp, c.bytes, amount, c.randomness) then Err(DoesNotOpen)
    else Ok(RangeProof(ToHex(c.bytes), minAmount, maxAmount, amount, c.randomness))
  }

  predicate Verify(grp: Group, proof: RangeProof) {
    && proof.minAmount <= proof.maxAmount
    && proof.minAmount <= proof.amount <= proof.maxAmount
    && FromHex(proof.commitmentHex).Some?
    && VerifyOpening(grp, FromHex(proof.commitmentHex).value, proof.amount, proof.randomness)
  }

  // ----- completeness ---------------------------------------------------------------------------

  /** Every proof that can be built is accepted, for a commitment from anywhere. */
  lemma BuiltProofsVerify(grp: Group, c: Commitment, amount: int, minAmount: int, maxAmount: int)
    requires Build(grp, c, amount, minAmount, maxAmount).Ok?
    ensures Verify(grp, Build(grp, c, amount, minAmount, maxAmount).value)
  {
    FromHexInvertsToHex(c.bytes);
  }

  /** Nothing else is accepted: a proof whose hex is spelled as bytes.hex() spells it
      verifies exactly when building it again gives it back. */
  lemma VerifiedProofsAreBuilt(grp: Group, proof: RangeProof)
    requires FromHex(proof.commitmentHex).Some? && ToHex(FromHex(proof.commitmentHex).value) == proof.commitmentHex
    ensures var c := Commitment(FromHex(proof.commitmentHex).value, proof.randomness);
            Verify(grp, proof) <==> Build(grp, c, proof.amount, proof.minAmount, proof.maxAmount) == Ok(proof)
  {
  }

  /** From the amount all the way: commit, build, verify, through minimal bytes and hex. */
  lemma CommitBuildVerify(grp: Group, amount: int, randomness: int, minAmount: int, maxAmount: int)
    requires IsU64(amount) && 0 < randomness < grp.q && minAmount <= amount <= maxAmount
    ensures Commit(grp, amount, randomness).Ok?
    ensures var built := Build(grp, Commit(grp, amount, randomness).value, amount, minAmount, maxAmount);
            && built.Ok? && Verify(grp, built.value)
            && built.value.amount == amount && built.value.randomness == randomness
            && FromHex(built.value.commitmentHex) == Some(MinimalIntBytes(grp.Value(amount, randomness)))
  {
    var c := Commit(grp, amount, randomness).value;
    MinimalIntBytesExact(grp.Value(amount, randomness));
    BuiltProofsVerify(grp, c, amount, minAmount, maxAmount);
    FromHexInvertsToHex(c.bytes);
  }

  // ----- binding --------------------------------------------------------------------------------

  /** What ties two openings of one commitment together: g^d and h^(r' - r) agree modulo
      p, the power of h taken to the other side when r' < r. */
  predicate Related(grp: Group, d: nat, r: nat, r': nat) {
    if r <= r' then PowMod(grp.g, d, grp.p) == PowMod(grp.h, r' - r, grp.p)
    else (Pow(grp.g, d) * Pow(grp.h, r - r')) % grp.p == 1
  }

  lemma ValueIsProduct(grp: Group, amount: nat, randomness: nat)
    ensures grp.Value(amount, randomness) == (Pow(grp.g, amount) * Pow(grp.h, randomness)) % grp.p
  {
    ReduceFactors(grp.p, Pow(grp.g, amount), Pow(grp.h, randomness));
  }

  lemma Regroup(a: nat, d: nat, x: nat, y: nat)
    ensures (a * d) * (x * y) == (a * x) * (d * y)
  {
    assert (a * d) * (x * y) == a * (d * (x * y));
    assert d * (x * y) == x * (d * y);
    assert a * (x * (d * y)) == (a * x) * (d * y);
  }

  /** Pow(g, a + d) Pow(h, r + e) with the common part c = Pow(g, a) Pow(h, r) in front. */
  lemma Factor(g: nat, h: nat, a: nat, d: nat, r: nat, e: nat)
    ensures Pow(g, a + d) * Pow(h, r + e) == (Pow(g, a) * Pow(h, r)) * (Pow(g, d) * Pow(h, e))
  {
    PowSum(g, a, d);
    PowSum(h, r, e);
    Regroup(Pow(g, a), Pow(g, d), Pow(h, r), Pow(h, e));
  }

  lemma CommonFactorCancels(grp: Group, a: nat, r: nat, x: nat, y: nat)
    requires grp.Sound()
    ensures var c := Pow(grp.g, a) * Pow(grp.h, r);
            (c * x) % grp.p == (c * y) % grp.p <==> x % grp.p == y % grp.p
  {
    PowNonzero(grp.p, grp.g, a);
    PowNonzero(grp.p, grp.h, r);
    ProductNonzero(grp.p, Pow(grp.g, a), Pow(grp.h, r));
    Cancel(grp.p, Pow(grp.g, a) * Pow(grp.h, r), x, y);
  }

  /** Two openings give one value exactly when they are related. */
  lemma SameValueExactly(grp: Group, a: nat, r: nat, a': nat, r': nat)
    requires grp.Sound() && a' <= a
    ensures grp.Value(a, r) == grp.Value(a', r') <==> Related(grp, a - a', r, r')
  {
    var d := a - a';
    ValueIsProduct(grp, a, r);
    ValueIsProduct(grp, a', r');
    if r <= r' {
      Factor(grp.g, grp.h, a', d, r, 0);
      Factor(grp.g, grp.h, a', 0, r, r' - r);
      CommonFactorCancels(grp, a', r, Pow(grp.g, d), Pow(grp.h, r' - r));
    } else {
      Factor(grp.g, grp.h, a', d, r', r - r');
      Factor(grp.g, grp.h, a', 0, r', 0);
      CommonFactorCancels(grp, a', r', Pow(grp.g, d) * Pow(grp.h, r - r'), 1);
      OneModulo(grp.p);
    }
  }

  /** Two accepted openings of one commitment yield the discrete-logarithm relation the
      scheme's binding rests on. */
  lemma TwoOpenings(grp: Group, bytes: seq<byte>, a: int, r: int, a': int, r': int)
    requires grp.Sound() && a' <= a
    requires VerifyOpening(grp, bytes, a, r) && VerifyOpening(grp, bytes, a', r')
    ensures Related(grp, a - a', r, r')
  {
    SameValueExactly(grp, a, r, a', r');
  }

  lemma SameRandomness(grp: Group, bytes: seq<byte>, a: int, a': int, r: int)
    requires grp.Sound() && a' <= a && VerifyOpening(grp, bytes, a, r) && VerifyOpening(grp, bytes, a', r)
    ensures PowMod(grp.g, a - a', grp.p) == 1
  {
    TwoOpenings(grp, bytes, a, r, a', r);
    OneModulo(grp.p);
  }

  /** Consequently one randomness opens a commitment to one amount only, given that no
      positive power of g below 2^64 is 1. */
  lemma RandomnessFixesAmount(grp: Group, bytes: seq<byte>, a: int, a': int, r: int)
    requires grp.Sound() && forall d: nat | 0 < d < U64 :: PowMod(grp.g, d, grp.p) != 1
    requires VerifyOpening(grp, bytes, a, r) && VerifyOpening(grp, bytes, a', r)
    ensures a == a'
  {
    SameRandomness(grp, bytes, if a' <= a then a else a', if a' <= a then a' else a, r);
  }

  ghost predicate NoSmallOrder(grp: Group) {
    forall d: nat | 0 < d < U64 :: PowMod(grp.g, d, grp.p) != 1
  }

  ghost predicate OneAmountEach(grp: Group) {
    forall bytes: seq<byte>, a: int, a': int, r: int
      | VerifyOpening(grp, bytes, a, r) && VerifyOpening(grp, bytes, a', r) :: a == a'
  }

  /** It does so for all commitments exactly if that is given. */
  lemma RandomnessFixesAmountExactly(grp: Group)
    requires grp.Sound() && grp.q > 1
    ensures OneAmountEach(grp) <==> NoSmallOrder(grp)
  {
    if NoSmallOrder(grp) {
      forall bytes: seq<byte>, a: int, a': int, r: int
        | VerifyOpening(grp, bytes, a, r) && VerifyOpening(grp, bytes, a', r)
        ensures a == a'
      {
        RandomnessFixesAmount(grp, bytes, a, a', r);
      }
    } else {
      var d: nat :| 0 < d < U64 && PowMod(grp.g, d, grp.p) == 1;
      var bytes := MinimalIntBytes(grp.Value(d, 1));
      MinimalIntBytesExact(grp.Value(d, 1));
      OneModulo(grp.p);
      assert Pow(grp.g, 0) == 1 && grp.Value(0, 1) == grp.Value(d, 1);
      assert VerifyOpening(grp, bytes, 0, 1) && VerifyOpening(grp, bytes, d, 1);
    }
  }

  /** And it is given in a group of prime order q of 2^64 or more, of which g is a member. */
  lemma PrimeOrderFixesAmount(grp: Group)
    requires grp.Sound() && grp.q >= U64 && Prime(grp.q)
    requires PowMod(grp.g, grp.q, grp.p) == 1 && grp.g % grp.p != 1
    ensures OneAmountEach(grp)
  {
    forall d: nat | 0 < d < U64
      ensures PowMod(grp.g, d, grp.p) != 1
    {
      if PowMod(grp.g, d, grp.p) == 1 {
        PrimeOrder(grp.p, grp.q, grp.g, d);
      }
    }
    RandomnessFixesAmountExactly(grp);
  }

  // ----- the proof's serialisation ----------------------------------------------------------------

  const PROOF_TAG := "ae402:range-proof:v1:proof"

  /** RangeProof.to_bytes */
  function Serialize(proof: RangeProof): string {
    PROOF_TAG + ":" + proof.commitmentHex + ":" + IntStr(proof.minAmount) + ":" + IntStr(proof.maxAmount)
    + ":" + IntStr(proof.amount) + ":" + IntStr(proof.randomness)
  }

  lemma CutInt(s: string, m: int, t: string, n: int)
    requires s + [':'] + IntStr(m) == t + [':'] + IntStr(n)
    ensures s == t && m == n
  {
    IntStrLacks(m, ':');
    IntStrLacks(n, ':');
    CutAtLast(':', s, IntStr(m), t, IntStr(n));
    IntStrInjective(m, n);
  }

  /** The hashed bytes fix the whole proof, whatever its commitment string. */
  lemma SerializeExact(a: RangeProof, b: RangeProof)
    ensures Serialize(a) == Serialize(b) <==> a == b
  {
    if Serialize(a) == Serialize(b) {
      var a1, b1 := PROOF_TAG + ":" + a.commitmentHex, PROOF_TAG + ":" + b.commitmentHex;
      var a2, b2 := a1 + ":" + IntStr(a.minAmount), b1 + ":" + IntStr(b.minAmount);
      var a3, b3 := a2 + ":" + IntStr(a.maxAmount), b2 + ":" + IntStr(b.maxAmount);
      var a4, b4 := a3 + ":" + IntStr(a.amount), b3 + ":" + IntStr(b.amount);
      CutInt(a4, a.randomness, b4, b.randomness);
      CutInt(a3, a.amount, b3, b.amount);
      CutInt(a2, a.maxAmount, b2, b.maxAmount);
      CutInt(a1, a.minAmount, b1, b.minAmount);
      assert a.commitmentHex == a1[|PROOF_TAG| + 1..] == b1[|PROOF_TAG| + 1..] == b.commitmentHex;
    }
  }

  // ----- what is accepted and what is refused -------------------------------------------------------

  /** The group element g^amount h^randomness, as bytes read as a number. */
  ghost predicate Commits(grp: Group, bytes: seq<byte>, amount: int, randomness: int) {
    && 0 <= amount < 18446744073709551616 && 0 < randomness < grp.q
    && FromBytes(bytes) == (Pow(grp.g, amount) * Pow(grp.h, randomness)) % grp.p
  }

  lemma OpensExactly(grp: Group, bytes: seq<byte>, amount: int, randomness: int)
    ensures VerifyOpening(grp, bytes, amount, randomness) <==> Commits(grp, bytes, amount, randomness)
  {
    if 0 <= amount && 0 < randomness {
      ValueIsProduct(grp, amount, randomness);
    }
  }

  /** A proof is accepted if and only if its amount lies in its range and its commitment is hex
      of the element for amount and randomness. */
  lemma AcceptedExactly(grp: Group, proof: RangeProof)
    ensures Verify(grp, proof)
            <==> && proof.minAmount <= proof.amount <= proof.maxAmount
                 && exists bytes ::
                      FromHex(proof.commitmentHex) == Some(bytes) && Commits(grp, bytes, proof.amount, proof.randomness)
  {
    if FromHex(proof.commitmentHex).Some? {
      OpensExactly(grp, FromHex(proof.commitmentHex).value, proof.amount, proof.randomness);
    }
  }

  /** What committing returns or raises. */
  lemma CommitExactly(grp: Group, amount: int, randomness: int)
    ensures
      match Commit(grp, amount, randomness)
      case Ok(c) => c.randomness == randomness && Commits(grp, c.bytes, amount, randomness)
                    && (c.bytes[0] == 0 ==> c.bytes == [0])
      case Err(AmountOutOfRange) => !(0 <= amount < 18446744073709551616)
      case Err(RandomnessOutOfRange) => 0 <= amount < 18446744073709551616 && !(0 < randomness < grp.q)
      case Err(_) => false
  {
    if Commit(grp, amount, randomness).Ok? {
      MinimalIntBytesExact(grp.Value(amount, randomness));
      ValueIsProduct(grp, amount, randomness);
    }
  }

  /** What building a proof returns or raises. */
  lemma BuildExactly(grp: Group, c: Commitment, amount: int, minAmount: int, maxAmount: int)
    ensures
      var opens := Commits(grp, c.bytes, amount, c.randomness);
      match Build(grp, c, amount, minAmount, maxAmount)
      case Ok(proof) =>
        && minAmount <= amount <= maxAmount && opens
        && proof.minAmount == minAmount && proof.maxAmount == maxAmount && proof.amount == amount
        && proof.randomness == c.randomness && FromHex(proof.commitmentHex) == Some(c.bytes)
        && forall ch | ch in proof.commitmentHex :: '0' <= ch <= '9' || 'a' <= ch <= 'f'
      case Err(EmptyRange) => minAmount > maxAmount
      case Err(AmountNotInRange) => minAmount <= maxAmount && !(minAmount <= amount <= maxAmount)
      case Err(DoesNotOpen) => minAmount <= amount <= maxAmount && !opens
      case Err(_) => false
  {
    OpensExactly(grp, c.bytes, amount, c.randomness);
    FromHexInvertsToHex(c.bytes);
  }

  /** The bytes that are hashed, written out. */
  lemma SerializedText(proof: RangeProof)
    ensures Serialize(proof)
            == "ae402:range-proof:v1:proof:" + proof.commitmentHex + ":" + IntStr(proof.minAmount) + ":"
               + IntStr(proof.maxAmount) + ":" + IntStr(proof.amount) + ":" + IntStr(proof.randomness)
  {
    assert PROOF_TAG + ":" == "ae402:range-proof:v1:proof:";
  }
}
