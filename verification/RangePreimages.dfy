/** The messages arbiters sign about range proofs: attest and fraud. */
module RangePreimages {
  import opened Wrappers
  import opened Text
  import opened Decimal
  import opened Hex
  import opened Signatures
  import Pedersen

  datatype Statement =
    | Attest(pkg: string, escrow: string, commitment: string, proofHash: string, minAmount: int, maxAmount: int)
    | Fraud(pkg: string, escrow: string, commitment: string, proofHash: string, reasonHash: string)

  /** What _require_hex lets through: hex with optional white space between bytes, in
      either case, and where a length is asked for, that many characters. */
  predicate HexArg(s: string) {
    FromHex(s).Some?
  }

  predicate HexArg64(s: string) {
    |s| == 64 && HexArg(s)
  }

  /** The arguments for which the builder does not raise. */
  predicate Buildable(s: Statement) {
    && HexArg(s.pkg) && HexArg64(s.escrow) && HexArg(s.commitment) && HexArg64(s.proofHash)
    && match s
       case Attest(_, _, _, _, minAmount, maxAmount) =>
         Pedersen.IsU64(minAmount) && Pedersen.IsU64(maxAmount) && minAmount <= maxAmount
       case Fraud(_, _, _, _, reasonHash) => HexArg64(reasonHash)
  }

  const DOMAIN := "ae402:range-proof:v1"

  function Kind(s: Statement): string {
    if s.Attest? then "attest" else "fraud"
  }

  function Tail(s: Statement): string {
    match s
    case Attest(_, _, _, _, minAmount, maxAmount) => IntStr(minAmount) + ":" + IntStr(maxAmount)
    case Fraud(_, _, _, _, reasonHash) => reasonHash
  }

  function Body(s: Statement): string {
    s.pkg + ":" + (s.escrow + ":" + (s.commitment + ":" + (s.proofHash + ":" + Tail(s))))
  }

  /** None where the builder raises. */
  function Preimage(s: Statement): Option<string> {
    if Buildable(s) then Some(DOMAIN + ":" + (Kind(s) + ":" + Body(s))) else None
  }

  lemma HexLacksColon(s: string)
    requires HexArg(s)
    ensures Lacks(s, ':')
  {
  }

  lemma CutHex(x: string, t: string, y: string, u: string)
    requires HexArg(x) && HexArg(y) && x + ":" + t == y + ":" + u
    ensures x == y && t == u
  {
    HexLacksColon(x);
    HexLacksColon(y);
    CutAtFirst(':', x, t, y, u);
  }

  lemma BodyExact(a: Statement, b: Statement)
    requires Buildable(a) && Buildable(b) && Body(a) == Body(b)
    ensures a.pkg == b.pkg && a.escrow == b.escrow && a.commitment == b.commitment && a.proofHash == b.proofHash
    ensures Tail(a) == Tail(b)
  {
    var a4, b4 := a.proofHash + ":" + Tail(a), b.proofHash + ":" + Tail(b);
    var a3, b3 := a.commitment + ":" + a4, b.commitment + ":" + b4;
    var a2, b2 := a.escrow + ":" + a3, b.escrow + ":" + b3;
    CutHex(a.pkg, a2, b.pkg, b2);
    CutHex(a.escrow, a3, b.escrow, b3);
    CutHex(a.commitment, a4, b.commitment, b4);
    CutHex(a.proofHash, Tail(a), b.proofHash, Tail(b));
  }

  lemma TailExact(a: Statement, b: Statement)
    requires Buildable(a) && Buildable(b) && (a.Attest? <==> b.Attest?) && Tail(a) == Tail(b)
    ensures a.Attest? ==> a.minAmount == b.minAmount && a.maxAmount == b.maxAmount
    ensures a.Fraud? ==> a.reasonHash == b.reasonHash
  {
    if a.Attest? {
      IntStrLacks(a.minAmount, ':');
      IntStrLacks(b.minAmount, ':');
      CutAtFirst(':', IntStr(a.minAmount), IntStr(a.maxAmount), IntStr(b.minAmount), IntStr(b.maxAmount));
      IntStrInjective(a.minAmount, b.minAmount);
      IntStrInjective(a.maxAmount, b.maxAmount);
    }
  }

  lemma KindExact(a: Statement, b: Statement)
    requires Kind(a) + ":" + Body(a) == Kind(b) + ":" + Body(b)
    ensures (a.Attest? <==> b.Attest?) && Body(a) == Body(b)
  {
    CutAtFirst(':', Kind(a), Body(a), Kind(b), Body(b));
    assert Kind(a)[0] == Kind(b)[0];
  }

  /** Preimages are injective in every argument, and an attest and a fraud statement never
      share one. */
  lemma PreimageExact(a: Statement, b: Statement)
    requires Preimage(a).Some? && Preimage(b).Some?
    ensures Preimage(a) == Preimage(b) <==> a == b
  {
    if Preimage(a) == Preimage(b) {
      var x, y := Kind(a) + ":" + Body(a), Kind(b) + ":" + Body(b);
      assert x == (DOMAIN + ":" + x)[|DOMAIN| + 1..] == (DOMAIN + ":" + y)[|DOMAIN| + 1..] == y;
      KindExact(a, b);
      BodyExact(a, b);
      TailExact(a, b);
    }
  }

  /** A signature made for one statement, hence for one deployed package, never verifies
      for another. */
  lemma SignatureFixesStatement(scheme: Scheme, pk: Key, sig: seq<byte>, a: Statement, b: Statement)
    requires Preimage(a).Some? && Preimage(b).Some?
    requires scheme.Binding(pk, {Preimage(a).value, Preimage(b).value})
    requires scheme.verify(pk, sig, Preimage(a).value) && scheme.verify(pk, sig, Preimage(b).value)
    ensures a == b
  {
    PreimageExact(a, b);
  }

  /** An argument of 64 characters is hex of 32 bytes if and only if it holds no white space,
      which bytes.fromhex() lets through. */
  lemma ArgumentBytes(s: string)
    requires HexArg64(s)
    ensures |FromHex(s).value| == 32 <==> forall c | c in s :: !IsAsciiSpace(c)
  {
    HexLength(s);
  }

  lemma {:induction false} HexLength(s: string)
    requires FromHex(s).Some?
    ensures 2 * |FromHex(s).value| <= |s|
    ensures 2 * |FromHex(s).value| == |s| <==> forall c | c in s :: !IsAsciiSpace(c)
    decreases |s|
  {
    if s != [] {
      var k := if IsAsciiSpace(s[0]) then 1 else 2;
      HexLength(s[k..]);
      assert s == s[..k] + s[k..];
      assert s[0] in s;
      assert k == 2 ==> s[..k] == [s[0], s[1]];
    }
  }

  predicate FourHex(s: Statement) {
    FromHex(s.pkg).Some? && |s.escrow| == 64 && FromHex(s.escrow).Some? && FromHex(s.commitment).Some?
    && |s.proofHash| == 64 && FromHex(s.proofHash).Some?
  }

  /** For which arguments the builder does not raise. */
  lemma BuiltExactly(s: Statement)
    ensures Preimage(s).Some?
            <==> FourHex(s)
                 && match s
                    case Attest(_, _, _, _, low, high) => 0 <= low <= high < 18446744073709551616
                    case Fraud(_, _, _, _, reason) => |reason| == 64 && FromHex(reason).Some?
  {
  }

  /** The four common arguments with their separators. */
  function Common(s: Statement): string {
    s.pkg + ":" + s.escrow + ":" + s.commitment + ":" + s.proofHash + ":"
  }

  lemma FiveParts(a: string, b: string, c: string, d: string, e: string)
    ensures a + ":" + (b + ":" + (c + ":" + (d + ":" + e))) == a + ":" + b + ":" + c + ":" + d + ":" + e
  {
  }

  lemma Headed(kind: string, text: string)
    ensures DOMAIN + ":" + (kind + ":" + text) == "ae402:range-proof:v1:" + kind + ":" + text
  {
  }

  /** The signed text, written out. */
  lemma PreimageText(s: Statement)
    requires Preimage(s).Some?
    ensures s.Attest? ==> Preimage(s).value == "ae402:range-proof:v1:" + "attest" + ":" + Common(s)
                                               + IntStr(s.minAmount) + ":" + IntStr(s.maxAmount)
    ensures s.Fraud? ==> Preimage(s).value == "ae402:range-proof:v1:" + "fraud" + ":" + Common(s) + s.reasonHash
  {
    FiveParts(s.pkg, s.escrow, s.commitment, s.proofHash, Tail(s));
    Headed(Kind(s), Body(s));
    Together(Kind(s), Common(s), Tail(s));
    if s.Attest? {
      TogetherRange(Kind(s), Common(s), IntStr(s.minAmount), IntStr(s.maxAmount));
    }
  }

  lemma Together(kind: string, common: string, tail: string)
    ensures "ae402:range-proof:v1:" + kind + ":" + (common + tail)
            == "ae402:range-proof:v1:" + kind + ":" + common + tail
  {
  }

  lemma TogetherRange(kind: string, common: string, low: string, high: string)
    ensures "ae402:range-proof:v1:" + kind + ":" + common + (low + ":" + high)
            == "ae402:range-proof:v1:" + kind + ":" + common + low + ":" + high
  {
  }
}
