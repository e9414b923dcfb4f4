/** Governance parameters and their wire strings. */
module Governance {
  import opened Wrappers
  import opened Text
  import opened Decimal
  import opened KeyValue
  import opened Hex

  datatype Params =
    | AdjustFeeBps(bps: int)
    | RotateArbiterSet(op: string, value: string)
    | UpdateInsurancePool(maxCoverageBps: int, cooldownSec: int)
    | UpdateTimelockDelay(delaySec: int)
    | UpdateRangeProof(minBits: int, maxBits: int)
    | PauseProtocol(pause: bool)

  type Wire = (int, string)

  // ----- encode -----------------------------------------------------------------------------

  predicate HexOk(s: string) {
    forall i | 0 <= i < |s| :: IsHex(s[i])
  }

  predicate ValueOk(op: string, value: string) {
    if op == "threshold" then PyInt(value).Some? && 1 <= PyInt(value).value <= 64
    else (op == "add" || op == "remove") && |value| == 66 && HexOk(value)
  }

  /** What the encoder lets through. */
  predicate Accepted(p: Params) {
    match p
    case AdjustFeeBps(bps) => 0 <= bps <= 10000
    case RotateArbiterSet(op, value) => ValueOk(op, value)
    case UpdateInsurancePool(maxCoverageBps, cooldownSec) => 0 <= maxCoverageBps <= 10000 && cooldownSec >= 0
    case UpdateTimelockDelay(delaySec) => delaySec >= 3600
    case UpdateRangeProof(minBits, maxBits) => 1 <= minBits <= maxBits <= 32
    case PauseProtocol(_) => true
  }

  function Code(p: Params): int {
    match p
    case AdjustFeeBps(_) => 0
    case RotateArbiterSet(_, _) => 1
    case UpdateInsurancePool(_, _) => 2
    case UpdateTimelockDelay(_) => 3
    case UpdateRangeProof(_, _) => 4
    case PauseProtocol(_) => 5
  }

  function Fields(p: Params): string {
    match p
    case AdjustFeeBps(bps) => Segment("bps", IntStr(bps))
    case RotateArbiterSet(op, value) => Segment("op", op) + ";" + Segment("value", value)
    case UpdateInsurancePool(maxCoverageBps, cooldownSec) =>
      Segment("max_coverage_bps", IntStr(maxCoverageBps)) + ";" + Segment("cooldown_sec", IntStr(cooldownSec))
    case UpdateTimelockDelay(delaySec) => Segment("delay_sec", IntStr(delaySec))
    case UpdateRangeProof(minBits, maxBits) => Segment("min_bits", IntStr(minBits)) + ";"
          + Segment("max_bits", IntStr(maxBits))
    case PauseProtocol(pause) => Segment("mode", if pause then "pause" else "unpause")
  }

  /** None where it raises GovernanceError. */
  function Encode(p: Params): Option<Wire> {
    if Accepted(p) then Some((Code(p), Fields(p))) else None
  }

  // ----- decode -----------------------------------------------------------------------------

  /** int(kv[key]) */
  function IntAt(kv: map<string, string>, key: string): Option<int> {
    if key in kv then PyInt(kv[key]) else None
  }

  function DecodeFields(code: int, kv: map<string, string>): Option<Params> {
    if code == 0 then
      match IntAt(kv, "bps") case Some(n) => Some(AdjustFeeBps(n)) case None => None
    else if code == 1 then
      if "op" in kv && "value" in kv then Some(RotateArbiterSet(kv["op"], kv["value"])) else None
    else if code == 2 then
      match (IntAt(kv, "max_coverage_bps"), IntAt(kv, "cooldown_sec"))
      case (Some(m), Some(n)) => Some(UpdateInsurancePool(m, n))
      case _ => None
    else if code == 3 then
      match IntAt(kv, "delay_sec") case Some(n) => Some(UpdateTimelockDelay(n)) case None => None
    else if code == 4 then
      match (IntAt(kv, "min_bits"), IntAt(kv, "max_bits"))
      case (Some(m), Some(n)) => Some(UpdateRangeProof(m, n))
      case _ => None
    else if code == 5 && "mode" in kv && (kv["mode"] == "pause" || kv["mode"] == "unpause") then
      Some(PauseProtocol(kv["mode"] == "pause"))
    else None
  }

  /** None where it raises GovernanceError. */
  function Decode(code: int, s: string): Option<Params> {
    match KvPairs(s)
    case Some(kv) => DecodeFields(code, kv)
    case None => None
  }

  // ----- round trip ---------------------------------------------------------------------------

  lemma IntWritable(n: int)
    ensures IntStr(n) != "" && Lacks(IntStr(n), ';')
  {
    IntStrLacks(n, ';');
  }

  lemma OneInt(key: string, n: int)
    requires key != "" && Lacks(key, '=') && Lacks(key, ';')
    ensures KvPairs(Segment(key, IntStr(n))) == Some(map[key := IntStr(n)])
    ensures IntAt(map[key := IntStr(n)], key) == Some(n)
  {
    IntWritable(n);
    OnePair(key, IntStr(n));
    PyIntInvertsIntStr(n);
  }

  lemma TwoInts(k1: string, m: int, k2: string, n: int) returns (kv: map<string, string>)
    requires Writable(k1, "0") && Writable(k2, "0") && k1 != k2
    ensures KvPairs(Segment(k1, IntStr(m)) + ";" + Segment(k2, IntStr(n))) == Some(kv)
    ensures IntAt(kv, k1) == Some(m) && IntAt(kv, k2) == Some(n)
  {
    IntWritable(m);
    IntWritable(n);
    TwoPairs(k1, IntStr(m), k2, IntStr(n));
    PyIntInvertsIntStr(m);
    PyIntInvertsIntStr(n);
    kv := map[k1 := IntStr(m)][k2 := IntStr(n)];
  }

  lemma ValueWritable(op: string, value: string)
    requires ValueOk(op, value)
    ensures Writable("value", value)
  {
    if op == "threshold" {
      if ';' in value {
        PyIntAlphabet(value, ';');
      }
      EmptyIsNoInt();
    }
  }

  lemma EmptyIsNoInt()
    ensures PyInt("").None?
  {
    assert Strip("") == "";
  }

  lemma RotateRoundTrip(op: string, value: string)
    ensures Decode(1, Segment("op", op) + ";" + Segment("value", value)) == Some(RotateArbiterSet(op, value))
            <==> PlainValue(op) && PlainValue(value)
  {
    var s := Segment("op", op) + ";" + Segment("value", value);
    if PlainValue(op) && PlainValue(value) {
      TwoPairs("op", op, "value", value);
      assert "op" != "value" by { assert |"op"| == 2 && |"value"| == 5; }
      var kv := map["op" := op]["value" := value];
      assert kv["op"] == op && kv["value"] == value;
    } else {
      ReadValues(s);
    }
  }

  lemma KeysDiffer()
    ensures "max_coverage_bps" != "cooldown_sec" && "min_bits" != "max_bits"
  {
    assert "max_coverage_bps"[0] != "cooldown_sec"[0] && "min_bits"[1] != "max_bits"[1];
  }

  /** The text fields can be written: there are none, or they are not empty and hold no
      semicolon. */
  predicate Plain(p: Params) {
    p.RotateArbiterSet? ==> PlainValue(p.op) && PlainValue(p.value)
  }

  /** What is written is read back, in range or not, if and only if its text is plain. */
  lemma ReadsBackExactly(p: Params)
    ensures Decode(Code(p), Fields(p)) == Some(p) <==> Plain(p)
  {
    KeysDiffer();
    match p
    case AdjustFeeBps(bps) => OneInt("bps", bps);
    case RotateArbiterSet(op, value) => RotateRoundTrip(op, value);
    case UpdateInsurancePool(m, n) => var kv := TwoInts("max_coverage_bps", m, "cooldown_sec", n);
    case UpdateTimelockDelay(n) => OneInt("delay_sec", n);
    case UpdateRangeProof(m, n) => var kv := TwoInts("min_bits", m, "max_bits", n);
    case PauseProtocol(pause) => PauseRoundTrip(pause);
  }

  lemma AcceptedArePlain(p: Params)
    requires Accepted(p)
    ensures Plain(p)
  {
    if p.RotateArbiterSet? {
      ValueWritable(p.op, p.value);
      assert p.op == "threshold" || p.op == "add" || p.op == "remove";
    }
  }

  /** decode_params inverts encode_params on everything it accepts: every field, unbounded
      integers, and the raw threshold text. */
  lemma DecodeInvertsEncode(p: Params)
    requires Encode(p).Some?
    ensures Decode(Encode(p).value.0, Encode(p).value.1) == Some(p)
  {
    AcceptedArePlain(p);
    ReadsBackExactly(p);
  }

  lemma PauseRoundTrip(pause: bool)
    ensures Decode(5, Segment("mode", if pause then "pause" else "unpause")) == Some(PauseProtocol(pause))
  {
    OnePair("mode", if pause then "pause" else "unpause");
    assert "pause" != "unpause" by { assert |"pause"| == 5 && |"unpause"| == 7; }
  }

  /** Distinct accepted parameters have distinct wire forms. */
  lemma WireExact(p: Params, q: Params)
    requires Encode(p).Some? && Encode(q).Some?
    ensures Encode(p) == Encode(q) <==> p == q
  {
    DecodeInvertsEncode(p);
    DecodeInvertsEncode(q);
  }

  lemma ReadsOwnKind(code: int, kv: map<string, string>)
    requires DecodeFields(code, kv).Some?
    ensures Code(DecodeFields(code, kv).value) == code
  {
  }

  /** A reading that the encoder accepts encodes to a wire string with the same reading. */
  lemma AcceptedReadings(code: int, s: string)
    requires Decode(code, s).Some? && Accepted(Decode(code, s).value)
    ensures var p := Decode(code, s).value;
            Encode(p).Some? && Encode(p).value.0 == code && Decode(code, Encode(p).value.1) == Some(p)
  {
    ReadsOwnKind(code, KvPairs(s).value);
    DecodeInvertsEncode(Decode(code, s).value);
  }

  // ----- the execution message ------------------------------------------------------------------

  const EXECUTION_DOMAIN := "ae402:governance-dao:exec:v1"

  /** None where it raises. */
  function ExecutionMessage(proposalId: int, code: int, fields: string): Option<string> {
    if proposalId < 0 || code < 0 then None
    else Some(EXECUTION_DOMAIN + ":" + (IntStr(proposalId) + ":" + (IntStr(code) + ":" + fields)))
  }

  lemma CutIntFirst(m: int, s: string, n: int, t: string)
    requires IntStr(m) + ":" + s == IntStr(n) + ":" + t
    ensures m == n && s == t
  {
    IntStrLacks(m, ':');
    IntStrLacks(n, ':');
    CutAtFirst(':', IntStr(m), s, IntStr(n), t);
    IntStrInjective(m, n);
  }

  lemma ExecutionMessageExact(i: int, c: int, s: string, j: int, d: int, t: string)
    requires ExecutionMessage(i, c, s).Some? && ExecutionMessage(i, c, s) == ExecutionMessage(j, d, t)
    ensures i == j && c == d && s == t
  {
    var x, y := IntStr(i) + ":" + (IntStr(c) + ":" + s), IntStr(j) + ":" + (IntStr(d) + ":" + t);
    assert ExecutionMessage(j, d, t).Some?;
    assert x == (EXECUTION_DOMAIN + ":" + x)[|EXECUTION_DOMAIN| + 1..]
             == (EXECUTION_DOMAIN + ":" + y)[|EXECUTION_DOMAIN| + 1..] == y;
    CutIntFirst(i, IntStr(c) + ":" + s, j, IntStr(d) + ":" + t);
    CutIntFirst(c, s, d, t);
  }

  /** An execution message stands for one proposal with one set of parameters. */
  lemma MessageFixesProposal(i: int, p: Params, j: int, q: Params)
    requires i >= 0 && j >= 0 && Accepted(p) && Accepted(q)
    ensures ExecutionMessage(i, Code(p), Fields(p)) == ExecutionMessage(j, Code(q), Fields(q)) <==> i == j && p == q
  {
    if ExecutionMessage(i, Code(p), Fields(p)) == ExecutionMessage(j, Code(q), Fields(q)) {
      ExecutionMessageExact(i, Code(p), Fields(p), j, Code(q), Fields(q));
      WireExact(p, q);
    }
  }
}
