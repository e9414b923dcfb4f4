/** The contract's own parser of governance parameters, and how far the encoder and the
    decoder of module Governance keep to it. */
module GovernanceContract {
  import opened Wrappers
  import opened Decimal
  import opened KeyValue
  import opened Governance

  const U64: nat := 0x1_0000_0000_0000_0000

  type KvList = seq<(string, string)>

  // ----- splitting ------------------------------------------------------------------------------

  function PairList(segs: seq<string>): Option<KvList>
    decreases |segs|
  {
    if segs == [] then Some([]) else
      match (PairList(segs[..|segs| - 1]), Pair(segs[|segs| - 1]))
      case (Some(pairs), Some(p)) => Some(pairs + [p])
      case _ => None
  }

  function SplitKv(s: string): Option<KvList> {
    if s == "" then Some([]) else PairList(Split(s, ';'))
  }

  lemma {:induction false} PairListNone(segs: seq<string>, n: nat)
    requires n <= |segs| && PairList(segs[..n]).None?
    ensures PairList(segs).None?
    decreases |segs|
  {
    if n < |segs| {
      assert segs[..|segs| - 1][..n] == segs[..n];
      PairListNone(segs[..|segs| - 1], n);
    } else {
      assert segs[..n] == segs;
    }
  }

  /** None where it returns ERR_INVALID_PARAMS. */
  method SplitPairs(s: string) returns (r: Option<KvList>)
    ensures r == SplitKv(s)
  {
    var out: KvList := [];
    if s == "" {
      return Some(out);
    }
    var segs := Split(s, ';');
    for i := 0 to |segs|
      invariant PairList(segs[..i]) == Some(out)
    {
      assert segs[..i + 1][..i] == segs[..i];
      var segment := segs[i];
      var cut := IndexOf(segment, '=');
      if cut == |segment| || cut == 0 || cut + 1 == |segment| {
        PairListNone(segs, i + 1);
        return None;
      }
      out := out + [(segment[..cut], segment[cut + 1..])];
    }
    assert segs[..|segs|] == segs;
    return Some(out);
  }

  /** The value under the first occurrence of the key. */
  function FindKv(pairs: KvList, key: string): Option<string> {
    if pairs == [] then None else if pairs[0].0 == key then Some(pairs[0].1) else FindKv(pairs[1..], key)
  }

  method FindFirst(pairs: KvList, key: string) returns (r: Option<string>)
    ensures r == FindKv(pairs, key)
  {
    for i := 0 to |pairs|
      invariant FindKv(pairs[i..], key) == FindKv(pairs, key)
    {
      if pairs[i].0 == key {
        return Some(pairs[i].1);
      }
    }
    return None;
  }

  // ----- numbers --------------------------------------------------------------------------------

  /** Digits alone, below 2^64. */
  function ParseU64(s: string): Option<nat> {
    if AllDigits(s) && NatValue(s) < U64 then Some(NatValue(s)) else None
  }

  lemma {:induction false} PrefixValue(s: string, n: nat)
    requires n <= |s| && forall i | 0 <= i < |s| :: IsDigit(s[i])
    ensures NatValue(s[..n]) <= NatValue(s)
    decreases |s|
  {
    if n < |s| {
      assert s[..|s| - 1][..n] == s[..n];
      PrefixValue(s[..|s| - 1], n);
    } else {
      assert s[..n] == s;
    }
  }

  /** The checked arithmetic: an overflow on the way means one at the end. */
  method ReadU64(s: string) returns (r: Option<nat>)
    ensures r == ParseU64(s)
  {
    if s == "" {
      return None;
    }
    var acc: nat := 0;
    for i := 0 to |s|
      invariant forall j | 0 <= j < i :: IsDigit(s[j])
      invariant acc == NatValue(s[..i]) < U64
    {
      if !IsDigit(s[i]) {
        return None;
      }
      assert s[..i + 1][..i] == s[..i];
      if acc * 10 >= U64 || acc * 10 + DigitValue(s[i]) >= U64 {
        if AllDigits(s) {
          PrefixValue(s, i + 1);
        }
        return None;
      }
      acc := acc * 10 + DigitValue(s[i]);
    }
    assert s[..|s|] == s;
    return Some(acc);
  }

  function U64At(pairs: KvList, key: string): Option<nat> {
    match FindKv(pairs, key) case Some(v) => ParseU64(v) case None => None
  }

  // ----- parse_params ---------------------------------------------------------------------------

  datatype ParseError = InvalidParams | InvalidAction

  function Checked(ok: bool, p: Params): Result<Params, ParseError> {
    if ok then Ok(p) else Err(InvalidParams)
  }

  /** A pubkey of 66 hex characters, or a threshold from 1 to 64. */
  predicate RotationOk(op: string, value: string) {
    if op == "threshold" then ParseU64(value).Some? && 1 <= ParseU64(value).value <= 64
    else (op == "add" || op == "remove") && |value| == 66 && HexOk(value)
  }

  function ParsePairs(code: int, pairs: KvList): Result<Params, ParseError> {
    if code == 0 then
      match U64At(pairs, "bps")
      case Some(n) => Checked(n <= 10000, AdjustFeeBps(n))
      case None => Err(InvalidParams)
    else if code == 1 then
      match (FindKv(pairs, "op"), FindKv(pairs, "value"))
      case (Some(op), Some(value)) => Checked(RotationOk(op, value), RotateArbiterSet(op, value))
      case _ => Err(InvalidParams)
    else if code == 2 then
      match (U64At(pairs, "max_coverage_bps"), U64At(pairs, "cooldown_sec"))
      case (Some(m), Some(n)) => Checked(m <= 10000, UpdateInsurancePool(m, n))
      case _ => Err(InvalidParams)
    else if code == 3 then
      match U64At(pairs, "delay_sec")
      case Some(n) => Checked(n >= 3600, UpdateTimelockDelay(n))
      case None => Err(InvalidParams)
    else if code == 4 then
      match (U64At(pairs, "min_bits"), U64At(pairs, "max_bits"))
      case (Some(m), Some(n)) => Checked(1 <= m <= n <= 32, UpdateRangeProof(m, n))
      case _ => Err(InvalidParams)
    else if code == 5 then
      match FindKv(pairs, "mode")
      case Some(mode) => Checked(mode == "pause" || mode == "unpause", PauseProtocol(mode == "pause"))
      case None => Err(InvalidParams)
    else Err(InvalidAction)
  }

  function Parse(code: int, s: string): Result<Params, ParseError> {
    match SplitKv(s)
    case Some(pairs) => ParsePairs(code, pairs)
    case None => Err(InvalidParams)
  }

  // ----- the first and the last value of a key --------------------------------------------------

  function First(pairs: KvList): map<string, string> {
    if pairs == [] then map[] else First(pairs[1..])[pairs[0].0 := pairs[0].1]
  }

  function Last(pairs: KvList): map<string, string> {
    if pairs == [] then map[] else Last(pairs[..|pairs| - 1])[pairs[|pairs| - 1].0 := pairs[|pairs| - 1].1]
  }

  lemma {:induction false} FindIsFirst(pairs: KvList, key: string)
    ensures FindKv(pairs, key) == if key in First(pairs) then Some(First(pairs)[key]) else None
  {
    if pairs != [] {
      FindIsFirst(pairs[1..], key);
    }
  }

  lemma {:induction false} LastIsRead(segs: seq<string>)
    ensures Pairs(segs) == if PairList(segs).Some? then Some(Last(PairList(segs).value)) else None
    decreases |segs|
  {
    if segs != [] {
      LastIsRead(segs[..|segs| - 1]);
      match (PairList(segs[..|segs| - 1]), Pair(segs[|segs| - 1]))
      case (Some(pairs), Some(p)) => assert (pairs + [p])[..|pairs|] == pairs;
      case _ =>
    }
  }

  /** Both sides split alike; the decoder keeps the last value of a key. */
  lemma DecoderReadsLast(code: int, s: string)
    ensures KvPairs(s) == if SplitKv(s).Some? then Some(Last(SplitKv(s).value)) else None
    ensures Decode(code, s) == if SplitKv(s).Some? then DecodeFields(code, Last(SplitKv(s).value)) else None
  {
    LastIsRead(Split(s, ';'));
  }

  predicate NoRepeats(pairs: KvList) {
    forall i, j | 0 <= i < j < |pairs| :: pairs[i].0 != pairs[j].0
  }

  lemma {:induction false} FirstMembers(pairs: KvList, k: string)
    ensures k in First(pairs) <==> exists i :: 0 <= i < |pairs| && pairs[i].0 == k
    ensures k in First(pairs) ==> exists i :: 0 <= i < |pairs| && pairs[i] == (k, First(pairs)[k])
  {
    if pairs != [] {
      FirstMembers(pairs[1..], k);
      if i :| 0 <= i < |pairs| && pairs[i].0 == k {
        assert i > 0 ==> pairs[1..][i - 1].0 == k;
      }
      if k in First(pairs[1..]) {
        var i :| 0 <= i < |pairs[1..]| && pairs[1..][i] == (k, First(pairs[1..])[k]);
        assert pairs[i + 1] == (k, First(pairs[1..])[k]);
      }
      assert k == pairs[0].0 ==> pairs[0] == (k, First(pairs)[k]);
    }
  }

  lemma {:induction false} LastMembers(pairs: KvList, k: string)
    ensures k in Last(pairs) <==> exists i :: 0 <= i < |pairs| && pairs[i].0 == k
    ensures k in Last(pairs) ==> exists i :: 0 <= i < |pairs| && pairs[i] == (k, Last(pairs)[k])
    decreases |pairs|
  {
    if pairs != [] {
      var n := |pairs| - 1;
      LastMembers(pairs[..n], k);
      if i :| 0 <= i < |pairs| && pairs[i].0 == k {
        assert i < n ==> pairs[..n][i].0 == k;
      }
      if k in Last(pairs[..n]) {
        var i :| 0 <= i < |pairs[..n]| && pairs[..n][i] == (k, Last(pairs[..n])[k]);
        assert pairs[i] == (k, Last(pairs[..n])[k]);
      }
      assert k == pairs[n].0 ==> pairs[n] == (k, Last(pairs)[k]);
    }
  }

  lemma NoRepeatsOneReading(pairs: KvList)
    requires NoRepeats(pairs)
    ensures First(pairs) == Last(pairs)
  {
    forall k
      ensures k in First(pairs) <==> k in Last(pairs)
      ensures k in First(pairs) && k in Last(pairs) ==> First(pairs)[k] == Last(pairs)[k]
    {
      FirstMembers(pairs, k);
      LastMembers(pairs, k);
    }
  }

  // ----- what the contract asks for beyond the encoder ---------------------------------------------

  predicate U64In(kv: map<string, string>, key: string) {
    key in kv && ParseU64(kv[key]).Some?
  }

  /** Every number the action reads is written in digits alone and lies below 2^64. */
  predicate Numerals(code: int, kv: map<string, string>) {
    if code == 0 then U64In(kv, "bps")
    else if code == 1 then "op" in kv && kv["op"] == "threshold" ==> U64In(kv, "value")
    else if code == 2 then U64In(kv, "max_coverage_bps") && U64In(kv, "cooldown_sec")
    else if code == 3 then U64In(kv, "delay_sec")
    else if code == 4 then U64In(kv, "min_bits") && U64In(kv, "max_bits")
    else true
  }

  lemma NumberAlike(s: string)
    ensures ParseU64(s).Some? ==> PyInt(s) == Some(ParseU64(s).value)
  {
    if ParseU64(s).Some? {
      PyIntOfDigits(s);
    }
  }

  lemma IntAlike(pairs: KvList, key: string)
    ensures
      var kv := First(pairs);
      && (U64At(pairs, key).Some? <==> U64In(kv, key))
      && (U64At(pairs, key).Some? ==> IntAt(kv, key) == Some(U64At(pairs, key).value))
  {
    FindIsFirst(pairs, key);
    if key in First(pairs) {
      NumberAlike(First(pairs)[key]);
    }
  }

  /** The contract takes what the decoder reads off the first values, if the encoder accepts
      it and its numbers are plain numerals. */
  ghost predicate ParsesAs(code: int, pairs: KvList, p: Params) {
    ParsePairs(code, pairs) == Ok(p)
    <==> DecodeFields(code, First(pairs)) == Some(p) && Accepted(p) && Numerals(code, First(pairs))
  }

  lemma ParsesInt(code: int, pairs: KvList, key: string, p: Params)
    requires (code == 0 && key == "bps") || (code == 3 && key == "delay_sec")
    ensures ParsesAs(code, pairs, p)
  {
    IntAlike(pairs, key);
  }

  lemma ParsesPool(pairs: KvList, p: Params)
    ensures ParsesAs(2, pairs, p)
  {
    IntAlike(pairs, "max_coverage_bps");
    IntAlike(pairs, "cooldown_sec");
  }

  lemma ParsesBits(pairs: KvList, p: Params)
    ensures ParsesAs(4, pairs, p)
  {
    IntAlike(pairs, "min_bits");
    IntAlike(pairs, "max_bits");
  }

  lemma ParsesRotation(pairs: KvList, p: Params)
    ensures ParsesAs(1, pairs, p)
  {
    FindIsFirst(pairs, "op");
    FindIsFirst(pairs, "value");
    if "value" in First(pairs) {
      NumberAlike(First(pairs)["value"]);
    }
  }

  lemma ParsesMode(pairs: KvList, p: Params)
    ensures ParsesAs(5, pairs, p)
  {
    FindIsFirst(pairs, "mode");
  }

  lemma ParsesExactly(code: int, pairs: KvList, p: Params)
    ensures ParsesAs(code, pairs, p)
  {
    if code == 0 {
      ParsesInt(0, pairs, "bps", p);
    } else if code == 1 {
      ParsesRotation(pairs, p);
    } else if code == 2 {
      ParsesPool(pairs, p);
    } else if code == 3 {
      ParsesInt(3, pairs, "delay_sec", p);
    } else if code == 4 {
      ParsesBits(pairs, p);
    } else if code == 5 {
      ParsesMode(pairs, p);
    }
  }

  // ----- the decoder against the contract -------------------------------------------------------------

  /** The documented promise for one wire string: what the decoder lets through the contract
      reads alike. */
  predicate MeetsSchema(code: int, s: string) {
    Decode(code, s).Some? ==> Parse(code, s) == Ok(Decode(code, s).value)
  }

  /** For every string: the promise is kept if and only if nothing is decoded, or the first
      values read as the last ones do, in range and in plain numerals. */
  lemma SchemaExactly(code: int, s: string)
    requires Decode(code, s).Some?
    ensures SplitKv(s).Some?
    ensures MeetsSchema(code, s)
            <==> var p, kv := Decode(code, s).value, First(SplitKv(s).value);
                 DecodeFields(code, kv) == Some(p) && Accepted(p) && Numerals(code, kv)
  {
    DecoderReadsLast(code, s);
    ParsesExactly(code, SplitKv(s).value, Decode(code, s).value);
  }

  /** Where no key is repeated, the contract takes exactly what is decoded in range and in
      plain numerals, and reads it alike. */
  lemma OneReading(code: int, s: string)
    requires SplitKv(s).Some? && NoRepeats(SplitKv(s).value)
    ensures Parse(code, s).Ok?
            <==> Decode(code, s).Some? && Accepted(Decode(code, s).value) && Numerals(code, KvPairs(s).value)
    ensures Parse(code, s).Ok? ==> Decode(code, s) == Some(Parse(code, s).value)
  {
    var pairs := SplitKv(s).value;
    DecoderReadsLast(code, s);
    NoRepeatsOneReading(pairs);
    if Decode(code, s).Some? {
      ParsesExactly(code, pairs, Decode(code, s).value);
    }
    if Parse(code, s).Ok? {
      ParsesExactly(code, pairs, Parse(code, s).value);
    }
  }

  // ----- written parameters ---------------------------------------------------------------------------

  lemma ListSnoc(segs: seq<string>, seg: string)
    requires PairList(segs).Some? && Pair(seg).Some?
    ensures PairList(segs + [seg]) == Some(PairList(segs).value + [Pair(seg).value])
  {
    assert (segs + [seg])[..|segs|] == segs;
  }

  lemma OneListed(key: string, value: string)
    requires Writable(key, value)
    ensures SplitKv(Segment(key, value)) == Some([(key, value)])
  {
    var a := Segment(key, value);
    SegmentParses(key, value);
    SplitOne(a, ';');
    ListSnoc([], a);
    assert [] + [a] == [a] && [] + [(key, value)] == [(key, value)];
  }

  lemma TwoSplit(k1: string, v1: string, k2: string, v2: string)
    requires Writable(k1, v1) && Writable(k2, v2)
    ensures
      var a, b := Segment(k1, v1), Segment(k2, v2);
      a + ";" + b != "" && Split(a + ";" + b, ';') == [a] + [b]
  {
    var a, b := Segment(k1, v1), Segment(k2, v2);
    SegmentParses(k1, v1);
    SegmentParses(k2, v2);
    SplitFirst(a, b, ';');
    SplitOne(b, ';');
    assert a + ";" + b == a + [';'] + b;
  }

  lemma TwoListed(k1: string, v1: string, k2: string, v2: string)
    requires Writable(k1, v1) && Writable(k2, v2)
    ensures SplitKv(Segment(k1, v1) + ";" + Segment(k2, v2)) == Some([(k1, v1), (k2, v2)])
  {
    var a, b := Segment(k1, v1), Segment(k2, v2);
    TwoSplit(k1, v1, k2, v2);
    OneListed(k1, v1);
    SegmentParses(k1, v1);
    SegmentParses(k2, v2);
    SplitOne(a, ';');
    ListSnoc([a], b);
    assert [(k1, v1)] + [(k2, v2)] == [(k1, v1), (k2, v2)];
  }

  lemma NumeralsOf(n: int)
    ensures ParseU64(IntStr(n)).Some? <==> 0 <= n < U64
  {
    if n >= 0 {
      NatRoundTrip(n);
    } else {
      assert IntStr(n)[0] == '-';
    }
  }

  /** What the encoder should ask for besides: integers below 2^64, a threshold in digits. */
  predicate Fits(p: Params) {
    match p
    case UpdateInsurancePool(_, cooldownSec) => cooldownSec < U64
    case UpdateTimelockDelay(delaySec) => delaySec < U64
    case RotateArbiterSet(op, value) => op == "threshold" ==> AllDigits(value)
    case _ => true
  }

  lemma ThresholdNumeral(value: string)
    requires ValueOk("threshold", value)
    ensures ParseU64(value).Some? <==> AllDigits(value)
  {
    if AllDigits(value) {
      PyIntOfDigits(value);
    }
  }

  /** A written key occurs once, and what is written fits where the numerals are plain. */
  predicate WrittenWell(p: Params) {
    && SplitKv(Fields(p)).Some? && NoRepeats(SplitKv(Fields(p)).value) && KvPairs(Fields(p)).Some?
    && (Accepted(p) ==> (Numerals(Code(p), KvPairs(Fields(p)).value) <==> Fits(p)))
  }

  lemma WrittenInt(p: Params, key: string, n: int)
    requires Writable(key, "0") && Fields(p) == Segment(key, IntStr(n))
    requires var kv := map[key := IntStr(n)]; Numerals(Code(p), kv) <==> U64In(kv, key)
    requires Accepted(p) ==> n >= 0 && (Fits(p) <==> n < U64)
    ensures WrittenWell(p)
  {
    IntWritable(n);
    OneListed(key, IntStr(n));
    OnePair(key, IntStr(n));
    NumeralsOf(n);
    assert map[key := IntStr(n)][key] == IntStr(n);
  }

  lemma WrittenInts(k1: string, m: int, k2: string, n: int)
    requires Writable(k1, "0") && Writable(k2, "0")
    ensures
      var s := Segment(k1, IntStr(m)) + ";" + Segment(k2, IntStr(n));
      && SplitKv(s) == Some([(k1, IntStr(m)), (k2, IntStr(n))])
      && KvPairs(s) == Some(map[k1 := IntStr(m)][k2 := IntStr(n)])
    ensures ParseU64(IntStr(m)).Some? <==> 0 <= m < U64
    ensures ParseU64(IntStr(n)).Some? <==> 0 <= n < U64
  {
    IntWritable(m);
    IntWritable(n);
    TwoListed(k1, IntStr(m), k2, IntStr(n));
    TwoPairs(k1, IntStr(m), k2, IntStr(n));
    NumeralsOf(m);
    NumeralsOf(n);
  }

  lemma WrittenTwo(p: Params, k1: string, m: int, k2: string, n: int)
    requires Writable(k1, "0") && Writable(k2, "0") && k1 != k2
    requires Fields(p) == Segment(k1, IntStr(m)) + ";" + Segment(k2, IntStr(n))
    requires var kv := map[k1 := IntStr(m)][k2 := IntStr(n)]; Numerals(Code(p), kv) <==> U64In(kv, k1) && U64In(kv, k2)
    requires Accepted(p) ==> m >= 0 && n >= 0 && (Fits(p) <==> m < U64 && n < U64)
    ensures WrittenWell(p)
  {
    WrittenInts(k1, m, k2, n);
    var kv := map[k1 := IntStr(m)][k2 := IntStr(n)];
    assert kv[k1] == IntStr(m) && kv[k2] == IntStr(n);
  }

  lemma WrittenRotation(op: string, value: string)
    requires PlainValue(op) && PlainValue(value)
    ensures WrittenWell(RotateArbiterSet(op, value))
  {
    assert "op" != "value" by { assert |"op"| == 2 && |"value"| == 5; }
    TwoListed("op", op, "value", value);
    TwoPairs("op", op, "value", value);
    var kv := map["op" := op]["value" := value];
    assert kv["op"] == op && kv["value"] == value;
    if ValueOk("threshold", value) {
      ThresholdNumeral(value);
    }
  }

  lemma WrittenMode(pause: bool)
    ensures WrittenWell(PauseProtocol(pause))
  {
    OneListed("mode", if pause then "pause" else "unpause");
    OnePair("mode", if pause then "pause" else "unpause");
  }

  lemma WrittenOnce(p: Params)
    requires Plain(p)
    ensures WrittenWell(p)
  {
    KeysDiffer();
    match p
    case AdjustFeeBps(n) => WrittenInt(p, "bps", n);
    case RotateArbiterSet(op, value) => WrittenRotation(op, value);
    case UpdateInsurancePool(m, n) => WrittenTwo(p, "max_coverage_bps", m, "cooldown_sec", n);
    case UpdateTimelockDelay(n) => WrittenInt(p, "delay_sec", n);
    case UpdateRangeProof(m, n) => WrittenTwo(p, "min_bits", m, "max_bits", n);
    case PauseProtocol(pause) => WrittenMode(pause);
  }

  /** For parameters of all six kinds: the contract reads what is written back if and only if
      the encoder accepts it and it fits. */
  lemma ContractReadsBackExactly(p: Params)
    ensures Parse(Code(p), Fields(p)) == Ok(p) <==> Accepted(p) && Fits(p)
    ensures Plain(p) && Parse(Code(p), Fields(p)).Ok? ==> Parse(Code(p), Fields(p)) == Ok(p)
  {
    if Plain(p) {
      WrittenOnce(p);
      ReadsBackExactly(p);
      OneReading(Code(p), Fields(p));
    } else {
      if SplitKv(Fields(p)).Some? {
        ParsesExactly(Code(p), SplitKv(Fields(p)).value, p);
      }
      if Accepted(p) {
        AcceptedArePlain(p);
      }
    }
  }

  /** The encoder promises to refuse what the contract would. It keeps the promise if and only
      if what it accepts fits, and it refuses nothing the contract would take. */
  lemma EncoderPromiseExactly(p: Params)
    ensures (Encode(p).Some? ==> Parse(Encode(p).value.0, Encode(p).value.1).Ok?) <==> (Accepted(p) ==> Fits(p))
    ensures Parse(Code(p), Fields(p)) == Ok(p) ==> Encode(p).Some?
  {
    ContractReadsBackExactly(p);
    if Accepted(p) {
      AcceptedArePlain(p);
    }
  }

  /** Inputs that break it: a delay of 2^64 seconds, and a threshold with a space. */
  lemma EncodedButRefused()
    ensures Encode(UpdateTimelockDelay(U64)).Some? && Parse(3, Fields(UpdateTimelockDelay(U64))).Err?
    ensures Encode(RotateArbiterSet("threshold", " 5")).Some?
            && Parse(1, Fields(RotateArbiterSet("threshold", " 5"))).Err?
  {
    EncoderPromiseExactly(UpdateTimelockDelay(U64));
    SpacedFive();
    EncoderPromiseExactly(RotateArbiterSet("threshold", " 5"));
  }

  lemma SpacedFive()
    ensures PyInt(" 5") == Some(5) && !AllDigits(" 5")
  {
    assert " 5"[1..] == "5" && LStrip(" 5") == "5";
    StripKeeps("5");
    PyIntOfDigits("5");
    assert "5"[..0] == "" && NatValue("5") == 5;
  }

  /** The decoder checks neither range nor op nor spelling: on written parameters of any of
      the six kinds it keeps to the contract's schema if and only if the encoder accepts
      them and they fit. */
  lemma DecoderChecksNoRange(p: Params)
    requires Plain(p)
    ensures Decode(Code(p), Fields(p)) == Some(p)
    ensures MeetsSchema(Code(p), Fields(p)) <==> Accepted(p) && Fits(p)
  {
    ReadsBackExactly(p);
    ContractReadsBackExactly(p);
  }

  /** With a repeated key one wire string has two readings. */
  lemma TwoReadings(m: int, n: int)
    requires 0 <= m <= 10000 && 0 <= n <= 10000
    ensures
      var s := Segment("bps", IntStr(m)) + ";" + Segment("bps", IntStr(n));
      Parse(0, s) == Ok(AdjustFeeBps(m)) && Decode(0, s) == Some(AdjustFeeBps(n)) && (MeetsSchema(0, s) <==> m == n)
  {
    WrittenInts("bps", m, "bps", n);
    NumberAlike(IntStr(m));
    PyIntInvertsIntStr(m);
    PyIntInvertsIntStr(n);
  }
}
