/** The governance wire strings written out, and what any string reads as. */
module GovernanceText {
  import opened Wrappers
  import opened Text
  import opened Decimal
  import opened Hex
  import opened KeyValue
  import opened Governance
  import opened GovernanceContract

  // ----- what is written ---------------------------------------------------------------------------

  /** The text of each kind of parameters. */
  function WireText(p: Params): string {
    match p
    case AdjustFeeBps(bps) => "bps=" + IntStr(bps)
    case RotateArbiterSet(op, value) => "op=" + op + ";value=" + value
    case UpdateInsurancePool(most, cooldown) => "max_coverage_bps=" + IntStr(most) + ";cooldown_sec=" + IntStr(cooldown)
    case UpdateTimelockDelay(delay) => "delay_sec=" + IntStr(delay)
    case UpdateRangeProof(low, high) => "min_bits=" + IntStr(low) + ";max_bits=" + IntStr(high)
    case PauseProtocol(pause) => if pause then "mode=pause" else "mode=unpause"
  }

  lemma TwoSegments(k1: string, v1: string, k2: string, v2: string)
    ensures Segment(k1, v1) + ";" + Segment(k2, v2) == k1 + "=" + v1 + (";" + k2 + "=") + v2
  {
  }

  lemma FieldsText(p: Params)
    ensures Fields(p) == WireText(p)
  {
    match p
    case AdjustFeeBps(_) => assert "bps" + "=" == "bps=";
    case RotateArbiterSet(op, value) =>
      TwoSegments("op", op, "value", value);
      assert "op" + "=" == "op=" && ";" + "value" + "=" == ";value=";
    case UpdateInsurancePool(most, cooldown) =>
      TwoSegments("max_coverage_bps", IntStr(most), "cooldown_sec", IntStr(cooldown));
      assert "max_coverage_bps" + "=" == "max_coverage_bps=" && ";" + "cooldown_sec" + "=" == ";cooldown_sec=";
    case UpdateTimelockDelay(_) => assert "delay_sec" + "=" == "delay_sec=";
    case UpdateRangeProof(low, high) =>
      TwoSegments("min_bits", IntStr(low), "max_bits", IntStr(high));
      assert "min_bits" + "=" == "min_bits=" && ";" + "max_bits" + "=" == ";max_bits=";
    case PauseProtocol(pause) =>
      assert "mode" + "=" + "pause" == "mode=pause" && "mode" + "=" + "unpause" == "mode=unpause";
  }

  /** What the encoder returns: the action's number and the text. */
  lemma EncodedText(p: Params)
    requires Encode(p).Some?
    ensures Encode(p).value.1 == WireText(p)
    ensures Encode(p).value.0 == match p
                                 case AdjustFeeBps(_) => 0
                                 case RotateArbiterSet(_, _) => 1
                                 case UpdateInsurancePool(_, _) => 2
                                 case UpdateTimelockDelay(_) => 3
                                 case UpdateRangeProof(_, _) => 4
                                 case PauseProtocol(_) => 5
  {
    FieldsText(p);
  }

  /** The signed text of an execution. */
  lemma ExecutionText(proposalId: int, code: int, fields: string)
    ensures ExecutionMessage(proposalId, code, fields)
            == if proposalId < 0 || code < 0 then None
               else Some("ae402:governance-dao:exec:v1:" + IntStr(proposalId) + ":" + IntStr(code) + ":" + fields)
  {
    assert EXECUTION_DOMAIN + ":" == "ae402:governance-dao:exec:v1:";
    assert EXECUTION_DOMAIN + ":" + (IntStr(proposalId) + ":" + (IntStr(code) + ":" + fields))
        == EXECUTION_DOMAIN + ":" + IntStr(proposalId) + ":" + IntStr(code) + ":" + fields;
  }

  /** The numbers the contract reads: digits alone, of any number, that stay below 2^64. */
  lemma NumeralsExactly(s: string, n: nat)
    ensures ParseU64(s) == Some(n)
            <==> n < 18446744073709551616 && s != "" && (forall i | 0 <= i < |s| :: '0' <= s[i] <= '9')
                 && PyInt(s) == Some(n)
  {
    if s != "" && forall i | 0 <= i < |s| :: '0' <= s[i] <= '9' {
      PyIntOfDigits(s);
    }
  }

  // ----- what is read ------------------------------------------------------------------------------

  lemma {:induction false} JoinSplit(s: string, sep: char)
    ensures Join(Split(s, sep), sep) == s
  {
    if s != [] {
      var rest := Split(s[1..], sep);
      JoinSplit(s[1..], sep);
      assert s == [s[0]] + s[1..];
      if s[0] == sep {
        assert ([[]] + rest)[1..] == rest;
      } else {
        JoinGrows(s[0], rest, sep);
      }
    }
  }

  lemma JoinGrows(c: char, rest: seq<string>, sep: char)
    requires rest != []
    ensures Join([[c] + rest[0]] + rest[1..], sep) == [c] + Join(rest, sep)
  {
    var grown := [[c] + rest[0]] + rest[1..];
    assert grown[1..] == rest[1..];
    if |rest| > 1 {
      assert [c] + rest[0] + [sep] + Join(rest[1..], sep) == [c] + (rest[0] + [sep] + Join(rest[1..], sep));
    } else {
      assert rest[1..] == [];
    }
  }

  function Segments(pairs: KvList): (segs: seq<string>)
    ensures |segs| == |pairs| && forall i | 0 <= i < |pairs| :: segs[i] == pairs[i].0 + "=" + pairs[i].1
  {
    seq(|pairs|, i requires 0 <= i < |pairs| => pairs[i].0 + "=" + pairs[i].1)
  }

  /** Keys and values that are there, no key with an equals sign, neither with a semicolon. */
  ghost predicate AllWritable(pairs: KvList) {
    forall i | 0 <= i < |pairs| :: Writable(pairs[i].0, pairs[i].1)
  }

  lemma PairExactly(seg: string, p: (string, string))
    requires Lacks(seg, ';')
    ensures Pair(seg) == Some(p) <==> Writable(p.0, p.1) && seg == p.0 + "=" + p.1
  {
    var k := IndexOf(seg, '=');
    if Pair(seg) == Some(p) {
      assert seg == seg[..k] + "=" + seg[k + 1..];
      BeforeFirst(seg, '=');
    }
    if Writable(p.0, p.1) && seg == p.0 + "=" + p.1 {
      SegmentParses(p.0, p.1);
    }
  }

  lemma {:induction false} BeforeFirst(s: string, c: char)
    ensures Lacks(s[..IndexOf(s, c)], c)
  {
    if s != [] && s[0] != c {
      BeforeFirst(s[1..], c);
      assert s[..IndexOf(s, c)] == [s[0]] + s[1..][..IndexOf(s[1..], c)];
    }
  }

  lemma {:induction false} ListExactly(segs: seq<string>, pairs: KvList)
    requires forall i | 0 <= i < |segs| :: Lacks(segs[i], ';')
    ensures PairList(segs) == Some(pairs) <==> AllWritable(pairs) && segs == Segments(pairs)
    decreases |segs|
  {
    if segs != [] && pairs != [] {
      var n, m := |segs| - 1, |pairs| - 1;
      ListExactly(segs[..n], pairs[..m]);
      PairExactly(segs[n], pairs[m]);
      assert pairs == pairs[..m] + [pairs[m]] && segs == segs[..n] + [segs[n]];
      assert Segments(pairs) == Segments(pairs[..m]) + [pairs[m].0 + "=" + pairs[m].1];
    }
  }

  /** A string reads as these pairs if and only if it is they, key=value, joined by
      semicolons; the empty string reads as none. */
  lemma ReadsAsExactly(s: string, pairs: KvList)
    ensures SplitKv(s) == Some(pairs)
            <==> AllWritable(pairs) && if pairs == [] then s == "" else s == Join(Segments(pairs), ';')
  {
    var segs := Split(s, ';');
    SplitLacks(s, ';');
    ListExactly(segs, pairs);
    JoinSplit(s, ';');
    if AllWritable(pairs) && pairs != [] && s == Join(Segments(pairs), ';') {
      forall i | 0 <= i < |pairs|
        ensures Lacks(Segments(pairs)[i], ';')
      {
        SegmentParses(pairs[i].0, pairs[i].1);
      }
      SplitJoin(Segments(pairs), ';');
      JoinNotEmpty(Segments(pairs), ';');
    }
  }

  lemma JoinNotEmpty(parts: seq<string>, sep: char)
    requires parts != [] && parts[0] != ""
    ensures Join(parts, sep) != ""
  {
  }

  /** The pair that no other with its key precedes, or follows. */
  ghost predicate IsFirst(pairs: KvList, i: nat) {
    i < |pairs| && forall j | 0 <= j < i :: pairs[j].0 != pairs[i].0
  }

  ghost predicate IsLast(pairs: KvList, i: nat) {
    i < |pairs| && forall j | i < j < |pairs| :: pairs[j].0 != pairs[i].0
  }

  lemma {:induction false} FirstHolds(pairs: KvList, i: nat)
    requires IsFirst(pairs, i)
    ensures FindKv(pairs, pairs[i].0) == Some(pairs[i].1)
  {
    if i > 0 {
      assert pairs[0].0 != pairs[i].0;
      assert forall j | 0 <= j < i - 1 :: pairs[1..][j].0 == pairs[j + 1].0;
      FirstHolds(pairs[1..], i - 1);
    }
  }

  lemma {:induction false} LastHolds(pairs: KvList, i: nat)
    requires IsLast(pairs, i)
    ensures pairs[i].0 in Last(pairs) && Last(pairs)[pairs[i].0] == pairs[i].1
    decreases |pairs|
  {
    var n := |pairs| - 1;
    if i < n {
      assert IsLast(pairs[..n], i) by {
        forall j | i < j < n
          ensures pairs[..n][j].0 != pairs[..n][i].0
        {
          assert pairs[..n][j] == pairs[j];
        }
      }
      LastHolds(pairs[..n], i);
      assert pairs[n].0 != pairs[i].0;
    }
  }

  /** Of a key written several times the contract takes the first value, the decoder the last. */
  lemma RepeatedKey(s: string, pairs: KvList, first: nat, last: nat)
    requires SplitKv(s) == Some(pairs) && IsFirst(pairs, first) && IsLast(pairs, last)
    requires pairs[first].0 == pairs[last].0
    ensures var key := pairs[first].0;
            && FindKv(pairs, key) == Some(pairs[first].1)
            && KvPairs(s).Some? && key in KvPairs(s).value && KvPairs(s).value[key] == pairs[last].1
  {
    FirstHolds(pairs, first);
    LastHolds(pairs, last);
    DecoderReadsLast(0, s);
  }
}
