/** The `k=v;k=v` splitter of the governance wire format. */
module KeyValue {
  import opened Wrappers
  import opened Text

  /** s.split(sep) */
  function Split(s: string, sep: char): (r: seq<string>)
    ensures r != []
  {
    if s == [] then [[]]
    else
      var rest := Split(s[1..], sep);
      if s[0] == sep then [[]] + rest else [[s[0]] + rest[0]] + rest[1..]
  }

  function Join(parts: seq<string>, sep: char): string
    requires parts != []
  {
    if |parts| == 1 then parts[0] else parts[0] + [sep] + Join(parts[1..], sep)
  }

  lemma {:induction false} SplitOne(s: string, sep: char)
    requires Lacks(s, sep)
    ensures Split(s, sep) == [s]
    decreases |s|
  {
    if s != [] {
      SplitOne(s[1..], sep);
      assert s == [s[0]] + s[1..];
    }
  }

  lemma {:induction false} SplitFirst(a: string, b: string, sep: char)
    requires Lacks(a, sep)
    ensures Split(a + [sep] + b, sep) == [a] + Split(b, sep)
    decreases |a|
  {
    var s := a + [sep] + b;
    if a == [] {
      assert s[1..] == b;
    } else {
      assert s[1..] == a[1..] + [sep] + b;
      SplitFirst(a[1..], b, sep);
      assert a == [a[0]] + a[1..];
    }
  }

  /** Splitting undoes joining. */
  lemma {:induction false} SplitJoin(parts: seq<string>, sep: char)
    requires parts != [] && forall i | 0 <= i < |parts| :: Lacks(parts[i], sep)
    ensures Split(Join(parts, sep), sep) == parts
    decreases |parts|
  {
    if |parts| == 1 {
      SplitOne(parts[0], sep);
    } else {
      SplitFirst(parts[0], Join(parts[1..], sep), sep);
      SplitJoin(parts[1..], sep);
      assert parts == [parts[0]] + parts[1..];
    }
  }

  lemma {:induction false} SplitLacks(s: string, sep: char)
    ensures forall i | 0 <= i < |Split(s, sep)| :: Lacks(Split(s, sep)[i], sep)
    decreases |s|
  {
    if s != [] {
      SplitLacks(s[1..], sep);
      var rest := Split(s[1..], sep);
      assert s[0] != sep ==> Lacks([s[0]] + rest[0], sep);
    }
  }

  /** Where the character first occurs, or the length. */
  function IndexOf(s: string, c: char): (k: nat)
    ensures k <= |s| && (k == |s| <==> Lacks(s, c)) && (k < |s| ==> s[k] == c)
  {
    if s == [] || s[0] == c then 0 else 1 + IndexOf(s[1..], c)
  }

  lemma {:induction false} IndexOfFirst(a: string, b: string, c: char)
    requires Lacks(a, c)
    ensures IndexOf(a + [c] + b, c) == |a|
    decreases |a|
  {
    if a != [] {
      assert (a + [c] + b)[1..] == a[1..] + [c] + b;
      IndexOfFirst(a[1..], b, c);
    }
  }

  /** One segment: key and value around its first '='; None where the code raises. */
  function Pair(seg: string): Option<(string, string)> {
    var k := IndexOf(seg, '=');
    if k == |seg| || k == 0 || k + 1 == |seg| then None else Some((seg[..k], seg[k + 1..]))
  }

  lemma PairOf(key: string, value: string)
    requires Lacks(key, '=') && key != "" && value != ""
    ensures Pair(key + ['='] + value) == Some((key, value))
  {
    IndexOfFirst(key, value, '=');
    var seg := key + ['='] + value;
    assert seg[..|key|] == key && seg[|key| + 1..] == value;
  }

  /** The pairs of the first n segments; a repeated key keeps its last value. */
  function Pairs(segs: seq<string>): Option<map<string, string>>
    decreases |segs|
  {
    if segs == [] then Some(map[]) else
      match Pairs(segs[..|segs| - 1])
      case None => None
      case Some(m) =>
        match Pair(segs[|segs| - 1])
        case None => None
        case Some(p) => Some(m[p.0 := p.1])
  }

  function KvPairs(s: string): Option<map<string, string>> {
    if s == "" then Some(map[]) else Pairs(Split(s, ';'))
  }

  lemma {:induction false} PairsNone(segs: seq<string>, n: nat)
    requires n <= |segs| && Pairs(segs[..n]).None?
    ensures Pairs(segs).None?
    decreases |segs|
  {
    if n < |segs| {
      assert segs[..|segs| - 1][..n] == segs[..n];
      PairsNone(segs[..|segs| - 1], n);
    } else {
      assert segs[..n] == segs;
    }
  }

  /** None where it raises, at the first malformed segment. */
  method ReadKvPairs(s: string) returns (r: Option<map<string, string>>)
    ensures r == KvPairs(s)
  {
    var pairs: map<string, string> := map[];
    if s == "" {
      return Some(pairs);
    }
    var segs := Split(s, ';');
    for i := 0 to |segs|
      invariant Pairs(segs[..i]) == Some(pairs)
    {
      assert segs[..i + 1][..i] == segs[..i];
      var p := Pair(segs[i]);
      if p.None? {
        PairsNone(segs, i + 1);
        return None;
      }
      pairs := pairs[p.value.0 := p.value.1];
    }
    assert segs[..|segs|] == segs;
    return Some(pairs);
  }

  /** A segment that can be written: no separator where it would be misread. */
  predicate Writable(key: string, value: string) {
    key != "" && value != "" && Lacks(key, '=') && Lacks(key, ';') && Lacks(value, ';')
  }

  function Segment(key: string, value: string): string {
    key + "=" + value
  }

  lemma SegmentParses(key: string, value: string)
    requires Writable(key, value)
    ensures Lacks(Segment(key, value), ';') && Pair(Segment(key, value)) == Some((key, value))
          && Segment(key, value) != ""
  {
    assert Segment(key, value) == key + ['='] + value;
    PairOf(key, value);
  }

  lemma PairsSnoc(segs: seq<string>, seg: string)
    requires Pairs(segs).Some? && Pair(seg).Some?
    ensures Pairs(segs + [seg]) == Some(Pairs(segs).value[Pair(seg).value.0 := Pair(seg).value.1])
  {
    assert (segs + [seg])[..|segs|] == segs;
  }

  lemma OnePair(key: string, value: string)
    requires Writable(key, value)
    ensures KvPairs(Segment(key, value)) == Some(map[key := value])
  {
    var a := Segment(key, value);
    SegmentParses(key, value);
    SplitOne(a, ';');
    PairsSnoc([], a);
    assert [] + [a] == [a];
  }

  lemma TwoPairs(k1: string, v1: string, k2: string, v2: string)
    requires Writable(k1, v1) && Writable(k2, v2)
    ensures KvPairs(Segment(k1, v1) + ";" + Segment(k2, v2)) == Some(map[k1 := v1][k2 := v2])
  {
    var a, b := Segment(k1, v1), Segment(k2, v2);
    SegmentParses(k1, v1);
    SegmentParses(k2, v2);
    SplitFirst(a, b, ';');
    SplitOne(b, ';');
    PairsSnoc([], a);
    assert [] + [a] == [a];
    PairsSnoc([a], b);
    assert a + ";" + b == a + [';'] + b;
  }

  lemma {:induction false} PairsValues(segs: seq<string>)
    requires forall i | 0 <= i < |segs| :: Lacks(segs[i], ';')
    ensures Pairs(segs).Some? ==> forall k | k in Pairs(segs).value :: PlainValue(Pairs(segs).value[k])
    decreases |segs|
  {
    if segs != [] {
      PairsValues(segs[..|segs| - 1]);
      var last := segs[|segs| - 1];
      assert Pair(last).Some? ==> PlainValue(Pair(last).value.1);
    }
  }

  predicate PlainValue(value: string) {
    value != "" && Lacks(value, ';')
  }

  /** No value that is read is empty or holds a semicolon. */
  lemma ReadValues(s: string)
    ensures KvPairs(s).Some? ==> forall k | k in KvPairs(s).value :: PlainValue(KvPairs(s).value[k])
  {
    SplitLacks(s, ';');
    PairsValues(Split(s, ';'));
  }
}
