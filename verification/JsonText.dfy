/** The canonical text itself (RFC 8785, sections 3.2.2 and 3.2.3): what every scalar prints,
    how characters are escaped, and in which order a dict's keys stand. */
module JsonText {
  import opened Text
  import opened Decimal
  import opened Sorting
  import opened CanonicalJson
  import Hex
  import KeyValue

  // ----- the order of strings --------------------------------------------------------------------

  /** a ends where b goes on, or has the smaller character where they first differ. */
  predicate DiffersAt(a: string, b: string, i: nat) {
    && i <= |a| && i < |b| && a[..i] == b[..i]
    && (i < |a| ==> a[i] < b[i])
  }

  ghost predicate Before(a: string, b: string) {
    exists i: nat :: DiffersAt(a, b, i)
  }

  lemma DiffersFurther(a: string, b: string, i: nat)
    requires a != [] && b != [] && a[0] == b[0]
    ensures DiffersAt(a, b, i + 1) <==> DiffersAt(a[1..], b[1..], i)
  {
    if i + 1 <= |a| && i + 1 < |b| {
      assert a[..i + 1] == [a[0]] + a[1..][..i] && b[..i + 1] == [b[0]] + b[1..][..i];
      assert a[1..][..i] == a[..i + 1][1..] && b[1..][..i] == b[..i + 1][1..];
    }
  }

  /** The order of strings, on positions. */
  lemma {:induction false} StrLessExactly(a: string, b: string)
    ensures StrLess(a, b) <==> Before(a, b)
    decreases |a|
  {
    if a != [] && b != [] && a[0] == b[0] {
      StrLessExactly(a[1..], b[1..]);
      if i: nat :| DiffersAt(a[1..], b[1..], i) {
        DiffersFurther(a, b, i);
      }
      if i: nat :| DiffersAt(a, b, i) {
        assert i > 0;
        DiffersFurther(a, b, i - 1);
      }
    } else {
      assert DiffersAt(a, b, 0) <==> StrLess(a, b);
      forall i: nat | DiffersAt(a, b, i)
        ensures i == 0
      {
        DiffersAtOnce(a, b, i);
      }
    }
  }

  lemma SharedStart(a: string, b: string, i: nat)
    requires 0 < i <= |a| && i <= |b| && a[..i] == b[..i]
    ensures a[0] == b[0]
  {
    assert a[..i][0] == b[..i][0];
  }

  lemma DiffersAtOnce(a: string, b: string, i: nat)
    requires DiffersAt(a, b, i) && !(a != [] && b != [] && a[0] == b[0])
    ensures i == 0
  {
    if i > 0 {
      SharedStart(a, b, i);
    }
  }

  ghost predicate Ascending(ks: seq<string>) {
    forall i, j | 0 <= i < j < |ks| :: Before(ks[i], ks[j])
  }

  /** Sorting puts the members of a list into ascending order; without repetitions the order
      is strict, otherwise equals stand side by side. */
  lemma SortAscends(ss: seq<string>)
    ensures multiset(SortStrings(ss)) == multiset(ss)
    ensures forall i, j | 0 <= i < j < |SortStrings(ss)| ::
              SortStrings(ss)[i] == SortStrings(ss)[j] || Before(SortStrings(ss)[i], SortStrings(ss)[j])
    ensures NoDuplicates(ss) ==> Ascending(SortStrings(ss))
  {
    var ks := SortStrings(ss);
    SortSorted(ss);
    forall i, j | 0 <= i < j < |ks|
      ensures ks[i] == ks[j] || Before(ks[i], ks[j])
    {
      assert AtMost(ks[i], ks[j]);
      StrLessTotal(ks[i], ks[j]);
      StrLessExactly(ks[i], ks[j]);
    }
    if NoDuplicates(ss) {
      forall i, j | 0 <= i < j < |ks|
        ensures ks[i] != ks[j]
      {
        NoDuplicatesCount(ss, ks[i]);
        TwiceCounted(ks, i, j);
      }
    }
  }

  lemma TwiceCounted(ks: seq<string>, i: nat, j: nat)
    requires i < j < |ks|
    ensures ks[i] == ks[j] ==> multiset(ks)[ks[i]] >= 2
  {
    assert ks == ks[..j] + ks[j..];
    assert ks[..j][i] == ks[i] && ks[j..][0] == ks[j];
  }

  // ----- scalars and characters --------------------------------------------------------------------

  /** An integer in decimal: a minus sign if need be, digits of the right value, no leading
      zero. */
  lemma {:induction false} DecimalText(n: nat)
    ensures var s := NatStr(n); AllDigits(s) && NatValue(s) == n && (|s| > 1 ==> s[0] != '0')
    decreases n
  {
    NatRoundTrip(n);
    if n >= 10 {
      DecimalText(n / 10);
      assert NatStr(n)[0] == NatStr(n / 10)[0];
      assert n / 10 < 10 ==> NatStr(n / 10) == [DigitChar(n / 10)];
    }
  }

  lemma ScalarTexts(n: nat)
    ensures Print(Null) == "null" && Print(Bool(true)) == "true" && Print(Bool(false)) == "false"
    ensures AllDigits(Print(Int(n))) && NatValue(Print(Int(n))) == n
    ensures |Print(Int(n))| > 1 ==> Print(Int(n))[0] != '0'
    ensures n > 0 ==> Print(Int(0 - n)) == "-" + Print(Int(n))
  {
    DecimalText(n);
  }

  /** The two-character escapes, the six-character ones, and everything else as it is. */
  lemma CharacterTexts(c: char)
    ensures Print(Str("\"")) == "\"\\\"\"" && Print(Str("\\")) == "\"\\\\\""
    ensures Print(Str("\U{8}")) == "\"\\b\"" && Print(Str("\t")) == "\"\\t\"" && Print(Str("\n")) == "\"\\n\""
            && Print(Str("\U{c}")) == "\"\\f\"" && Print(Str("\r")) == "\"\\r\""
    ensures c < ' ' && c !in "\U{8}\t\n\U{c}\r" ==>
      var s := Print(Str([c]));
      && |s| == 8 && s[..5] == "\"\\u00" && s[7] == '\"' && Hex.IsHex(s[5]) && Hex.IsHex(s[6])
      && Hex.HexValue(s[5]) * 16 + Hex.HexValue(s[6]) == c as int && !('A' <= s[5] <= 'F') && !('A' <= s[6] <= 'F')
    ensures c >= ' ' && c != '\"' && c != '\\' ==> Print(Str([c])) == ['\"', c, '\"']
  {
    OneCharacter('\"');
    OneCharacter('\\');
    OneCharacter('\U{8}');
    OneCharacter('\t');
    OneCharacter('\n');
    OneCharacter('\U{c}');
    OneCharacter('\r');
    OneCharacter(c);
  }

  lemma OneCharacter(c: char)
    ensures Print(Str([c])) == "\"" + EscapeChar(c) + "\""
  {
    assert [c][1..] == [];
    assert Escape([c]) == EscapeChar(c) + [] == EscapeChar(c);
  }

  /** A string is escaped character by character, between quotes. */
  lemma {:induction false} StringText(s: string, t: string)
    ensures Escape(s + t) == Escape(s) + Escape(t)
    ensures Print(Str(s)) == "\"" + Escape(s) + "\""
    decreases |s|
  {
    if s == [] {
      assert s + t == t;
    } else {
      assert (s + t)[1..] == s[1..] + t;
      StringText(s[1..], t);
    }
  }

  // ----- lists and dicts -----------------------------------------------------------------------------

  function Texts(vs: seq<Json>): (r: seq<string>)
    requires forall i | 0 <= i < |vs| :: Supported(vs[i])
    ensures |r| == |vs| && forall i | 0 <= i < |vs| :: r[i] == Print(vs[i])
  {
    seq(|vs|, i requires 0 <= i < |vs| => Print(vs[i]))
  }

  lemma {:induction false} ItemsText(vs: seq<Json>)
    requires vs != [] && forall i | 0 <= i < |vs| :: Supported(vs[i])
    ensures PrintItems(vs) == KeyValue.Join(Texts(vs), ',')
    decreases |vs|
  {
    if |vs| > 1 {
      ItemsText(vs[1..]);
      assert Texts(vs)[1..] == Texts(vs[1..]);
    }
  }

  /** A list prints its items in order, between commas. */
  lemma ListText(vs: seq<Json>)
    requires forall i | 0 <= i < |vs| :: Supported(vs[i])
    ensures Print(Arr(vs)) == if vs == [] then "[]" else "[" + KeyValue.Join(Texts(vs), ',') + "]"
  {
    if vs != [] {
      ItemsText(vs);
    }
  }

  function MemberTexts(v: Json, ks: seq<string>): (r: seq<string>)
    requires v.Obj? && Supported(v) && forall i | 0 <= i < |ks| :: HasKey(v.members, ks[i])
    ensures |r| == |ks| && forall i | 0 <= i < |ks| ::
              r[i] == Print(Str(ks[i])) + ":" + Print(v.members[At(v.members, ks[i])].value)
  {
    seq(|ks|, i requires 0 <= i < |ks| => Print(Str(ks[i])) + ":" + Print(v.members[At(v.members, ks[i])].value))
  }

  lemma {:induction false} MembersText(v: Json, ks: seq<string>)
    requires v.Obj? && Supported(v) && ks != [] && forall i | 0 <= i < |ks| :: HasKey(v.members, ks[i])
    ensures PrintMembers(v, ks) == KeyValue.Join(MemberTexts(v, ks), ',')
    decreases |ks|
  {
    if |ks| > 1 {
      MembersText(v, ks[1..]);
      assert MemberTexts(v, ks)[1..] == MemberTexts(v, ks[1..]);
    }
  }

  /** A dict prints every key once, in ascending order, each with its value behind it. */
  lemma DictText(v: Json) returns (ks: seq<string>)
    requires v.Obj? && Supported(v) && WellFormed(v)
    ensures Ascending(ks) && forall k :: HasKey(v.members, k) <==> k in ks
    ensures forall i | 0 <= i < |ks| :: HasKey(v.members, ks[i])
    ensures Print(v) == if ks == [] then "{}" else "{" + KeyValue.Join(MemberTexts(v, ks), ',') + "}"
  {
    ks := SortStrings(Keys(v.members));
    SortedHasKeys(v.members);
    SortAscends(Keys(v.members));
    forall k
      ensures HasKey(v.members, k) <==> k in ks
    {
      KeyListed(v.members, k);
    }
    if ks != [] {
      MembersText(v, ks);
    }
  }
}
