/** Python's str() and int() on unbounded integers. */
module Decimal {
  import opened Text
  import opened Wrappers

  predicate IsDigit(c: char) {
    '0' <= c <= '9'
  }

  predicate AllDigits(s: string) {
    s != "" && forall i | 0 <= i < |s| :: IsDigit(s[i])
  }

  function DigitChar(d: nat): (c: char)
    requires d < 10
    ensures IsDigit(c)
  {
    (48 + d) as char
  }

  function DigitValue(c: char): (d: nat)
    requires IsDigit(c)
    ensures d < 10 && DigitChar(d) == c
  {
    c as int - 48
  }

  function NatStr(n: nat): (s: string)
    ensures s != [] && forall i | 0 <= i < |s| :: IsDigit(s[i])
  {
    if n < 10 then [DigitChar(n)] else NatStr(n / 10) + [DigitChar(n % 10)]
  }

  /** str(n) */
  function IntStr(n: int): (s: string)
    ensures s != [] && forall i | 0 <= i < |s| :: IsDigit(s[i]) || s[i] == '-'
  {
    if n < 0 then "-" + NatStr(-n) else NatStr(n)
  }

  function NatValue(s: string): nat
    requires forall i | 0 <= i < |s| :: IsDigit(s[i])
  {
    if s == [] then 0 else NatValue(s[..|s| - 1]) * 10 + DigitValue(s[|s| - 1])
  }

  lemma {:induction false} NatRoundTrip(n: nat)
    ensures NatValue(NatStr(n)) == n
  {
    var s := NatStr(n);
    if n < 10 {
      assert s[..0] == [];
    } else {
      NatRoundTrip(n / 10);
      assert s[..|s| - 1] == NatStr(n / 10);
      assert DigitValue(DigitChar(n % 10)) == n % 10;
    }
  }

  /** Two integers print alike only when they are equal. */
  lemma IntStrInjective(a: int, b: int)
    requires IntStr(a) == IntStr(b)
    ensures a == b
  {
    assert (IntStr(a)[0] == '-' <==> a < 0) && (IntStr(b)[0] == '-' <==> b < 0);
    if a < 0 {
      assert NatStr(-a) == IntStr(a)[1..] == IntStr(b)[1..] == NatStr(-b);
    }
    NatRoundTrip(if a < 0 then -a else a);
    NatRoundTrip(if b < 0 then -b else b);
  }

  lemma IntStrLacks(n: int, c: char)
    requires !IsDigit(c) && c != '-'
    ensures Lacks(IntStr(n), c)
  {
  }

  // ----- int(text) ------------------------------------------------------------

  predicate IsSpace(c: char) {
    c == ' ' || '\t' <= c <= '\r' || ('\U{1c}' <= c <= '\U{1f}')
  }

  function LStrip(s: string): (r: string)
    ensures |r| <= |s|
    ensures forall c | c in s :: c in r || IsSpace(c)
  {
    if s != [] && IsSpace(s[0]) then LStrip(s[1..]) else s
  }

  function RStrip(s: string): (r: string)
    ensures forall c | c in s :: c in r || IsSpace(c)
  {
    if s != [] && IsSpace(s[|s| - 1]) then RStrip(s[..|s| - 1]) else s
  }

  /** Digits with single underscores strictly between digits. */
  predicate DigitGroups(s: string) {
    s != [] && IsDigit(s[0]) && IsDigit(s[|s| - 1]) &&
    forall i | 0 <= i < |s| ::
      IsDigit(s[i]) || (s[i] == '_' && 0 < i < |s| - 1 && IsDigit(s[i - 1]) && IsDigit(s[i + 1]))
  }

  function DropUnderscores(s: string): (r: string)
    requires forall i | 0 <= i < |s| :: IsDigit(s[i]) || s[i] == '_'
    ensures forall i | 0 <= i < |r| :: IsDigit(r[i])
  {
    if s == [] then []
    else if s[0] == '_' then DropUnderscores(s[1..])
    else [s[0]] + DropUnderscores(s[1..])
  }

  function Strip(s: string): string {
    RStrip(LStrip(s))
  }

  function Unsigned(body: string): (r: Option<nat>) {
    if DigitGroups(body) then Some(NatValue(DropUnderscores(body))) else None
  }

  /** A sign, if any, and digits. */
  function SignedInt(t: string): Option<int> {
    if t != [] && t[0] == '-' then
      match Unsigned(t[1..]) case Some(v) => Option<int>.Some(0 - v) case None => None
    else
      Unsigned(if t != [] && t[0] == '+' then t[1..] else t)
  }

  /** int(s), None where Python raises ValueError: surrounding white space, a sign
      and single underscores between digits are accepted. */
  function PyInt(s: string): Option<int> {
    SignedInt(Strip(s))
  }

  lemma {:induction false} DropUnderscoresId(s: string)
    requires forall i | 0 <= i < |s| :: IsDigit(s[i])
    ensures DropUnderscores(s) == s
  {
    if s != [] {
      DropUnderscoresId(s[1..]);
    }
  }

  lemma UnsignedInvertsNatStr(n: nat)
    ensures Unsigned(NatStr(n)) == Some(n)
  {
    DropUnderscoresId(NatStr(n));
    NatRoundTrip(n);
  }

  lemma StripKeeps(s: string)
    requires s != [] && !IsSpace(s[0]) && !IsSpace(s[|s| - 1])
    ensures Strip(s) == s
  {
  }

  /** int(str(n)) == n */
  lemma PyIntInvertsIntStr(n: int)
    ensures PyInt(IntStr(n)) == Some(n)
  {
    StripKeeps(IntStr(n));
    UnsignedInvertsNatStr(if n < 0 then -n else n);
    assert n < 0 ==> IntStr(n)[1..] == NatStr(-n);
  }

  /** What int() accepts consists of digits, signs, underscores and white space. */
  lemma PyIntAlphabet(s: string, c: char)
    requires PyInt(s).Some? && c in s
    ensures IsDigit(c) || c == '_' || c == '-' || c == '+' || IsSpace(c)
  {
    var l := LStrip(s);
    var t := RStrip(l);
    assert c in l || IsSpace(c);
    assert c in t || IsSpace(c);
  }

  /** int() of digits alone is their value. */
  lemma PyIntOfDigits(s: string)
    requires AllDigits(s)
    ensures PyInt(s) == Some(NatValue(s))
  {
    StripKeeps(s);
    DropUnderscoresId(s);
  }

  // ----- what int(text) reads, exactly ------------------------------------------

  predicate AllSpace(s: string) {
    forall i | 0 <= i < |s| :: IsSpace(s[i])
  }

  lemma {:induction false} LStripSkips(a: string, t: string)
    requires AllSpace(a) && t != [] && !IsSpace(t[0])
    ensures LStrip(a + t) == t
  {
    if a == [] {
      assert a + t == t;
    } else {
      assert (a + t)[1..] == a[1..] + t;
      LStripSkips(a[1..], t);
    }
  }

  lemma {:induction false} RStripSkips(t: string, b: string)
    requires AllSpace(b) && t != [] && !IsSpace(t[|t| - 1])
    ensures RStrip(t + b) == t
    decreases |b|
  {
    var s := t + b;
    if b == [] {
      assert s == t;
    } else {
      assert s[..|s| - 1] == t + b[..|b| - 1];
      RStripSkips(t, b[..|b| - 1]);
    }
  }

  lemma {:induction false} LStripParts(s: string) returns (a: string)
    ensures AllSpace(a) && s == a + LStrip(s) && (LStrip(s) != [] ==> !IsSpace(LStrip(s)[0]))
  {
    if s != [] && IsSpace(s[0]) {
      a := LStripParts(s[1..]);
      a := [s[0]] + a;
    } else {
      a := [];
    }
  }

  lemma {:induction false} RStripParts(s: string) returns (b: string)
    ensures AllSpace(b) && s == RStrip(s) + b
    decreases |s|
  {
    if s != [] && IsSpace(s[|s| - 1]) {
      b := RStripParts(s[..|s| - 1]);
      b := b + [s[|s| - 1]];
    } else {
      b := [];
    }
  }

  /** White space, a sign or none, digits with single underscores between them, white space. */
  ghost predicate Spells(s: string, sign: string, body: string) {
    && sign in {"", "+", "-"}
    && body != [] && IsDigit(body[0]) && IsDigit(body[|body| - 1])
    && (forall i | 0 < i < |body| - 1 :: IsDigit(body[i]) || body[i] == '_')
    && (forall i, j | 0 <= i && j == i + 1 && j < |body| :: IsDigit(body[i]) || IsDigit(body[j]))
    && exists a, b :: AllSpace(a) && AllSpace(b) && s == a + sign + body + b
  }

  lemma GroupsExactly(body: string)
    ensures DigitGroups(body)
            <==> && body != [] && IsDigit(body[0]) && IsDigit(body[|body| - 1])
                 && (forall i | 0 < i < |body| - 1 :: IsDigit(body[i]) || body[i] == '_')
                 && (forall i, j | 0 <= i && j == i + 1 && j < |body| :: IsDigit(body[i]) || IsDigit(body[j]))
  {
    if && body != [] && IsDigit(body[0]) && IsDigit(body[|body| - 1])
       && (forall i | 0 < i < |body| - 1 :: IsDigit(body[i]) || body[i] == '_')
       && (forall i, j | 0 <= i && j == i + 1 && j < |body| :: IsDigit(body[i]) || IsDigit(body[j])) {
      forall i | 0 <= i < |body| && !IsDigit(body[i])
        ensures body[i] == '_' && 0 < i < |body| - 1 && IsDigit(body[i - 1]) && IsDigit(body[i + 1])
      {
      }
    }
  }

  lemma StripExactly(s: string, t: string)
    requires t != [] && !IsSpace(t[0]) && !IsSpace(t[|t| - 1])
    ensures Strip(s) == t <==> exists a, b :: AllSpace(a) && AllSpace(b) && s == a + t + b
  {
    if a, b :| AllSpace(a) && AllSpace(b) && s == a + t + b {
      assert a + t + b == a + (t + b);
      LStripSkips(a, t + b);
      RStripSkips(t, b);
    }
    if Strip(s) == t {
      var a := LStripParts(s);
      var b := RStripParts(LStrip(s));
      assert s == a + t + b;
    }
  }

  lemma SpelledOut(s: string, sign: string, body: string)
    ensures Spells(s, sign, body) <==> sign in {"", "+", "-"} && DigitGroups(body) && Strip(s) == sign + body
  {
    GroupsExactly(body);
    if sign in {"", "+", "-"} && DigitGroups(body) {
      var t := sign + body;
      assert t[|t| - 1] == body[|body| - 1];
      StripExactly(s, t);
      assert forall a, b :: a + t + b == a + sign + body + b;
    }
  }

  /** The number a sign and digits with underscores stand for. */
  function Signed(sign: string, body: string): int
    requires DigitGroups(body)
  {
    var n: int := NatValue(DropUnderscores(body));
    if sign == "-" then -n else n
  }

  lemma ReadsSpelled(s: string, sign: string, body: string)
    requires Spells(s, sign, body)
    ensures DigitGroups(body) && PyInt(s) == Some(Signed(sign, body))
  {
    SpelledOut(s, sign, body);
    ReadsSigned(sign, body);
  }

  lemma ReadsSigned(sign: string, body: string)
    requires sign in {"", "+", "-"} && DigitGroups(body)
    ensures SignedInt(sign + body) == Some(Signed(sign, body))
  {
    assert (sign + body)[|sign|..] == body;
  }

  lemma SpelledSomehow(s: string) returns (sign: string, body: string)
    requires PyInt(s).Some?
    ensures Spells(s, sign, body)
  {
    var t := Strip(s);
    sign := if t[0] == '-' then "-" else if t[0] == '+' then "+" else "";
    body := t[|sign|..];
    assert t == sign + body;
    SpelledOut(s, sign, body);
  }

  /** int() reads a text as v if and only if it spells v's digits in this way. */
  lemma PyIntExactly(s: string, v: int)
    ensures PyInt(s) == Some(v)
            <==> exists sign, body :: Spells(s, sign, body) && DigitGroups(body) && v == Signed(sign, body)
  {
    if PyInt(s).Some? {
      var sign, body := SpelledSomehow(s);
      ReadsSpelled(s, sign, body);
    }
    if sign, body :| Spells(s, sign, body) && DigitGroups(body) && v == Signed(sign, body) {
      ReadsSpelled(s, sign, body);
    }
  }

  /** Underscores do not count: the digits between them are read as if they stood together. */
  lemma {:induction false} DropUnderscoresExactly(a: string, b: string)
    requires forall c | c in a + b :: IsDigit(c) || c == '_'
    ensures DropUnderscores(a + b) == DropUnderscores(a) + DropUnderscores(b)
    ensures Lacks(a, '_') ==> DropUnderscores(a) == a
    ensures AllUnderscores(a) ==> DropUnderscores(a) == []
  {
    if a == [] {
      assert a + b == b;
    } else {
      assert (a + b)[1..] == a[1..] + b && a[0] in a + b && forall c | c in a[1..] + b :: c in a + b;
      DropUnderscoresExactly(a[1..], b);
    }
  }

  predicate AllUnderscores(s: string) {
    forall i | 0 <= i < |s| :: s[i] == '_'
  }
}
