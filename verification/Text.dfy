/** Strings as the Python code sees them, and the two facts about cutting them
    that every unambiguous-encoding theorem in this project rests on. */
module Text {

  ghost predicate AllIn(s: string, p: char -> bool) {
    forall i | 0 <= i < |s| :: p(s[i])
  }

  predicate Lacks(s: string, c: char) {
    c !in s
  }

  lemma LeadingRunLength(p: char -> bool, x: string, t: string, y: string, u: string)
    requires AllIn(y, p) && (t == [] || !p(t[0]))
    requires x + t == y + u
    ensures |x| >= |y|
  {
    var s := x + t;
    assert forall i | 0 <= i < |y| :: p(s[i]);
    assert t != [] ==> s[|x|] == t[0];
  }

  /** A maximal leading run of characters of one class can be cut off in one way only. */
  lemma LeadingRunUnique(p: char -> bool, x: string, t: string, y: string, u: string)
    requires AllIn(x, p) && AllIn(y, p)
    requires t == [] || !p(t[0])
    requires u == [] || !p(u[0])
    requires x + t == y + u
    ensures x == y && t == u
  {
    LeadingRunLength(p, x, t, y, u);
    LeadingRunLength(p, y, u, x, t);
    assert x == (x + t)[..|x|] == (y + u)[..|x|] == y;
    assert t == (x + t)[|x|..] == (y + u)[|x|..] == u;
  }

  lemma TrailingRunLength(p: char -> bool, t: string, x: string, u: string, y: string)
    requires AllIn(y, p) && (t == [] || !p(t[|t| - 1]))
    requires t + x == u + y
    ensures |x| >= |y|
  {
    var s := t + x;
    assert forall i | 0 <= i < |y| :: s[|u| + i] == y[i];
    assert forall i | |u| <= i < |s| :: p(s[i]) by {
      forall i | |u| <= i < |s|
        ensures p(s[i])
      {
        assert s[|u| + (i - |u|)] == y[i - |u|];
      }
    }
    assert t != [] ==> s[|t| - 1] == t[|t| - 1];
  }

  /** The mirror image: a maximal trailing run. */
  lemma TrailingRunUnique(p: char -> bool, t: string, x: string, u: string, y: string)
    requires AllIn(x, p) && AllIn(y, p)
    requires t == [] || !p(t[|t| - 1])
    requires u == [] || !p(u[|u| - 1])
    requires t + x == u + y
    ensures t == u && x == y
  {
    var s := t + x;
    TrailingRunLength(p, t, x, u, y);
    TrailingRunLength(p, u, y, t, x);
    assert t == s[..|t|] == (u + y)[..|t|] == u;
    assert x == s[|t|..] == (u + y)[|t|..] == y;
  }

  /** Cutting at the first occurrence of a separator that the left part lacks. */
  lemma CutAtFirst(sep: char, x: string, t: string, y: string, u: string)
    requires Lacks(x, sep) && Lacks(y, sep)
    requires x + [sep] + t == y + [sep] + u
    ensures x == y && t == u
  {
    var p := (c: char) => c != sep;
    assert x + [sep] + t == x + ([sep] + t) && y + [sep] + u == y + ([sep] + u);
    LeadingRunUnique(p, x, [sep] + t, y, [sep] + u);
    assert t == ([sep] + t)[1..] == ([sep] + u)[1..] == u;
  }

  /** Cutting at the last occurrence of a separator that the right part lacks. */
  lemma CutAtLast(sep: char, t: string, x: string, u: string, y: string)
    requires Lacks(x, sep) && Lacks(y, sep)
    requires t + [sep] + x == u + [sep] + y
    ensures t == u && x == y
  {
    var p := (c: char) => c != sep;
    TrailingRunUnique(p, t + [sep], x, u + [sep], y);
    assert t == (t + [sep])[..|t|] == (u + [sep])[..|u|] == u;
  }

  /** Neither part holding the separator, there is no other split. */
  lemma OneSplit(sep: char, x: string, y: string, u: string, v: string)
    requires x + [sep] + y == u + [sep] + v && Lacks(u, sep) && Lacks(v, sep)
    ensures x == u && y == v
  {
    var s := u + [sep] + v;
    assert forall i | 0 <= i < |s| && s[i] == sep :: i == |u| by {
      assert forall i | 0 <= i < |u| :: s[i] == u[i];
      assert forall i | |u| < i < |s| :: s[i] == v[i - |u| - 1];
    }
    assert (x + [sep] + y)[|x|] == sep;
    assert x == s[..|u|] == u;
    assert y == s[|u| + 1..] == v;
  }

  /** Otherwise there is one. */
  lemma OtherSplit(sep: char, x: string, y: string) returns (u: string, v: string)
    requires !(Lacks(x, sep) && Lacks(y, sep))
    ensures u + [sep] + v == x + [sep] + y && |u| != |x|
  {
    if sep in x {
      var k :| 0 <= k < |x| && x[k] == sep;
      u, v := x[..k], x[k + 1..] + [sep] + y;
      assert x == x[..k] + [sep] + x[k + 1..];
    } else {
      var k :| 0 <= k < |y| && y[k] == sep;
      u, v := x + [sep] + y[..k], y[k + 1..];
      assert y == y[..k] + [sep] + y[k + 1..];
    }
    assert u + [sep] + v == x + [sep] + y;
  }

  /** Two splits of one text are the same where the right parts are equally long. */
  lemma SplitsByLength(sep: char, x: string, y: string, u: string, v: string)
    requires x + [sep] + y == u + [sep] + v && |y| == |v|
    ensures x == u && y == v
  {
    assert x == (x + [sep] + y)[..|x|] == (u + [sep] + v)[..|x|] == u;
    assert y == (x + [sep] + y)[|x| + 1..] == (u + [sep] + v)[|x| + 1..] == v;
  }

  /** str.lower() on the ASCII letters; other characters are left alone. */
  function LowerChar(c: char): char {
    if 'A' <= c <= 'Z' then (c as int + 32) as char else c
  }

  function Lower(s: string): (r: string)
    ensures |r| == |s| && forall i | 0 <= i < |s| :: r[i] == LowerChar(s[i])
  {
    seq(|s|, i requires 0 <= i < |s| => LowerChar(s[i]))
  }

  /** Python's str.startswith. */
  predicate StartsWith(s: string, prefix: string) {
    prefix <= s
  }

  // ----- the order Python's sorted() uses on strings ------------------------

  predicate StrLess(a: string, b: string) {
    if b == [] then false
    else if a == [] then true
    else if a[0] == b[0] then StrLess(a[1..], b[1..])
    else a[0] < b[0]
  }

  lemma {:induction false} StrLessTotal(a: string, b: string)
    ensures StrLess(a, b) || StrLess(b, a) || a == b
  {
    if a != [] && b != [] && a[0] == b[0] {
      StrLessTotal(a[1..], b[1..]);
      assert a == [a[0]] + a[1..] && b == [b[0]] + b[1..];
    }
  }

  lemma {:induction false} StrLessTrans(a: string, b: string, c: string)
    requires StrLess(a, b) && StrLess(b, c)
    ensures StrLess(a, c)
  {
    if a != [] && b != [] && c != [] && a[0] == b[0] == c[0] {
      StrLessTrans(a[1..], b[1..], c[1..]);
    }
  }

  lemma {:induction false} StrLessIrreflexive(a: string)
    ensures !StrLess(a, a)
  {
    if a != [] {
      StrLessIrreflexive(a[1..]);
    }
  }
}
