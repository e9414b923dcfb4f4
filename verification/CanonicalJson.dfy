/** Canonical JSON (the RFC 8785 subset that receipts use): the printer is unambiguous. */
module CanonicalJson {
  import opened Text
  import opened Decimal
  import opened Sorting
  import opened Wrappers
  import Hex

  /** A Python value; dicts keep their insertion order. Other stands for any value of a
      type the printer does not know. */
  datatype Json =
    | Null
    | Bool(b: bool)
    | Int(n: int)
    | Float
    | Str(s: string)
    | Arr(items: seq<Json>)
    | Obj(members: seq<Member>)
    | Other

  datatype Member = Member(key: string, value: Json)

  function Keys(ms: seq<Member>): (ks: seq<string>)
    ensures |ks| == |ms| && forall i | 0 <= i < |ms| :: ks[i] == ms[i].key
  {
    seq(|ms|, i requires 0 <= i < |ms| => ms[i].key)
  }

  predicate HasKey(ms: seq<Member>, k: string) {
    exists i | 0 <= i < |ms| :: ms[i].key == k
  }

  /** Where a dict holds a key. */
  function At(ms: seq<Member>, k: string): (i: nat)
    requires HasKey(ms, k)
    ensures i < |ms| && ms[i].key == k
  {
    if ms[0].key == k then 0
    else
      assert HasKey(ms[1..], k) by {
        var i :| 0 <= i < |ms| && ms[i].key == k;
        assert ms[1..][i - 1].key == k;
      }
      1 + At(ms[1..], k)
  }

  /** Dict keys do not repeat, at any depth. */
  ghost predicate WellFormed(v: Json) {
    match v
    case Arr(vs) => forall i | 0 <= i < |vs| :: WellFormed(vs[i])
    case Obj(ms) => NoDuplicates(Keys(ms)) && forall i | 0 <= i < |ms| :: WellFormed(ms[i].value)
    case _ => true
  }

  predicate Supported(v: Json) {
    match v
    case Float => false
    case Other => false
    case Arr(vs) => forall i | 0 <= i < |vs| :: Supported(vs[i])
    case Obj(ms) => forall i | 0 <= i < |ms| :: Supported(ms[i].value)
    case _ => true
  }

  /** Equality of Python values of the same types: dicts compare as mappings. */
  ghost predicate Same(v: Json, w: Json) {
    match (v, w)
    case (Arr(vs), Arr(ws)) => |vs| == |ws| && forall i | 0 <= i < |vs| :: Same(vs[i], ws[i])
    case (Obj(ms), Obj(ns)) =>
      && (forall k :: HasKey(ms, k) <==> HasKey(ns, k))
      && (forall k | HasKey(ms, k) && HasKey(ns, k) :: Same(ms[At(ms, k)].value, ns[At(ns, k)].value))
    case _ => v == w
  }

  // ----- the printer ------------------------------------------------------------

  /** json.dumps with ensure_ascii off. */
  function EscapeChar(c: char): (r: string)
    ensures r != [] && r[0] != '\"'
  {
    if c == '\"' then "\\\""
    else if c == '\\' then "\\\\"
    else if c == '\n' then "\\n"
    else if c == '\r' then "\\r"
    else if c == '\t' then "\\t"
    else if c == '\U{c}' then "\\f"
    else if c == '\U{8}' then "\\b"
    else if c < ' ' then "\\u00" + [Hex.HexDigit(c as int / 16), Hex.HexDigit(c as int % 16)]
    else [c]
  }

  function Escape(s: string): string {
    if s == [] then [] else EscapeChar(s[0]) + Escape(s[1..])
  }

  function Quote(s: string): string {
    "\"" + Escape(s) + "\""
  }

  function Print(v: Json): string
    requires Supported(v)
    decreases v, 1
  {
    match v
    case Null => "null"
    case Bool(b) => if b then "true" else "false"
    case Int(n) => IntStr(n)
    case Str(s) => Quote(s)
    case Arr(vs) => "[" + PrintItems(vs) + "]"
    case Obj(ms) => SortedHasKeys(ms); "{" + PrintMembers(v, SortStrings(Keys(ms))) + "}"
  }

  function PrintItems(vs: seq<Json>): string
    requires forall i | 0 <= i < |vs| :: Supported(vs[i])
    decreases vs, 0
  {
    if vs == [] then ""
    else if |vs| == 1 then Print(vs[0])
    else Print(vs[0]) + "," + PrintItems(vs[1..])
  }

  function PrintMembers(v: Json, ks: seq<string>): string
    requires v.Obj? && Supported(v) && forall i | 0 <= i < |ks| :: HasKey(v.members, ks[i])
    decreases v, 0, |ks|
  {
    if ks == [] then ""
    else
      var first := Quote(ks[0]) + ":" + Print(v.members[At(v.members, ks[0])].value);
      if |ks| == 1 then first else first + "," + PrintMembers(v, ks[1..])
  }

  lemma SortedHasKeys(ms: seq<Member>)
    ensures forall i | 0 <= i < |SortStrings(Keys(ms))| :: HasKey(ms, SortStrings(Keys(ms))[i])
  {
    forall i | 0 <= i < |SortStrings(Keys(ms))|
      ensures HasKey(ms, SortStrings(Keys(ms))[i])
    {
      SortKeepsMembers(Keys(ms), SortStrings(Keys(ms))[i]);
    }
  }

  datatype TypeError = TypeError

  function Canonicalize(v: Json): Result<string, TypeError> {
    if Supported(v) then Ok(Print(v)) else Err(TypeError)
  }

  // ----- unambiguity ------------------------------------------------------------

  lemma EscapeCharPrefixFree(c: char, d: char, t: string, u: string)
    requires EscapeChar(c) + t == EscapeChar(d) + u
    ensures c == d && t == u
  {
    var x, y := EscapeChar(c) + t, EscapeChar(d) + u;
    assert x[0] == EscapeChar(c)[0] && y[0] == EscapeChar(d)[0];
    if x[0] == '\\' {
      assert x[1] == EscapeChar(c)[1] && y[1] == EscapeChar(d)[1];
      if x[1] == 'u' {
        assert x[4] == EscapeChar(c)[4] && x[5] == EscapeChar(c)[5];
        assert y[4] == EscapeChar(d)[4] && y[5] == EscapeChar(d)[5];
      }
    }
    assert |EscapeChar(c)| == |EscapeChar(d)|;
    assert t == x[|EscapeChar(c)|..] == y[|EscapeChar(d)|..] == u;
  }

  lemma EscapeFirst(c: char, rest: string, t: string)
    ensures EscapeChar(c) + rest + "\"" + t == EscapeChar(c) + (rest + "\"" + t)
    ensures (EscapeChar(c) + rest + "\"" + t)[0] != '\"'
  {
  }

  lemma EscapeHead(s: string, t: string)
    ensures (Escape(s) + "\"" + t)[0] == '\"' <==> s == []
    ensures s == [] ==> Escape(s) + "\"" + t == "\"" + t
    ensures s != [] ==> Escape(s) + "\"" + t == EscapeChar(s[0]) + (Escape(s[1..]) + "\"" + t)
  {
    if s != [] {
      EscapeFirst(s[0], Escape(s[1..]), t);
    }
  }

  /** A quoted string ends where its closing quote is, and nowhere else. */
  lemma {:induction false} EscapeUnique(s: string, r: string, t: string, u: string)
    requires Escape(s) + "\"" + t == Escape(r) + "\"" + u
    ensures s == r && t == u
  {
    EscapeHead(s, t);
    EscapeHead(r, u);
    if s == [] {
      assert t == ("\"" + t)[1..] && u == ("\"" + u)[1..];
    } else {
      EscapeCharPrefixFree(s[0], r[0], Escape(s[1..]) + "\"" + t, Escape(r[1..]) + "\"" + u);
      EscapeUnique(s[1..], r[1..], t, u);
      assert s == [s[0]] + s[1..] && r == [r[0]] + r[1..];
    }
  }

  lemma QuoteUnique(s: string, r: string, t: string, u: string)
    requires Quote(s) + t == Quote(r) + u
    ensures s == r && t == u
  {
    var x, y := Escape(s) + "\"" + t, Escape(r) + "\"" + u;
    assert x == (Quote(s) + t)[1..] && y == (Quote(r) + u)[1..];
    EscapeUnique(s, r, t, u);
  }

  /** What can follow a value. */
  predicate Delimited(t: string) {
    t == [] || t[0] == ',' || t[0] == ']' || t[0] == '}'
  }

  /** The first character of a value says which kind it is. */
  predicate HeadFits(v: Json, c: char) {
    match v
    case Null => c == 'n'
    case Bool(b) => c == if b then 't' else 'f'
    case Int(_) => IsDigit(c) || c == '-'
    case Str(_) => c == '\"'
    case Arr(_) => c == '['
    case Obj(_) => c == '{'
    case _ => false
  }

  lemma PrintHead(v: Json)
    requires Supported(v)
    ensures Print(v) != [] && HeadFits(v, Print(v)[0])
  {
  }

  lemma SameHead(v: Json, w: Json, t: string, u: string)
    requires Supported(v) && Supported(w)
    requires Print(v) + t == Print(w) + u
    ensures HeadFits(v, Print(v)[0]) && HeadFits(w, Print(v)[0])
  {
    PrintHead(v);
    PrintHead(w);
    assert (Print(v) + t)[0] == Print(v)[0] && (Print(w) + u)[0] == Print(w)[0];
  }

  lemma Unwrap(open: string, x: string, y: string, close: string, t: string, u: string)
    requires (open + x + close) + t == (open + y + close) + u
    ensures x + (close + t) == y + (close + u)
  {
    assert (open + x + close) + t == open + (x + (close + t));
    assert (open + y + close) + u == open + (y + (close + u));
    assert (open + (x + (close + t)))[|open|..] == x + (close + t);
    assert (open + (y + (close + u)))[|open|..] == y + (close + u);
  }

  lemma DropHead(c: string, t: string, u: string)
    requires c + t == c + u
    ensures t == u
  {
    assert t == (c + t)[|c|..] && u == (c + u)[|c|..];
  }

  lemma IntUnique(n: int, m: int, t: string, u: string)
    requires Delimited(t) && Delimited(u)
    requires IntStr(n) + t == IntStr(m) + u
    ensures n == m && t == u
  {
    var p := (c: char) => IsDigit(c) || c == '-';
    LeadingRunUnique(p, IntStr(n), t, IntStr(m), u);
    IntStrInjective(n, m);
  }

  /** Two values printed in front of delimiters can be told apart and cut off uniquely,
      integers included. */
  lemma {:induction false} PrintUnique(v: Json, w: Json, t: string, u: string)
    requires Supported(v) && Supported(w) && Delimited(t) && Delimited(u)
    requires Print(v) + t == Print(w) + u
    ensures Same(v, w) && t == u
    decreases v, 3
  {
    SameHead(v, w, t, u);
    match v
    case Int(n) => IntUnique(n, w.n, t, u);
    case Str(s) => QuoteUnique(s, w.s, t, u);
    case Arr(vs) => ArraysUnique(v, w, t, u);
    case Obj(ms) => ObjectsUnique(v, w, t, u);
    case Null => DropHead("null", t, u);
    case Bool(b) => DropHead(if b then "true" else "false", t, u);
    case _ =>
  }

  lemma {:induction false} ArraysUnique(v: Json, w: Json, t: string, u: string)
    requires v.Arr? && w.Arr? && Supported(v) && Supported(w)
    requires Print(v) + t == Print(w) + u
    ensures Same(v, w) && t == u
    decreases v, 2
  {
    Unwrap("[", PrintItems(v.items), PrintItems(w.items), "]", t, u);
    ItemsUnique(v.items, w.items, "]" + t, "]" + u);
    DropHead("]", t, u);
  }

  lemma {:induction false} ObjectsUnique(v: Json, w: Json, t: string, u: string)
    requires v.Obj? && w.Obj? && Supported(v) && Supported(w)
    requires Print(v) + t == Print(w) + u
    ensures Same(v, w) && t == u
    decreases v, 2
  {
    var ks, ls := SortStrings(Keys(v.members)), SortStrings(Keys(w.members));
    SortedHasKeys(v.members);
    SortedHasKeys(w.members);
    Unwrap("{", PrintMembers(v, ks), PrintMembers(w, ls), "}", t, u);
    MembersUnique(v, w, ks, ls, "}" + t, "}" + u);
    SameMembers(v, w);
    DropHead("}", t, u);
  }

  /** What is printed after the first item. */
  function AfterFirstItem(vs: seq<Json>, t: string): string
    requires vs != [] && forall i | 0 <= i < |vs| :: Supported(vs[i])
  {
    if |vs| == 1 then t else "," + (PrintItems(vs[1..]) + t)
  }

  lemma ItemsUnfold(vs: seq<Json>)
    requires |vs| > 1 && forall i | 0 <= i < |vs| :: Supported(vs[i])
    ensures PrintItems(vs) == Print(vs[0]) + "," + PrintItems(vs[1..])
  {
  }

  lemma Regroup(p: string, c: string, r: string, t: string)
    ensures (p + c + r) + t == p + (c + (r + t))
  {
  }

  lemma ItemsSplit(vs: seq<Json>, t: string)
    requires vs != [] && forall i | 0 <= i < |vs| :: Supported(vs[i])
    ensures PrintItems(vs) + t == Print(vs[0]) + AfterFirstItem(vs, t)
  {
    if |vs| > 1 {
      ItemsUnfold(vs);
      Regroup(Print(vs[0]), ",", PrintItems(vs[1..]), t);
    }
  }

  lemma {:induction false} ItemsUnique(vs: seq<Json>, ws: seq<Json>, t: string, u: string)
    requires forall i | 0 <= i < |vs| :: Supported(vs[i])
    requires forall i | 0 <= i < |ws| :: Supported(ws[i])
    requires t != [] && u != [] && t[0] == u[0] == ']'
    requires PrintItems(vs) + t == PrintItems(ws) + u
    ensures |vs| == |ws| && (forall i | 0 <= i < |vs| :: Same(vs[i], ws[i])) && t == u
    decreases vs, 0
  {
    ItemsHead(vs, t);
    ItemsHead(ws, u);
    if vs != [] {
      ItemsSplit(vs, t);
      ItemsSplit(ws, u);
      PrintUnique(vs[0], ws[0], AfterFirstItem(vs, t), AfterFirstItem(ws, u));
      RestOfItems(vs, ws, t, u);
    }
  }

  lemma {:induction false} RestOfItems(vs: seq<Json>, ws: seq<Json>, t: string, u: string)
    requires vs != [] && ws != []
    requires forall i | 0 <= i < |vs| :: Supported(vs[i])
    requires forall i | 0 <= i < |ws| :: Supported(ws[i])
    requires t != [] && u != [] && t[0] == u[0] == ']'
    requires AfterFirstItem(vs, t) == AfterFirstItem(ws, u) && Same(vs[0], ws[0])
    ensures |vs| == |ws| && (forall i | 0 <= i < |vs| :: Same(vs[i], ws[i])) && t == u
    decreases vs[1..], 1
  {
    if |vs| > 1 {
      DropHead(",", PrintItems(vs[1..]) + t, PrintItems(ws[1..]) + u);
      ItemsUnique(vs[1..], ws[1..], t, u);
      SameAfterFirst(vs, ws);
    }
  }

  lemma SameAfterFirst(vs: seq<Json>, ws: seq<Json>)
    requires |vs| == |ws| > 1 && Same(vs[0], ws[0])
    requires forall i | 0 <= i < |vs[1..]| :: Same(vs[1..][i], ws[1..][i])
    ensures forall i | 0 <= i < |vs| :: Same(vs[i], ws[i])
  {
    assert forall i | 1 <= i < |vs| :: vs[i] == vs[1..][i - 1] && ws[i] == ws[1..][i - 1];
  }

  lemma ItemsHead(vs: seq<Json>, t: string)
    requires forall i | 0 <= i < |vs| :: Supported(vs[i])
    requires t != [] && t[0] == ']'
    ensures (PrintItems(vs) + t)[0] == ']' <==> vs == []
    ensures vs == [] ==> PrintItems(vs) + t == t
  {
    if vs != [] {
      PrintHead(vs[0]);
      assert (PrintItems(vs) + t)[0] == Print(vs[0])[0];
    }
  }

  /** The two dicts agree on the keys listed. */
  ghost predicate AgreeOn(v: Json, w: Json, ks: seq<string>)
    requires v.Obj? && w.Obj?
  {
    forall i | 0 <= i < |ks| ::
      && HasKey(v.members, ks[i]) && HasKey(w.members, ks[i])
      && Same(v.members[At(v.members, ks[i])].value, w.members[At(w.members, ks[i])].value)
  }

  /** What is printed after the value of the first listed key. */
  function AfterFirst(v: Json, ks: seq<string>, t: string): string
    requires v.Obj? && Supported(v) && ks != [] && forall i | 0 <= i < |ks| :: HasKey(v.members, ks[i])
  {
    if |ks| == 1 then t else "," + (PrintMembers(v, ks[1..]) + t)
  }

  function ValueOf(v: Json, k: string): Json
    requires v.Obj? && HasKey(v.members, k)
  {
    v.members[At(v.members, k)].value
  }

  lemma RegroupMember(q: string, c: string, p: string, d: string, rest: string, t: string)
    ensures q + c + p + t == q + (c + (p + t))
    ensures q + c + p + d + rest + t == q + (c + (p + (d + (rest + t))))
  {
  }

  lemma MembersSplit(v: Json, ks: seq<string>, t: string)
    requires v.Obj? && Supported(v) && ks != [] && forall i | 0 <= i < |ks| :: HasKey(v.members, ks[i])
    ensures PrintMembers(v, ks) + t == Quote(ks[0]) + (":" + (Print(ValueOf(v, ks[0])) + AfterFirst(v, ks, t)))
  {
    var rest := if |ks| == 1 then "" else PrintMembers(v, ks[1..]);
    RegroupMember(Quote(ks[0]), ":", Print(ValueOf(v, ks[0])), ",", rest, t);
  }

  lemma {:induction false} MembersUnique(v: Json, w: Json, ks: seq<string>, ls: seq<string>, t: string, u: string)
    requires v.Obj? && w.Obj? && Supported(v) && Supported(w)
    requires forall i | 0 <= i < |ks| :: HasKey(v.members, ks[i])
    requires forall i | 0 <= i < |ls| :: HasKey(w.members, ls[i])
    requires t != [] && u != [] && t[0] == u[0] == '}'
    requires PrintMembers(v, ks) + t == PrintMembers(w, ls) + u
    ensures ks == ls && AgreeOn(v, w, ks) && t == u
    decreases v, 0, |ks|, 1
  {
    MembersHead(v, ks, t);
    MembersHead(w, ls, u);
    if ks != [] {
      var a, b := ValueOf(v, ks[0]), ValueOf(w, ls[0]);
      var p, q := AfterFirst(v, ks, t), AfterFirst(w, ls, u);
      MembersSplit(v, ks, t);
      MembersSplit(w, ls, u);
      QuoteUnique(ks[0], ls[0], ":" + (Print(a) + p), ":" + (Print(b) + q));
      DropHead(":", Print(a) + p, Print(b) + q);
      PrintUnique(a, b, p, q);
      RestOfMembers(v, w, ks, ls, t, u);
    }
  }

  lemma {:induction false} RestOfMembers(v: Json, w: Json, ks: seq<string>, ls: seq<string>, t: string, u: string)
    requires v.Obj? && w.Obj? && Supported(v) && Supported(w)
    requires ks != [] && forall i | 0 <= i < |ks| :: HasKey(v.members, ks[i])
    requires ls != [] && forall i | 0 <= i < |ls| :: HasKey(w.members, ls[i])
    requires t != [] && u != [] && t[0] == u[0] == '}'
    requires ks[0] == ls[0] && Same(ValueOf(v, ks[0]), ValueOf(w, ls[0]))
    requires AfterFirst(v, ks, t) == AfterFirst(w, ls, u)
    ensures ks == ls && AgreeOn(v, w, ks) && t == u
    decreases v, 0, |ks|, 0
  {
    if |ks| > 1 {
      DropHead(",", PrintMembers(v, ks[1..]) + t, PrintMembers(w, ls[1..]) + u);
      MembersUnique(v, w, ks[1..], ls[1..], t, u);
      assert forall i | 1 <= i < |ks| :: ks[i] == ks[1..][i - 1];
    }
    assert ks == [ks[0]] + ks[1..] && ls == [ls[0]] + ls[1..];
  }

  lemma MembersHead(v: Json, ks: seq<string>, t: string)
    requires v.Obj? && Supported(v) && forall i | 0 <= i < |ks| :: HasKey(v.members, ks[i])
    requires t != [] && t[0] == '}'
    ensures (PrintMembers(v, ks) + t)[0] == '}' <==> ks == []
    ensures ks == [] ==> PrintMembers(v, ks) + t == t
  {
    if ks != [] {
      MembersSplit(v, ks, t);
      assert Quote(ks[0])[0] == '\"';
    }
  }

  /** Agreement on one shared sorted key list is equality of dicts. */
  lemma SameMembers(v: Json, w: Json)
    requires v.Obj? && w.Obj?
    requires SortStrings(Keys(v.members)) == SortStrings(Keys(w.members))
    requires AgreeOn(v, w, SortStrings(Keys(v.members)))
    ensures Same(v, w)
  {
    var ks := SortStrings(Keys(v.members));
    forall k
      ensures HasKey(v.members, k) <==> k in ks
      ensures HasKey(w.members, k) <==> k in ks
    {
      KeyListed(v.members, k);
      KeyListed(w.members, k);
    }
    forall k | HasKey(v.members, k) && HasKey(w.members, k)
      ensures Same(v.members[At(v.members, k)].value, w.members[At(w.members, k)].value)
    {
      var i :| 0 <= i < |ks| && ks[i] == k;
    }
  }

  lemma KeyListed(ms: seq<Member>, k: string)
    ensures HasKey(ms, k) <==> k in SortStrings(Keys(ms))
  {
    SortKeepsMembers(Keys(ms), k);
    if HasKey(ms, k) {
      assert Keys(ms)[At(ms, k)] == k;
    }
  }

  // ----- equal values print alike -------------------------------------------------

  lemma {:induction false} SamePrint(v: Json, w: Json)
    requires Supported(v) && Supported(w) && WellFormed(v) && WellFormed(w) && Same(v, w)
    ensures Print(v) == Print(w)
    decreases v, 1
  {
    match v
    case Arr(vs) =>
      SameItemsPrint(vs, w.items);
    case Obj(ms) =>
      SortedHasKeys(ms);
      SortedHasKeys(w.members);
      forall k
        ensures k in Keys(ms) <==> k in Keys(w.members)
      {
        KeyListed(ms, k);
        KeyListed(w.members, k);
        SortKeepsMembers(Keys(ms), k);
        SortKeepsMembers(Keys(w.members), k);
        assert HasKey(ms, k) <==> HasKey(w.members, k);
      }
      SortOfSet(Keys(ms), Keys(w.members));
      SameMembersPrint(v, w, SortStrings(Keys(ms)));
    case _ =>
  }

  lemma {:induction false} SameItemsPrint(vs: seq<Json>, ws: seq<Json>)
    requires |vs| == |ws|
    requires forall i | 0 <= i < |vs| :: Supported(vs[i]) && Supported(ws[i]) && WellFormed(vs[i]) && WellFormed(ws[i])
    requires forall i | 0 <= i < |vs| :: Same(vs[i], ws[i])
    ensures PrintItems(vs) == PrintItems(ws)
    decreases vs, 0
  {
    if vs != [] {
      SamePrint(vs[0], ws[0]);
      SameItemsPrint(vs[1..], ws[1..]);
    }
  }

  lemma {:induction false} SameMembersPrint(v: Json, w: Json, ks: seq<string>)
    requires v.Obj? && w.Obj? && Supported(v) && Supported(w) && WellFormed(v) && WellFormed(w) && Same(v, w)
    requires forall i | 0 <= i < |ks| :: HasKey(v.members, ks[i]) && HasKey(w.members, ks[i])
    ensures PrintMembers(v, ks) == PrintMembers(w, ks)
    decreases v, 0, |ks|
  {
    if ks != [] {
      SamePrint(v.members[At(v.members, ks[0])].value, w.members[At(w.members, ks[0])].value);
      SameMembersPrint(v, w, ks[1..]);
    }
  }

  /** Two values canonicalize to the same text exactly when they are supported and equal
      up to the insertion order of their dicts. */
  lemma CanonicalExact(v: Json, w: Json)
    requires WellFormed(v) && WellFormed(w)
    ensures Canonicalize(v).Ok? && Canonicalize(v) == Canonicalize(w)
            <==> Supported(v) && Supported(w) && Same(v, w)
  {
    if Supported(v) && Supported(w) {
      if Print(v) == Print(w) {
        PrintUnique(v, w, "", "");
      }
      if Same(v, w) {
        SamePrint(v, w);
      }
    }
  }

  // ----- facts about equality that users of the printer need --------------------------

  lemma {:induction false} SameReflexive(v: Json)
    ensures Same(v, v)
  {
    match v
    case Arr(vs) =>
      forall i | 0 <= i < |vs| { SameReflexive(vs[i]); }
    case Obj(ms) =>
      forall k | HasKey(ms, k) { SameReflexive(ms[At(ms, k)].value); }
    case _ =>
  }

  lemma AtUnique(ms: seq<Member>, k: string, i: nat)
    requires NoDuplicates(Keys(ms)) && i < |ms| && ms[i].key == k
    ensures HasKey(ms, k) && At(ms, k) == i
  {
    var j := At(ms, k);
    assert Keys(ms)[i] == Keys(ms)[j];
  }

  lemma {:induction false} SameSupported(v: Json, w: Json)
    requires WellFormed(v) && WellFormed(w) && Same(v, w)
    ensures Supported(v) <==> Supported(w)
  {
    match v
    case Arr(vs) =>
      forall i | 0 <= i < |vs|
        ensures Supported(vs[i]) <==> Supported(w.items[i])
      {
        SameSupported(vs[i], w.items[i]);
      }
    case Obj(ms) =>
      forall k | HasKey(ms, k)
        ensures HasKey(w.members, k)
        ensures Supported(ms[At(ms, k)].value) <==> Supported(w.members[At(w.members, k)].value)
      {
        SameSupported(ms[At(ms, k)].value, w.members[At(w.members, k)].value);
      }
      MembersCovered(v);
      MembersCovered(w);
    case _ =>
  }

  lemma MembersCovered(v: Json)
    requires v.Obj? && WellFormed(v)
    ensures Supported(v) <==> forall k | HasKey(v.members, k) :: Supported(v.members[At(v.members, k)].value)
  {
    forall i | 0 <= i < |v.members|
      ensures HasKey(v.members, v.members[i].key) && At(v.members, v.members[i].key) == i
    {
      AtUnique(v.members, v.members[i].key, i);
    }
  }

  /** Member lists with the same keys in the same order and equal values. */
  lemma SamePointwise(ms: seq<Member>, ns: seq<Member>)
    requires |ms| == |ns| && NoDuplicates(Keys(ms)) && NoDuplicates(Keys(ns))
    requires forall i | 0 <= i < |ms| :: ms[i].key == ns[i].key && Same(ms[i].value, ns[i].value)
    ensures Same(Obj(ms), Obj(ns))
  {
    forall k | HasKey(ms, k) || HasKey(ns, k)
      ensures HasKey(ms, k) && HasKey(ns, k) && Same(ms[At(ms, k)].value, ns[At(ns, k)].value)
    {
      var i := if HasKey(ms, k) then At(ms, k) else At(ns, k);
      AtUnique(ms, k, i);
      AtUnique(ns, k, i);
    }
  }

  /** A common front part keeps two dicts equal. */
  lemma SameConcat(bs: seq<Member>, ms: seq<Member>, ns: seq<Member>)
    requires NoDuplicates(Keys(bs + ms)) && NoDuplicates(Keys(bs + ns))
    requires Same(Obj(ms), Obj(ns))
    ensures Same(Obj(bs + ms), Obj(bs + ns))
  {
    forall k
      ensures HasKey(bs + ms, k) <==> HasKey(bs, k) || HasKey(ms, k)
      ensures HasKey(bs + ns, k) <==> HasKey(bs, k) || HasKey(ns, k)
    {
      HasKeyConcat(bs, ms, k);
      HasKeyConcat(bs, ns, k);
    }
    forall k | HasKey(bs + ms, k) && HasKey(bs + ns, k)
      ensures Same((bs + ms)[At(bs + ms, k)].value, (bs + ns)[At(bs + ns, k)].value)
    {
      AtConcat(bs, ms, k);
      AtConcat(bs, ns, k);
      if HasKey(bs, k) {
        SameReflexive(bs[At(bs, k)].value);
      } else {
        assert HasKey(ms, k) && HasKey(ns, k);
        assert Obj(ms).members == ms && Obj(ns).members == ns;
        assert Same(ms[At(ms, k)].value, ns[At(ns, k)].value);
      }
    }
  }

  lemma HasKeyConcat(bs: seq<Member>, ms: seq<Member>, k: string)
    ensures HasKey(bs + ms, k) <==> HasKey(bs, k) || HasKey(ms, k)
  {
    if HasKey(bs, k) {
      assert (bs + ms)[At(bs, k)].key == k;
    }
    if HasKey(ms, k) {
      assert (bs + ms)[|bs| + At(ms, k)].key == k;
    }
  }

  lemma AtTail(ms: seq<Member>, k: string)
    requires ms != [] && ms[0].key != k
    ensures HasKey(ms, k) <==> HasKey(ms[1..], k)
    ensures HasKey(ms, k) && HasKey(ms[1..], k) ==> ms[At(ms, k)] == ms[1..][At(ms[1..], k)]
  {
    assert ms == [ms[0]] + ms[1..];
    HasKeyConcat([ms[0]], ms[1..], k);
  }

  lemma {:induction false} AtConcat(bs: seq<Member>, ms: seq<Member>, k: string)
    requires HasKey(bs + ms, k)
    ensures (bs + ms)[At(bs + ms, k)]
            == if HasKey(bs, k) then bs[At(bs, k)] else (HasKeyConcat(bs, ms, k); ms[At(ms, k)])
  {
    HasKeyConcat(bs, ms, k);
    if bs == [] {
      assert bs + ms == ms;
    } else if bs[0].key != k {
      assert (bs + ms)[1..] == bs[1..] + ms;
      AtTail(bs, k);
      AtTail(bs + ms, k);
      AtConcat(bs[1..], ms, k);
    }
  }
}
