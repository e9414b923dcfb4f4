/** What a predicate caveat means, from its text: comparisons with a fact or with the clock,
    and hooks for everything else. */
module CaveatMeaning {
  import opened Wrappers
  import opened Text
  import opened Decimal
  import opened Macaroons
  import opened MacaroonLaws

  // ----- which texts are comparisons ---------------------------------------------------------------

  predicate IsKey(key: string) {
    key != "" && forall i | 0 <= i < |key| :: IsKeyChar(key[i])
  }

  predicate OneLine(s: string) {
    s != "" && Lacks(s, '\n')
  }

  predicate IsOp(op: string) {
    op == "<=" || op == ">=" || op == "=" || op == "<" || op == ">"
  }

  /** The text is a key, an operator and a value, and at most one newline behind them. */
  predicate Reads(cid: string, key: string, op: string, value: string) {
    IsKey(key) && IsOp(op) && OneLine(value) && (cid == key + op + value || cid == key + op + value + "\n")
  }

  lemma {:induction false} KeyEnds(key: string, rest: string)
    requires (forall i | 0 <= i < |key| :: IsKeyChar(key[i])) && (rest == "" || !IsKeyChar(rest[0]))
    ensures KeyLength(key + rest) == |key|
    decreases |key|
  {
    if key == "" {
      assert key + rest == rest;
    } else {
      assert (key + rest)[1..] == key[1..] + rest;
      KeyEnds(key[1..], rest);
    }
  }

  lemma {:induction false} KeyIsKey(cid: string)
    ensures forall i | 0 <= i < KeyLength(cid) :: IsKeyChar(cid[i])
    ensures KeyLength(cid) < |cid| ==> !IsKeyChar(cid[KeyLength(cid)])
  {
    if cid != "" && IsKeyChar(cid[0]) {
      KeyIsKey(cid[1..]);
      assert forall i | 1 <= i < KeyLength(cid) :: cid[i] == cid[1..][i - 1];
    }
  }

  lemma ValueReads(s: string, value: string)
    requires OneLine(value) && (s == value || s == value + "\n")
    ensures ValuePart(s) == Some(value)
  {
    assert s == value + "\n" ==> s[..|s| - 1] == value && s[|s| - 1] == '\n';
  }

  lemma ValueRead(s: string)
    requires ValuePart(s).Some?
    ensures OneLine(ValuePart(s).value) && (s == ValuePart(s).value || s == ValuePart(s).value + "\n")
  {
    assert Lacks(s, '\n') || s == s[..|s| - 1] + [s[|s| - 1]];
  }

  lemma OpEndsKey(op: string, tail: string)
    requires IsOp(op)
    ensures !IsKeyChar((op + tail)[0])
  {
  }

  lemma TwoCharOps(op: string, tail: string)
    requires IsOp(op) && tail != "" && (op == "<" || op == ">" ==> tail[0] != '=')
    ensures (op + tail)[..|op|] == op && (op + tail)[|op|..] == tail
    ensures |op| == 1 ==> (op + tail)[..2] != "<=" && (op + tail)[..2] != ">="
  {
    if |op| == 1 {
      assert (op + tail)[..2] == [op[0], tail[0]];
    }
  }

  /** An operator right behind the key, with a value part behind it. */
  lemma CutsAt(cid: string, k: nat, op: string, tail: string, value: string)
    requires k == KeyLength(cid) > 0 && cid[k..] == op + tail && IsOp(op)
    requires tail != "" && (op == "<" || op == ">" ==> tail[0] != '=') && ValuePart(tail) == Some(value)
    ensures ParseComparison(cid) == Some(Comparison(cid[..k], op, value))
  {
    TwoCharOps(op, tail);
  }

  /** An operator of one character is read as such where no equals sign follows. */
  lemma ComparisonRead(cid: string, key: string, op: string, value: string)
    requires Reads(cid, key, op, value) && (op == "<" || op == ">" ==> value[0] != '=')
    ensures ParseComparison(cid) == Some(Comparison(key, op, value))
  {
    var tail := if cid == key + op + value then value else value + "\n";
    assert cid == key + (op + tail);
    OpEndsKey(op, tail);
    KeyEnds(key, op + tail);
    assert cid[..|key|] == key && cid[|key|..] == op + tail;
    ValueReads(tail, value);
    CutsAt(cid, |key|, op, tail, value);
  }

  /** A comparison is cut into key, operator and value part. */
  lemma ParsedParts(cid: string)
    requires ParseComparison(cid).Some?
    ensures
      var c, k := ParseComparison(cid).value, KeyLength(cid);
      && k > 0 && c.key == cid[..k] && IsOp(c.op) && c.op <= cid[k..]
      && ValuePart(cid[k..][|c.op|..]) == Some(c.value)
  {
  }

  lemma Rejoin(cid: string, k: nat, op: string, value: string)
    requires k <= |cid| && op <= cid[k..]
    ensures cid[k..][|op|..] == value ==> cid == cid[..k] + op + value
  {
    assert cid == cid[..k] + cid[k..] && cid[k..] == op + cid[k..][|op|..];
  }

  lemma ParsedReads(cid: string)
    requires ParseComparison(cid).Some?
    ensures var c := ParseComparison(cid).value; Reads(cid, c.key, c.op, c.value)
  {
    var c, k := ParseComparison(cid).value, KeyLength(cid);
    ParsedParts(cid);
    KeyIsKey(cid);
    ValueRead(cid[k..][|c.op|..]);
    Rejoin(cid, k, c.op, c.value);
    Rejoin(cid, k, c.op, c.value + "\n");
    assert cid[..k] + c.op + (c.value + "\n") == cid[..k] + c.op + c.value + "\n";
  }

  /** A text that starts with one operator's single character and goes on with an equals sign
      still reads as a comparison, if with another operator. */
  lemma SomeComparison(cid: string, key: string, op: string, value: string)
    requires Reads(cid, key, op, value)
    ensures ParseComparison(cid).Some?
  {
    if (op == "<" || op == ">") && value[0] == '=' {
      if |value| > 1 {
        assert op + value == (op + "=") + value[1..];
        assert key + op + value == key + (op + "=") + value[1..];
        assert OneLine(value[1..]);
        assert Reads(cid, key, op + "=", value[1..]);
        ComparisonRead(cid, key, op + "=", value[1..]);
      } else {
        BareEquals(cid, key, op, value);
      }
    } else {
      ComparisonRead(cid, key, op, value);
    }
  }

  /** `key<=` with nothing behind it compares with the text `=`. */
  lemma BareEquals(cid: string, key: string, op: string, value: string)
    requires Reads(cid, key, op, value) && (op == "<" || op == ">") && value == "="
    ensures ParseComparison(cid) == Some(Comparison(key, op, "="))
  {
    var tail := if cid == key + op + value then value else value + "\n";
    assert cid == key + (op + tail);
    OpEndsKey(op, tail);
    KeyEnds(key, op + tail);
    BareRest(op, tail);
    ParseFrom(cid, key, op + tail);
  }

  lemma BareRest(op: string, tail: string)
    requires (op == "<" || op == ">") && (tail == "=" || tail == "=\n")
    ensures var rest := op + tail;
            |rest| >= 2 && ValuePart(rest[2..]) == None && rest[..1] == op && ValuePart(rest[1..]) == Some("=")
  {
    var rest := op + tail;
    assert rest[1..] == tail && rest[..1] == op;
    assert rest[2..] == "" || rest[2..] == "\n";
    ValueReads(tail, "=");
  }

  /** Where the key ends, the rest decides. */
  lemma ParseFrom(cid: string, key: string, rest: string)
    requires cid == key + rest && key != "" && KeyLength(cid) == |key|
    requires |rest| >= 2 && ValuePart(rest[2..]) == None && IsOp(rest[..1]) && ValuePart(rest[1..]).Some?
    ensures ParseComparison(cid) == Some(Comparison(key, rest[..1], ValuePart(rest[1..]).value))
  {
    assert cid[..|key|] == key && cid[|key|..] == rest;
  }

  /** Exactly the other texts are left to the hooks. */
  lemma ComparisonExactly(cid: string)
    ensures ParseComparison(cid).Some?
            <==> exists key: string, op: string, value: string :: Reads(cid, key, op, value)
  {
    if ParseComparison(cid).Some? {
      ParsedReads(cid);
    }
    if key: string, op: string, value: string :| Reads(cid, key, op, value) {
      SomeComparison(cid, key, op, value);
    }
  }

  /** Any other text holds if and only if some hook says so. */
  lemma HookMeaning(ctx: Context, cid: string)
    requires !exists key: string, op: string, value: string :: Reads(cid, key, op, value)
    ensures Judge(ctx, cid) == Yes <==> exists i :: 0 <= i < |ctx.hooks| && ctx.hooks[i](cid) == Some(true)
    ensures Judge(ctx, cid) != Raises
  {
    ComparisonExactly(cid);
  }

  // ----- numbers ---------------------------------------------------------------------------------------

  /** A text that int() reads holds no equals sign in front. */
  lemma NumberStart(text: string)
    requires PyInt(text).Some? && text != ""
    ensures text[0] != '='
  {
    if text[0] == '=' {
      PyIntAlphabet(text, '=');
    }
  }

  lemma NumberRead(cid: string, key: string, op: string, text: string)
    requires Reads(cid, key, op, text) && PyInt(text).Some?
    ensures ParseComparison(cid) == Some(Comparison(key, op, text))
  {
    NumberStart(text);
    ComparisonRead(cid, key, op, text);
  }

  lemma IntTextFits(t: int)
    ensures OneLine(IntStr(t)) && PyInt(IntStr(t)) == Some(t)
  {
    IntStrLacks(t, '\n');
    PyIntInvertsIntStr(t);
  }

  lemma ExpiresIsKey()
    ensures IsKey("expires")
  {
  }

  /** The clock: `expires<T` and `expires<=T` for a number T, however int() reads it. */
  lemma ExpiresMeaning(ctx: Context, cid: string, op: string, text: string)
    requires Reads(cid, "expires", op, text) && PyInt(text).Some?
    ensures op == "<" ==> (Judge(ctx, cid) == Yes <==> ctx.now < PyInt(text).value)
    ensures op == "<=" ==> (Judge(ctx, cid) == Yes <==> ctx.now <= PyInt(text).value)
    ensures op == "=" || op == ">" || op == ">=" ==> Judge(ctx, cid) == No
    ensures Judge(ctx, cid) != Raises
  {
    NumberRead(cid, "expires", op, text);
  }

  /** A deadline that is no number raises. */
  lemma ExpiresRaises(ctx: Context, cid: string, op: string, text: string)
    requires Reads(cid, "expires", op, text) && PyInt(text) == None && (op == "<" || op == ">" ==> text[0] != '=')
    ensures Judge(ctx, cid) == Raises
  {
    ComparisonRead(cid, "expires", op, text);
  }

  /** As written by str(). */
  lemma ExpiresAt(ctx: Context, t: int)
    ensures Judge(ctx, "expires<" + IntStr(t)) == Yes <==> ctx.now < t
    ensures Judge(ctx, "expires<=" + IntStr(t)) == Yes <==> ctx.now <= t
    ensures Judge(ctx, "expires=" + IntStr(t)) == No && Judge(ctx, "expires>" + IntStr(t)) == No
            && Judge(ctx, "expires>=" + IntStr(t)) == No
  {
    IntTextFits(t);
    ExpiresIsKey();
    assert "expires" + "<" == "expires<" && "expires" + "<=" == "expires<=" && "expires" + "=" == "expires="
           && "expires" + ">" == "expires>" && "expires" + ">=" == "expires>=";
    ExpiresMeaning(ctx, "expires<" + IntStr(t), "<", IntStr(t));
    ExpiresMeaning(ctx, "expires<=" + IntStr(t), "<=", IntStr(t));
    ExpiresMeaning(ctx, "expires=" + IntStr(t), "=", IntStr(t));
    ExpiresMeaning(ctx, "expires>" + IntStr(t), ">", IntStr(t));
    ExpiresMeaning(ctx, "expires>=" + IntStr(t), ">=", IntStr(t));
  }

  // ----- facts -----------------------------------------------------------------------------------------

  /** The number a fact stands for: an integer, or a string of digits. */
  function NumberOf(f: Fact): Option<int> {
    match f
    case IntFact(n) => Some(n)
    case StrFact(s) => if AllDigits(s) then Some(NatValue(s)) else None
  }

  predicate IsFactKey(key: string) {
    IsKey(key) && key != "expires"
  }

  lemma AbsentFact(ctx: Context, cid: string, key: string, op: string, text: string)
    requires Reads(cid, key, op, text) && IsFactKey(key) && (op == "<" || op == ">" ==> text[0] != '=')
    requires key !in ctx.facts
    ensures Judge(ctx, cid) == No
  {
    ComparisonRead(cid, key, op, text);
  }

  lemma NatText(s: string)
    requires AllDigits(s)
    ensures PyInt(s) == Some(NatValue(s))
  {
    PyIntOfDigits(s);
  }

  /** Comparing a fact with a number: as numbers where the fact stands for one; a text that is
      no number equals only the number as str() writes it. */
  lemma NumberMeaning(ctx: Context, cid: string, key: string, op: string, text: string)
    requires Reads(cid, key, op, text) && IsFactKey(key) && PyInt(text).Some? && key in ctx.facts
    ensures
      var n, v, yes := NumberOf(ctx.facts[key]), PyInt(text).value, Judge(ctx, cid) == Yes;
      && (op == "<" ==> (yes <==> n.Some? && n.value < v)) && (op == "<=" ==> (yes <==> n.Some? && n.value <= v))
      && (op == ">" ==> (yes <==> n.Some? && n.value > v)) && (op == ">=" ==> (yes <==> n.Some? && n.value >= v))
      && (op == "=" ==> (yes <==> n == Some(v) || ctx.facts[key] == StrFact(IntStr(v))))
    ensures Judge(ctx, cid) != Raises
  {
    NumberRead(cid, key, op, text);
    match ctx.facts[key]
    case IntFact(_) =>
    case StrFact(s) =>
      if AllDigits(s) {
        NatText(s);
        PyIntInvertsIntStr(PyInt(text).value);
      }
  }

  /** As written by str(). */
  lemma NumberAt(ctx: Context, key: string, op: string, v: int)
    requires IsFactKey(key) && IsOp(op) && key in ctx.facts
    ensures
      var n, yes := NumberOf(ctx.facts[key]), Judge(ctx, key + op + IntStr(v)) == Yes;
      && (op == "<" ==> (yes <==> n.Some? && n.value < v)) && (op == "<=" ==> (yes <==> n.Some? && n.value <= v))
      && (op == ">" ==> (yes <==> n.Some? && n.value > v)) && (op == ">=" ==> (yes <==> n.Some? && n.value >= v))
      && (op == "=" ==> (yes <==> n == Some(v) || ctx.facts[key] == StrFact(IntStr(v))))
  {
    IntTextFits(v);
    NumberMeaning(ctx, key + op + IntStr(v), key, op, IntStr(v));
  }

  lemma IntIsNoText(n: int, text: string)
    requires PyInt(text) == None
    ensures IntStr(n) != text
  {
    PyIntInvertsIntStr(n);
  }

  /** Comparing a fact with a text that is no number: only equality holds, of the text itself. */
  lemma TextMeaning(ctx: Context, cid: string, key: string, op: string, text: string)
    requires Reads(cid, key, op, text) && IsFactKey(key) && PyInt(text) == None && key in ctx.facts
    requires op == "<" || op == ">" ==> text[0] != '='
    ensures Judge(ctx, cid) == Yes <==> op == "=" && ctx.facts[key] == StrFact(text)
    ensures Judge(ctx, cid) != Raises
  {
    ComparisonRead(cid, key, op, text);
    if ctx.facts[key].IntFact? {
      IntIsNoText(ctx.facts[key].n, text);
    }
  }

  // ----- tokens ----------------------------------------------------------------------------------------

  /** A token with one predicate is accepted exactly where the predicate holds. */
  lemma OnePredicate(secret: Bytes, ctx: Context, id: string, location: string, text: string)
    requires secret != [] && ValidPredicate(text)
    ensures
      var token := Attenuate(MintRoot(secret, id, location).value, text).value;
      RanksAll(ctx, token.caveats, map[])
      && (Accepts(secret, ctx, token, map[]) <==> Judge(ctx, text) == Yes)
  {
    var root := MintRoot(secret, id, location).value;
    assert Attenuate(root, text) == Ok(Extend(root, Caveat(text, None, None)));
    assert RanksAll(ctx, root.caveats, map[]) && Accepts(secret, ctx, root, map[]);
    ExtendAccepts(secret, ctx, root, Caveat(text, None, None), map[]);
  }

  /** A token minted and given a deadline is accepted exactly before it. */
  lemma ExpiringToken(secret: Bytes, ctx: Context, id: string, location: string, t: int)
    requires secret != []
    ensures
      var text := "expires<" + IntStr(t);
      ValidPredicate(text)
      && var token := Attenuate(MintRoot(secret, id, location).value, text).value;
         RanksAll(ctx, token.caveats, map[]) && (Accepts(secret, ctx, token, map[]) <==> ctx.now < t)
  {
    IntStrLacks(t, '\n');
    ExpiresAt(ctx, t);
    OnePredicate(secret, ctx, id, location, "expires<" + IntStr(t));
  }

  /** A token minted and bound to a number is accepted exactly where the fact stands so. */
  lemma BoundedToken(secret: Bytes, ctx: Context, id: string, location: string, key: string, v: int)
    requires secret != [] && IsFactKey(key)
    ensures
      var text := key + "<=" + IntStr(v);
      ValidPredicate(text)
      && var token := Attenuate(MintRoot(secret, id, location).value, text).value;
         RanksAll(ctx, token.caveats, map[])
         && (Accepts(secret, ctx, token, map[])
             <==> key in ctx.facts && NumberOf(ctx.facts[key]).Some? && NumberOf(ctx.facts[key]).value <= v)
  {
    var text := key + "<=" + IntStr(v);
    IntTextFits(v);
    assert Lacks(text, '\n');
    if key in ctx.facts {
      NumberAt(ctx, key, "<=", v);
    } else {
      AbsentFact(ctx, text, key, "<=", IntStr(v));
    }
    OnePredicate(secret, ctx, id, location, text);
  }
}
