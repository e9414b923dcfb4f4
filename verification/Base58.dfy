/** base58btc: the encoder and decoder are mutually inverse bijections between byte
    strings and strings over the alphabet. */
module Base58 {
  import opened Wrappers
  import opened Hex
  import opened Radix
  import opened IntBytes

  const ALPHABET := "123456789" + "ABCDEFGH" + "JKLMN" + "PQRSTUVWXYZ" + "abcdefghijk" + "mnopqrstuvwxyz"

  /** The alphabet as a formula; AlphabetSpelledOut ties it to the literal. */
  function CharOf(d: nat): char
    requires d < 58
  {
    if d < 9 then (49 + d) as char
    else if d < 17 then (65 + d - 9) as char
    else if d < 22 then (74 + d - 17) as char
    else if d < 33 then (80 + d - 22) as char
    else if d < 44 then (97 + d - 33) as char
    else (109 + d - 44) as char
  }

  function IndexOf(c: char): (d: Option<nat>)
    ensures d.Some? ==> d.value < 58 && CharOf(d.value) == c
  {
    var n := c as int;
    if 49 <= n < 58 then Some(n - 49)
    else if 65 <= n < 73 then Some(n - 65 + 9)
    else if 74 <= n < 79 then Some(n - 74 + 17)
    else if 80 <= n < 91 then Some(n - 80 + 22)
    else if 97 <= n < 108 then Some(n - 97 + 33)
    else if 109 <= n < 123 then Some(n - 109 + 44)
    else None
  }

  lemma IndexOfChar(d: nat)
    requires d < 58
    ensures IndexOf(CharOf(d)) == Some(d)
  {
  }

  function CharRange(from: nat, to: nat): (s: string)
    requires from <= to <= 58
    ensures |s| == to - from && forall i | 0 <= i < |s| :: s[i] == CharOf(from + i)
  {
    seq(to - from, i requires 0 <= i < to - from => CharOf(from + i))
  }

  lemma AlphabetSpelledOut()
    ensures ALPHABET == CharRange(0, 58)
  {
    assert CharRange(0, 9) == "123456789";
    assert CharRange(9, 17) == "ABCDEFGH";
    assert CharRange(17, 22) == "JKLMN";
    assert CharRange(22, 33) == "PQRSTUVWXYZ";
    assert CharRange(33, 44) == "abcdefghijk";
    assert CharRange(44, 58) == "mnopqrstuvwxyz";
    assert CharRange(0, 58) == CharRange(0, 9) + CharRange(9, 17) + CharRange(17, 22)
                               + CharRange(22, 33) + CharRange(33, 44) + CharRange(44, 58);
  }

  predicate Over58(s: string) {
    forall i | 0 <= i < |s| :: IndexOf(s[i]).Some?
  }

  function ToChars(ds: seq<nat>): (s: string)
    requires AreDigits(ds, 58)
    ensures |s| == |ds| && forall i | 0 <= i < |ds| :: s[i] == CharOf(ds[i])
  {
    seq(|ds|, i requires 0 <= i < |ds| => CharOf(ds[i]))
  }

  function ToIndices(s: string): (ds: seq<nat>)
    requires Over58(s)
    ensures AreDigits(ds, 58) && |ds| == |s| && forall i | 0 <= i < |s| :: Some(ds[i]) == IndexOf(s[i])
  {
    seq(|s|, i requires 0 <= i < |s| => IndexOf(s[i]).value)
  }

  /** How many leading digits are zero. */
  function LeadingZeros(ds: seq<nat>): (k: nat)
    ensures k <= |ds|
    ensures ds == Zeros(k) + ds[k..]
    ensures k < |ds| ==> ds[k] != 0
  {
    if ds != [] && ds[0] == 0 then
      assert ds == [0] + ds[1..];
      1 + LeadingZeros(ds[1..])
    else 0
  }

  /** Leading zeros are copied, the rest is rewritten in the other base. */
  function Rebase(ds: seq<nat>, from: nat, to: nat): (r: seq<nat>)
    requires to > 1
    ensures AreDigits(r, to)
  {
    Zeros(LeadingZeros(ds)) + Digits(Value(ds, from), to)
  }

  lemma {:induction false} CountLeadingZeros(k: nat, rest: seq<nat>)
    requires rest == [] || rest[0] != 0
    ensures LeadingZeros(Zeros(k) + rest) == k
  {
    var ds := Zeros(k) + rest;
    if k > 0 {
      assert ds[1..] == Zeros(k - 1) + rest;
      CountLeadingZeros(k - 1, rest);
    } else {
      assert ds == rest;
    }
  }

  /** Rewriting to another base and back is the identity, zeros included. */
  lemma RebaseInverts(ds: seq<nat>, from: nat, to: nat)
    requires from > 1 && to > 1 && AreDigits(ds, from)
    ensures Rebase(Rebase(ds, from, to), to, from) == ds
  {
    var k, n := LeadingZeros(ds), Value(ds, from);
    var rest := ds[k..];
    LeadingZerosVanish(k, rest, from);
    assert AreDigits(rest, from) && (rest != [] ==> rest[0] != 0);
    DigitsOfValue(rest, from);
    assert Digits(n, from) == rest;
    CountLeadingZeros(k, Digits(n, to));
    LeadingZerosVanish(k, Digits(n, to), to);
    ValueOfDigits(n, to);
  }

  // ----- the codec --------------------------------------------------------------

  function Encode(raw: seq<byte>): string {
    ToChars(Rebase(Nats(raw), 256, 58))
  }

  function Decode(s: string): Option<seq<byte>> {
    if Over58(s) then Some(Bytes(Rebase(ToIndices(s), 58, 256))) else None
  }

  lemma DecodeEncode(raw: seq<byte>)
    ensures Decode(Encode(raw)) == Some(raw)
  {
    var ds := Rebase(Nats(raw), 256, 58);
    forall i | 0 <= i < |ds|
      ensures IndexOf(CharOf(ds[i])) == Some(ds[i])
    {
      IndexOfChar(ds[i]);
    }
    assert ToIndices(Encode(raw)) == ds;
    RebaseInverts(Nats(raw), 256, 58);
    assert Bytes(Nats(raw)) == raw;
  }

  /** Exactly the strings over the alphabet decode, and each is the encoding of what it
      decodes to. */
  lemma EncodeDecode(s: string)
    ensures Decode(s).Some? <==> Over58(s)
    ensures Over58(s) ==> Encode(Decode(s).value) == s
  {
    if Over58(s) {
      var ds := Rebase(ToIndices(s), 58, 256);
      assert Nats(Bytes(ds)) == ds;
      RebaseInverts(ToIndices(s), 58, 256);
      assert ToChars(ToIndices(s)) == s by {
        forall i | 0 <= i < |s|
          ensures ToChars(ToIndices(s))[i] == s[i]
        {
          assert IndexOf(s[i]).Some?;
        }
      }
    }
  }

  lemma EncodeAlphabet(raw: seq<byte>)
    ensures Over58(Encode(raw))
  {
    var s := Encode(raw);
    forall i | 0 <= i < |s|
      ensures IndexOf(s[i]).Some?
    {
      IndexOfChar(Rebase(Nats(raw), 256, 58)[i]);
    }
  }

  /** The encodings are exactly the strings over the alphabet. */
  lemma EncodingsExactly(s: string)
    ensures (exists raw: seq<byte> :: Encode(raw) == s) <==> Over58(s)
  {
    if raw: seq<byte> :| Encode(raw) == s {
      EncodeAlphabet(raw);
    }
    EncodeDecode(s);
  }

  lemma ZeroChars(k: nat, ds: seq<nat>)
    requires AreDigits(ds, 58)
    ensures AreDigits(Zeros(k) + ds, 58) && ToChars(Zeros(k) + ds) == seq(k, _ => '1') + ToChars(ds)
  {
    var all := Zeros(k) + ds;
    assert forall i | 0 <= i < |all| :: all[i] == if i < k then 0 else ds[i - k];
  }

  lemma EncodeParts(raw: seq<byte>, zeros: nat)
    requires zeros == LeadingZeros(Nats(raw))
    ensures Encode(raw) == seq(zeros, _ => '1') + ToChars(Digits(Value(Nats(raw), 256), 58))
  {
    ZeroChars(zeros, Digits(Value(Nats(raw), 256), 58));
  }

  method B58Encode(raw: seq<byte>) returns (s: string)
    ensures s == Encode(raw)
  {
    if raw == [] {
      return "";
    }
    var nLeadingZeros := CountZeros(raw);
    var out := DigitLoop(Value(Nats(raw), 256));
    s := seq(nLeadingZeros, _ => '1') + out;
    EncodeParts(raw, nLeadingZeros);
  }

  /** The loop over leading zero bytes. */
  method CountZeros(raw: seq<byte>) returns (n: nat)
    ensures n == LeadingZeros(Nats(raw))
  {
    n := 0;
    while n < |raw| && raw[n] == 0
      invariant n <= |raw|
      invariant n + LeadingZeros(Nats(raw)[n..]) == LeadingZeros(Nats(raw))
    {
      n := n + 1;
    }
  }

  /** The divmod loop. */
  method DigitLoop(total: nat) returns (out: string)
    ensures out == ToChars(Digits(total, 58))
  {
    var n := total;
    out := "";
    while n > 0
      invariant ToChars(Digits(n, 58)) + out == ToChars(Digits(total, 58))
      decreases n
    {
      QuotientShrinks(n, 58);
      assert ToChars(Digits(n, 58)) == ToChars(Digits(n / 58, 58)) + [CharOf(n % 58)];
      out := [CharOf(n % 58)] + out;
      n := n / 58;
    }
  }

  lemma DecodeParts(s: string, ones: nat, n: nat)
    requires Over58(s) && ones == LeadingZeros(ToIndices(s)) && n == Value(ToIndices(s), 58)
    ensures AreDigits(Zeros(ones) + Digits(n, 256), 256)
    ensures Decode(s) == Some(Bytes(Zeros(ones) + Digits(n, 256)))
  {
    RebaseParts(ToIndices(s), 58, 256, ones, n);
  }

  lemma RebaseParts(ds: seq<nat>, from: nat, to: nat, zeros: nat, n: nat)
    requires to > 1 && zeros == LeadingZeros(ds) && n == Value(ds, from)
    ensures Rebase(ds, from, to) == Zeros(zeros) + Digits(n, to)
    ensures AreDigits(Zeros(zeros) + Digits(n, to), to)
  {
  }

  method B58Decode(s: string) returns (r: Option<seq<byte>>)
    ensures r == Decode(s)
  {
    if s == "" {
      return Some([]);
    }
    var nLeadingOnes := CountOnes(s);
    var n := ValueLoop(s);
    if n == None {
      return None;
    }
    var body := if n.value > 0 then ToBytes(n.value, MinimalWidth(n.value)) else [];
    MinimalBytes(n.value);
    LeadingOnesAreZeros(s, nLeadingOnes);
    DecodeParts(s, nLeadingOnes, n.value);
    r := Some(Bytes(Zeros(nLeadingOnes) + body));
  }

  /** The loop over leading ones. */
  method CountOnes(s: string) returns (n: nat)
    ensures n <= |s| && (forall i | 0 <= i < n :: s[i] == '1') && (n < |s| ==> s[n] != '1')
  {
    n := 0;
    while n < |s| && s[n] == '1'
      invariant n <= |s| && forall i | 0 <= i < n :: s[i] == '1'
    {
      n := n + 1;
    }
  }

  lemma LeadingOnesAreZeros(s: string, n: nat)
    requires Over58(s) && n <= |s|
    requires (forall i | 0 <= i < n :: s[i] == '1') && (n < |s| ==> s[n] != '1')
    ensures LeadingZeros(ToIndices(s)) == n
  {
    var ds := ToIndices(s);
    assert ds == Zeros(n) + ds[n..];
    assert n < |s| ==> ds[n] != 0 by {
      if n < |s| {
        assert CharOf(ds[n]) == s[n];
      }
    }
    CountLeadingZeros(n, ds[n..]);
  }

  /** The multiply-and-add loop, None at a character outside the alphabet. */
  method ValueLoop(s: string) returns (r: Option<nat>)
    ensures r == if Over58(s) then Some(Value(ToIndices(s), 58)) else None
  {
    var n: nat := 0;
    for i := 0 to |s|
      invariant Over58(s[..i]) && n == Value(ToIndices(s[..i]), 58)
    {
      var d := IndexOf(s[i]);
      if d == None {
        return None;
      }
      ghost var ds := ToIndices(s[..i + 1]);
      assert ds[..|ds| - 1] == ToIndices(s[..i]);
      n := n * 58 + d.value;
    }
    assert s[..|s|] == s;
    return Some(n);
  }
}
