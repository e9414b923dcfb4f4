/** bytes.hex() and bytes.fromhex(). */
module Hex {
  import opened Wrappers

  type byte = b: int | 0 <= b < 256

  predicate IsHex(c: char) {
    '0' <= c <= '9' || 'a' <= c <= 'f' || 'A' <= c <= 'F'
  }

  function HexValue(c: char): (v: nat)
    requires IsHex(c)
    ensures v < 16
  {
    if c <= '9' then c as int - 48 else if c <= 'F' then c as int - 55 else c as int - 87
  }

  function HexDigit(v: nat): (c: char)
    requires v < 16
    ensures IsHex(c) && HexValue(c) == v
    ensures '0' <= c <= '9' || 'a' <= c <= 'f'
  {
    if v < 10 then (48 + v) as char else (87 + v) as char
  }

  function ToHex(bs: seq<byte>): (s: string)
    ensures |s| == 2 * |bs|
    ensures forall i | 0 <= i < |s| :: '0' <= s[i] <= '9' || 'a' <= s[i] <= 'f'
  {
    if bs == [] then [] else [HexDigit(bs[0] / 16), HexDigit(bs[0] % 16)] + ToHex(bs[1..])
  }

  predicate IsAsciiSpace(c: char) {
    c == ' ' || '\t' <= c <= '\r'
  }

  /** bytes.fromhex(s), None where Python raises ValueError. White space is skipped
      between bytes, never inside one. */
  function FromHex(s: string): (r: Option<seq<byte>>)
    ensures r.Some? ==> forall c | c in s :: IsHex(c) || IsAsciiSpace(c)
  {
    if s == [] then Some([])
    else if IsAsciiSpace(s[0]) then FromHex(s[1..])
    else if |s| < 2 || !IsHex(s[0]) || !IsHex(s[1]) then None
    else match FromHex(s[2..])
      case None => None
      case Some(rest) => Some([(HexValue(s[0]) * 16 + HexValue(s[1])) as byte] + rest)
  }

  lemma {:induction false} FromHexInvertsToHex(bs: seq<byte>)
    ensures FromHex(ToHex(bs)) == Some(bs)
  {
    if bs != [] {
      FromHexInvertsToHex(bs[1..]);
      var s := ToHex(bs);
      assert s[2..] == ToHex(bs[1..]);
      assert bs == [bs[0]] + bs[1..];
    }
  }

  // ----- what bytes.fromhex() reads, exactly ------------------------------------

  /** The digits, in either case. */
  lemma HexDigitsExactly(c: char)
    ensures IsHex(c) <==> exists v :: 0 <= v < 16 && ("0123456789abcdef"[v] == c || "0123456789ABCDEF"[v] == c)
    ensures forall v | 0 <= v < 16 && ("0123456789abcdef"[v] == c || "0123456789ABCDEF"[v] == c) ::
              IsHex(c) && HexValue(c) == v
  {
    if IsHex(c) {
      var v := HexValue(c);
      assert "0123456789abcdef"[v] == c || "0123456789ABCDEF"[v] == c;
    }
  }

  predicate IsByte(high: char, low: char, b: byte) {
    IsHex(high) && IsHex(low) && b == 16 * HexValue(high) + HexValue(low)
  }

  /** Two digits a byte, the high one first. */
  ghost predicate Pairs(s: string, bs: seq<byte>) {
    |s| == 2 * |bs| && forall i | 0 <= i < |bs| :: IsByte(s[2 * i], s[2 * i + 1], bs[i])
  }

  lemma PairsStep(s: string, bs: seq<byte>)
    requires |s| >= 2 && bs != []
    ensures Pairs(s, bs) <==> IsByte(s[0], s[1], bs[0]) && Pairs(s[2..], bs[1..])
  {
    var t, cs := s[2..], bs[1..];
    if IsByte(s[0], s[1], bs[0]) && Pairs(t, cs) {
      forall i | 0 <= i < |bs|
        ensures IsByte(s[2 * i], s[2 * i + 1], bs[i])
      {
        if i > 0 {
          var j := i - 1;
          assert IsByte(t[2 * j], t[2 * j + 1], cs[j]);
        }
      }
    }
    if Pairs(s, bs) {
      assert IsByte(s[2 * 0], s[2 * 0 + 1], bs[0]);
      forall j | 0 <= j < |cs|
        ensures IsByte(t[2 * j], t[2 * j + 1], cs[j])
      {
        var i := j + 1;
        assert IsByte(s[2 * i], s[2 * i + 1], bs[i]);
      }
    }
  }

  /** A text without white space is read as its pairs of digits. */
  lemma {:induction false} FromHexPairs(s: string, bs: seq<byte>)
    requires forall c | c in s :: !IsAsciiSpace(c)
    ensures FromHex(s) == Some(bs) <==> Pairs(s, bs)
    decreases |s|
  {
    if |s| >= 2 && bs != [] {
      PairsStep(s, bs);
      FromHexPairs(s[2..], bs[1..]);
      assert bs == [bs[0]] + bs[1..] && s[0] in s;
    } else if s != [] {
      assert s[0] in s;
    }
  }

  /** White space may stand between bytes, and only there. */
  lemma {:induction false} FromHexSpace(s: string, space: char, t: string)
    requires IsAsciiSpace(space)
    ensures FromHex(s + [space] + t)
            == if FromHex(s).Some? && FromHex(t).Some? then Some(FromHex(s).value + FromHex(t).value) else None
    decreases |s|
  {
    var all := s + [space] + t;
    if s == [] {
      assert all[0] == space && all[1..] == t;
      assert FromHex(t).Some? ==> FromHex(s).value + FromHex(t).value == FromHex(t).value;
    } else if IsAsciiSpace(s[0]) {
      assert all[1..] == s[1..] + [space] + t;
      FromHexSpace(s[1..], space, t);
    } else if |s| >= 2 {
      assert all[2..] == s[2..] + [space] + t && all[0] == s[0] && all[1] == s[1];
      FromHexSpace(s[2..], space, t);
      if FromHex(s).Some? && FromHex(t).Some? {
        var b := [FromHex(s).value[0]];
        assert b + (FromHex(s[2..]).value + FromHex(t).value) == (b + FromHex(s[2..]).value) + FromHex(t).value;
      }
    } else {
      assert all[1] == space;
    }
  }
}
