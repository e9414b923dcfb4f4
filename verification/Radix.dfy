/** Positional notation, most significant digit first, for any base. */
module Radix {

  ghost predicate AreDigits(ds: seq<nat>, base: nat) {
    forall i | 0 <= i < |ds| :: ds[i] < base
  }

  function Value(ds: seq<nat>, base: nat): nat {
    if ds == [] then 0 else Value(ds[..|ds| - 1], base) * base + ds[|ds| - 1]
  }

  /** Minimal digits: none for zero, never a leading zero. */
  function Digits(n: nat, base: nat): (ds: seq<nat>)
    requires base > 1
    ensures AreDigits(ds, base)
    ensures ds != [] ==> ds[0] != 0
  {
    if n == 0 then [] else
      QuotientShrinks(n, base);
      Digits(n / base, base) + [n % base]
  }

  lemma MulOrder(a: nat, x: nat, y: nat)
    ensures x <= y ==> a * x <= a * y
  {
  }

  lemma QuotientShrinks(n: nat, base: nat)
    requires base > 1 && n > 0
    ensures 0 <= n / base < n
    ensures n / base == 0 ==> n % base == n
  {
    var q := n / base;
    assert n == q * base + n % base;
    MulOrder(q, 2, base);
  }

  lemma DivModUnique(q: nat, r: nat, base: nat)
    requires r < base
    ensures (q * base + r) / base == q && (q * base + r) % base == r
  {
    var n := q * base + r;
    var q', r' := n / base, n % base;
    assert n == q' * base + r';
    MulOrder(base, q + 1, q');
    MulOrder(base, q' + 1, q);
    assert q' == q;
  }

  lemma ValueSnoc(ds: seq<nat>, d: nat, base: nat)
    ensures Value(ds + [d], base) == Value(ds, base) * base + d
  {
    assert (ds + [d])[..|ds|] == ds;
  }

  lemma Divide(n: nat, base: nat) returns (q: nat, r: nat)
    requires base > 1 && n > 0
    ensures q < n && r < base && n == q * base + r && Digits(n, base) == Digits(q, base) + [r]
  {
    QuotientShrinks(n, base);
    q, r := n / base, n % base;
  }

  lemma {:induction false} ValueOfDigits(n: nat, base: nat)
    requires base > 1
    ensures Value(Digits(n, base), base) == n
  {
    if n > 0 {
      var q, r := Divide(n, base);
      ValueOfDigits(q, base);
      ValueSnoc(Digits(q, base), r, base);
    }
  }

  lemma {:induction false} ValuePositive(ds: seq<nat>, base: nat)
    requires base > 1 && ds != [] && ds[0] != 0
    ensures Value(ds, base) > 0
  {
    if |ds| > 1 {
      ValuePositive(ds[..|ds| - 1], base);
    }
  }

  lemma DigitsSnoc(v: nat, d: nat, base: nat)
    requires base > 1 && d < base && v * base + d > 0
    ensures Digits(v * base + d, base) == Digits(v, base) + [d]
  {
    DivModUnique(v, d, base);
  }

  /** A digit sequence without leading zeros is the one its value prints as. */
  lemma {:induction false} DigitsOfValue(ds: seq<nat>, base: nat)
    requires base > 1 && AreDigits(ds, base)
    requires ds != [] ==> ds[0] != 0
    ensures Digits(Value(ds, base), base) == ds
  {
    if ds != [] {
      var front, last := ds[..|ds| - 1], ds[|ds| - 1];
      DigitsOfValue(front, base);
      ValuePositive(ds, base);
      DigitsSnoc(Value(front, base), last, base);
      assert ds == front + [last];
    }
  }

  function Zeros(k: nat): (r: seq<nat>)
    ensures |r| == k && forall i | 0 <= i < k :: r[i] == 0
  {
    seq(k, _ => 0)
  }

  lemma {:induction false} LeadingZerosVanish(k: nat, ds: seq<nat>, base: nat)
    ensures Value(Zeros(k) + ds, base) == Value(ds, base)
    decreases k + |ds|
  {
    var zeros := Zeros(k);
    var all := zeros + ds;
    if ds != [] {
      assert all[..|all| - 1] == zeros + ds[..|ds| - 1];
      LeadingZerosVanish(k, ds[..|ds| - 1], base);
    } else if k > 0 {
      assert all[..|all| - 1] == Zeros(k - 1) + ds;
      LeadingZerosVanish(k - 1, ds, base);
    }
  }

  // ----- Python's int.bit_length() and int.to_bytes() --------------------------

  function BitLength(n: nat): nat {
    if n == 0 then 0 else 1 + BitLength(n / 2)
  }

  /** n.to_bytes(width, "big") for an n that fits. */
  function ToBytes(n: nat, width: nat): seq<nat> {
    if width == 0 then [] else ToBytes(n / 256, width - 1) + [n % 256]
  }

  function MinimalWidth(n: nat): nat {
    (BitLength(n) + 7) / 8
  }

  lemma BitLengthShift(n: nat)
    requires n >= 256
    ensures BitLength(n) == 8 + BitLength(n / 256)
  {
    var a := n / 2;
    var b := a / 2;
    var c := b / 2;
    var d := c / 2;
    var e := d / 2;
    var f := e / 2;
    var g := f / 2;
    assert BitLength(n) == 1 + BitLength(a) == 2 + BitLength(b) == 3 + BitLength(c) == 4 + BitLength(d);
    assert BitLength(d) == 1 + BitLength(e) == 2 + BitLength(f) == 3 + BitLength(g) == 4 + BitLength(g / 2);
    assert g / 2 == n / 256;
  }

  lemma {:induction false} BitLengthBound(n: nat, k: nat, limit: nat)
    requires n < limit && limit == Pow2(k)
    ensures BitLength(n) <= k
    decreases k
  {
    if n > 0 {
      BitLengthBound(n / 2, k - 1, limit / 2);
    }
  }

  function Pow2(k: nat): (p: nat)
    ensures p > 0
  {
    if k == 0 then 1 else 2 * Pow2(k - 1)
  }

  lemma WidthShift(n: nat)
    requires n >= 256
    ensures MinimalWidth(n) == MinimalWidth(n / 256) + 1
  {
    BitLengthShift(n);
  }

  lemma OneByteWide(n: nat)
    requires 0 < n < 256
    ensures MinimalWidth(n) == 1
  {
    assert Pow2(8) == 256 by { assert Pow2(4) == 16; }
    BitLengthBound(n, 8, 256);
  }

  lemma DigitsStep(n: nat)
    requires n > 0
    ensures Digits(n, 256) == Digits(n / 256, 256) + [n % 256]
  {
  }

  lemma BytesStep(n: nat, width: nat)
    ensures ToBytes(n, width + 1) == ToBytes(n / 256, width) + [n % 256]
  {
  }

  /** The width computed from the bit length is exactly the minimal big-endian one. */
  lemma {:induction false} MinimalBytes(n: nat)
    ensures ToBytes(n, MinimalWidth(n)) == Digits(n, 256)
  {
    if n > 0 {
      DigitsStep(n);
      if n >= 256 {
        WidthShift(n);
        BytesStep(n, MinimalWidth(n / 256));
        MinimalBytes(n / 256);
      } else {
        OneByteWide(n);
        BytesStep(n, 0);
      }
    }
  }
}
