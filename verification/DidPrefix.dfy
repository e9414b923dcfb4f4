/** The characters every did:key of an Ed25519 key begins with, which the documentation's
    examples show. */
module DidPrefix {
  import opened Wrappers
  import opened Hex
  import opened Radix
  import opened IntBytes
  import opened ModArith
  import opened DidKey
  import Base58

  /** The digits in front count for what they say, times the room the rest takes up. */
  lemma {:induction false} ValueRange(front: seq<nat>, rest: seq<nat>, base: nat)
    requires base > 0 && AreDigits(rest, base)
    ensures var room := Pow(base, |rest|);
            Value(front, base) * room <= Value(front + rest, base) < (Value(front, base) + 1) * room
  {
    var all, v := front + rest, Value(front, base);
    if rest == [] {
      assert all == front;
    } else {
      var k := |rest| - 1;
      assert all[..|all| - 1] == front + rest[..k];
      ValueRange(front, rest[..k], base);
      Scale(v, Value(front + rest[..k], base), Pow(base, k), base, rest[k]);
    }
  }

  lemma Scale(v: nat, x: nat, room: nat, base: nat, d: nat)
    requires v * room <= x < (v + 1) * room && d < base
    ensures v * (base * room) <= x * base + d < (v + 1) * (base * room)
  {
    MulOrder(base, v * room, x);
    MulOrder(base, x + 1, (v + 1) * room);
    assert base * (v * room) == v * (base * room);
    assert base * ((v + 1) * room) == (v + 1) * (base * room);
  }

  /** q is n without its last digits, for which there is this much room. */
  ghost predicate Front(n: nat, q: nat, room: nat) {
    q * room <= n < (q + 1) * room
  }

  /** A number between q and q + 1 times a power is written with the digits of q in front. */
  lemma {:induction false} DigitsRange(n: nat, q: nat, k: nat)
    requires q > 0 && Front(n, q, Pow(58, k))
    ensures Digits(q, 58) <= Digits(n, 58)
    decreases k
  {
    if k == 0 {
      assert n == q;
    } else {
      PowStep(58, k);
      var m, r := SplitOff(n, q, Pow(58, k - 1));
      DigitsRange(m, q, k - 1);
      PrefixOf(Digits(q, 58), Digits(m, 58), Digits(n, 58), r);
    }
  }

  lemma PowStep(base: nat, k: nat)
    requires k > 0
    ensures Pow(base, k) == base * Pow(base, k - 1)
  {
  }

  lemma PrefixOf<T>(a: seq<T>, b: seq<T>, c: seq<T>, x: T)
    requires a <= b && c == b + [x]
    ensures a <= c
  {
  }

  lemma SplitOff(n: nat, q: nat, room: nat) returns (m: nat, r: nat)
    requires q > 0 && Front(n, q, 58 * room)
    ensures Front(m, q, room) && Digits(n, 58) == Digits(m, 58) + [r]
  {
    Positive(q, 58 * room, n);
    m, r := Divide(n, 58);
    Shrink(q, m, r, room);
  }

  lemma Positive(q: nat, scale: nat, n: nat)
    requires q > 0 && q * scale <= n < (q + 1) * scale
    ensures n > 0
  {
    assert scale > 0 && q * scale >= scale;
  }

  lemma Shrink(q: nat, m: nat, r: nat, room: nat)
    requires r < 58 && q * (58 * room) <= m * 58 + r < (q + 1) * (58 * room)
    ensures q * room <= m < (q + 1) * room
  {
    assert q * (58 * room) == 58 * (q * room) && (q + 1) * (58 * room) == 58 * ((q + 1) * room);
  }

  lemma Powers()
    ensures Pow(256, 32) == 115792089237316195423570985008687907853269984665640564039457584007913129639936
    ensures Pow(58, 44) == 389790918707373377135528568990913592653094657612049369038476873218241589149696
  {
    assert Pow(256, 4) == 4294967296;
    PowSum(256, 4, 4);
    PowSum(256, 8, 8);
    PowSum(256, 16, 16);
    assert Pow(58, 5) == 656356768;
    PowSum(58, 5, 6);
    PowSum(58, 11, 11);
    PowSum(58, 22, 22);
  }

  /** The leading digits of a key's multicodec bytes in base 58. */
  lemma LeadingDigits(pubkey: seq<byte>)
    requires |pubkey| == 32
    ensures [5, 20, 43] <= Digits(Value(Nats([0xed, 0x01] + pubkey), 256), 58)
  {
    var raw := [0xed, 0x01] + pubkey;
    var n := Value(Nats(raw), 256);
    assert Nats(raw) == [0xed, 0x01] + Nats(pubkey);
    HeaderValue();
    ValueRange([0xed, 0x01], Nats(pubkey), 256);
    Powers();
    ThreeDigits();
    DigitsRange(n, 18023, 44);
  }

  lemma HeaderValue()
    ensures Value([0xed, 0x01], 256) == 60673
  {
    ValueSnoc([0xed], 0x01, 256);
    ValueSnoc([], 0xed, 256);
    assert [] + [0xed] == [0xed] && [0xed] + [0x01] == [0xed, 0x01];
  }

  lemma ThreeDigits()
    ensures Digits(18023, 58) == [5, 20, 43]
  {
    assert Digits(5, 58) == [5];
    assert Digits(310, 58) == [5, 20];
  }

  lemma EncodedKey(pubkey: seq<byte>)
    requires |pubkey| == 32
    ensures "6Mk" <= Base58.Encode([0xed, 0x01] + pubkey)
  {
    var raw := [0xed, 0x01] + pubkey;
    LeadingDigits(pubkey);
    NoZeros(raw);
    Base58.EncodeParts(raw, 0);
    FirstChars(Base58.Encode(raw), Digits(Value(Nats(raw), 256), 58));
  }

  lemma NoZeros(raw: seq<byte>)
    requires raw != [] && raw[0] != 0
    ensures Base58.LeadingZeros(Nats(raw)) == 0
  {
    assert Nats(raw)[0] != 0;
  }

  lemma FirstChars(s: string, ds: seq<nat>)
    requires AreDigits(ds, 58) && [5, 20, 43] <= ds && s == seq(0, _ => '1') + Base58.ToChars(ds)
    ensures "6Mk" <= s
  {
    assert s == Base58.ToChars(ds);
    assert ds[0] == 5 && ds[1] == 20 && ds[2] == 43;
  }

  lemma Spelled(pubkey: seq<byte>, did: string)
    requires PubkeyToDidKey(pubkey) == Ok(did) && "6Mk" <= Base58.Encode([0xed, 0x01] + pubkey)
    ensures "did:key:z6Mk" <= did
  {
    Behind("did:key:z", Base58.Encode([0xed, 0x01] + pubkey), "6Mk");
    assert "did:key:z" + "6Mk" == "did:key:z6Mk";
  }

  /** Every did:key of an Ed25519 key begins with did:key:z6Mk. */
  lemma DidKeyPrefix(pubkey: seq<byte>, did: string)
    requires DidKeyToPubkey(did) == Ok(pubkey)
    ensures "did:key:z6Mk" <= did
  {
    DidKeyBijection(pubkey, did);
    assert |pubkey| == 32;
    EncodedKey(pubkey);
    Spelled(pubkey, did);
  }

  lemma Behind(p: string, s: string, t: string)
    requires t <= s
    ensures p + t <= p + s
  {
  }
}
