/** Byte strings as base-256 digits: int.from_bytes and minimal-width int.to_bytes. */
module IntBytes {
  import opened Hex
  import opened Radix

  function Nats(bs: seq<byte>): (ds: seq<nat>)
    ensures AreDigits(ds, 256) && |ds| == |bs| && forall i | 0 <= i < |bs| :: ds[i] == bs[i]
  {
    seq(|bs|, i requires 0 <= i < |bs| => bs[i])
  }

  function Bytes(ds: seq<nat>): (bs: seq<byte>)
    requires AreDigits(ds, 256)
    ensures |bs| == |ds| && forall i | 0 <= i < |ds| :: bs[i] == ds[i]
  {
    seq(|ds|, i requires 0 <= i < |ds| => ds[i])
  }

  /** int.from_bytes(bs, "big") */
  function FromBytes(bs: seq<byte>): nat {
    Value(Nats(bs), 256)
  }

  /** n.to_bytes((n.bit_length() + 7) // 8 or 1, "big") */
  function MinimalIntBytes(n: nat): seq<byte> {
    var width := MinimalWidth(n);
    MinimalFits(n);
    Bytes(ToBytes(n, if width == 0 then 1 else width))
  }

  lemma MinimalFits(n: nat)
    ensures var width := MinimalWidth(n); AreDigits(ToBytes(n, if width == 0 then 1 else width), 256)
    ensures MinimalWidth(n) == 0 <==> n == 0
  {
    MinimalBytes(n);
    ValueOfDigits(n, 256);
  }

  /** The bytes written are those read back, and shorter ones would not do: only zero
      starts with a zero byte. */
  lemma MinimalIntBytesExact(n: nat)
    ensures FromBytes(MinimalIntBytes(n)) == n
    ensures MinimalIntBytes(n) != [] && (MinimalIntBytes(n)[0] == 0 ==> n == 0 && |MinimalIntBytes(n)| == 1)
  {
    MinimalFits(n);
    MinimalBytes(n);
    ValueOfDigits(n, 256);
    var bs := MinimalIntBytes(n);
    if n == 0 {
      assert ToBytes(0, 1) == [0];
      assert bs == [0];
      assert Nats(bs) == [0];
    } else {
      assert Nats(bs) == Digits(n, 256);
    }
  }
}
