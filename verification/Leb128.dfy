/** Unsigned LEB128 integers: the readers of both WASM walkers. */
module Leb128 {
  import opened Hex
  import opened Radix

  datatype Read = Got(value: nat, next: nat) | OutOfBytes | TooLong

  /** Reading at `pos`, giving up after `limit` bytes that all ask for more. */
  function Leb(buf: seq<byte>, pos: nat, limit: nat): (r: Read)
    ensures r.Got? ==> pos < r.next <= |buf|
    decreases limit, buf, pos
  {
    if limit == 0 then TooLong
    else if pos >= |buf| then OutOfBytes
    else if buf[pos] < 128 then Got(buf[pos], pos + 1)
    else match Leb(buf, pos + 1, limit - 1)
      case Got(v, next) => Got(buf[pos] - 128 + 128 * v, next)
      case other => other
  }

  /** Bytes a reader looks at, including those before a failure. */
  function Cost(buf: seq<byte>, pos: nat, limit: nat): (c: nat)
    ensures pos <= |buf| ==> pos + c <= |buf|
    ensures pos > |buf| ==> c == 0
    ensures Leb(buf, pos, limit).Got? ==> c == Leb(buf, pos, limit).next - pos
    decreases limit, buf, pos
  {
    if limit == 0 || pos >= |buf| then 0
    else if buf[pos] < 128 then 1
    else 1 + Cost(buf, pos + 1, limit - 1)
  }

  lemma Pow2Plus7(k: nat)
    ensures Pow2(k + 7) == 128 * Pow2(k)
  {
    assert Pow2(k + 7) == 2 * Pow2(k + 6) == 4 * Pow2(k + 5) == 8 * Pow2(k + 4);
    assert Pow2(k + 4) == 2 * Pow2(k + 3) == 4 * Pow2(k + 2) == 8 * Pow2(k + 1);
  }

  /** A reading that continues one whose first bytes gave `result`. */
  function Resume(result: nat, shift: nat, rest: Read): Read {
    match rest
    case Got(v, next) => Got(result + Pow2(shift) * v, next)
    case other => other
  }

  lemma ResumeStep(result: nat, shift: nat, low: nat, v: nat)
    ensures result + Pow2(shift) * (low + 128 * v) == (result + Pow2(shift) * low) + Pow2(shift + 7) * v
  {
    Pow2Plus7(shift);
    var p := Pow2(shift);
    assert p * (low + 128 * v) == p * low + p * (128 * v);
    assert p * (128 * v) == (128 * p) * v;
  }

  lemma GroupBound(result: nat, shift: nat, low: nat)
    requires result < Pow2(shift) && low < 128
    ensures result + Pow2(shift) * low < Pow2(shift + 7)
  {
    Pow2Plus7(shift);
    var p := Pow2(shift);
    assert p * low <= p * 127;
  }

  /** The loop's accumulator after one more byte. The bits OR-ed in lie above those
      already there (GroupBound), so OR is addition. */
  function Push(result: nat, shift: nat, b: byte): (r: nat) {
    result + Pow2(shift) * (b % 128)
  }

  lemma ResumePush(result: nat, shift: nat, b: byte, rest: Read)
    requires b >= 128 && rest.Got?
    ensures Resume(result, shift, Got(b - 128 + 128 * rest.value, rest.next))
          == Resume(Push(result, shift, b), shift + 7, rest)
  {
    ResumeStep(result, shift, b - 128, rest.value);
  }

  /** One turn of a reading loop. */
  lemma ResumeTurn(buf: seq<byte>, pos: nat, limit: nat, result: nat, shift: nat)
    requires limit > 0 && pos < |buf| && result < Pow2(shift)
    ensures Push(result, shift, buf[pos]) < Pow2(shift + 7)
    ensures Resume(result, shift, Leb(buf, pos, limit))
            == if buf[pos] < 128 then Got(Push(result, shift, buf[pos]), pos + 1)
               else Resume(Push(result, shift, buf[pos]), shift + 7, Leb(buf, pos + 1, limit - 1))
  {
    GroupBound(result, shift, buf[pos] % 128);
    if buf[pos] >= 128 && Leb(buf, pos + 1, limit - 1).Got? {
      ResumePush(result, shift, buf[pos], Leb(buf, pos + 1, limit - 1));
    }
  }

  /** Shifts 0, 7, ..., 35: the pre-deploy walker's reader takes up to six bytes. */
  const LIMIT: nat := 6

  /** The pre-deploy walker's reader. */
  method ReadLebU32(buf: seq<byte>, offset: nat) returns (r: Read)
    ensures r == Leb(buf, offset, LIMIT)
  {
    r := ReadUpToShift(buf, offset, 35, LIMIT);
  }

  method ReadUpToShift(buf: seq<byte>, offset: nat, lastShift: nat, ghost limit: nat) returns (r: Read)
    requires lastShift + 7 == 7 * limit
    ensures r == Leb(buf, offset, limit)
  {
    var result: nat, shift: nat, consumed: nat := 0, 0, 0;
    while true
      invariant consumed < limit && shift == 7 * consumed && result < Pow2(shift)
      invariant Leb(buf, offset, limit) == Resume(result, shift, Leb(buf, offset + consumed, limit - consumed))
      decreases limit - consumed
    {
      if offset + consumed >= |buf| {
        return OutOfBytes;
      }
      var b := buf[offset + consumed];
      ResumeTurn(buf, offset + consumed, limit - consumed, result, shift);
      result := Push(result, shift, b);
      consumed := consumed + 1;
      if b < 128 {
        return Got(result, offset + consumed);
      }
      shift := shift + 7;
      if shift > lastShift {
        return TooLong;
      }
    }
  }

  /** The audit script's reader: no limit but the end of the buffer. */
  method ReadLeb(buf: seq<byte>, start: nat) returns (r: Read)
    ensures r == Leb(buf, start, |buf| + 1)
  {
    var result: nat, shift: nat, pos: nat := 0, 0, start;
    ghost var left: nat := |buf| + 1;
    while true
      invariant left > 0 && (pos <= |buf| ==> |buf| - pos < left) && result < Pow2(shift)
      invariant Leb(buf, start, |buf| + 1) == Resume(result, shift, Leb(buf, pos, left))
      decreases left
    {
      if pos >= |buf| {
        return OutOfBytes;
      }
      var b := buf[pos];
      ResumeTurn(buf, pos, left, result, shift);
      pos, left := pos + 1, left - 1;
      result := Push(result, shift, b);
      if b < 128 {
        return Got(result, pos);
      }
      shift := shift + 7;
    }
  }

  lemma {:induction false} HigherLimit(buf: seq<byte>, pos: nat, low: nat, high: nat)
    requires low <= high && Leb(buf, pos, low).Got?
    ensures Leb(buf, pos, high) == Leb(buf, pos, low)
    decreases low
  {
    if pos < |buf| && buf[pos] >= 128 {
      HigherLimit(buf, pos + 1, low - 1, high - 1);
    }
  }

  // ----- the encodings the format allows ------------------------------------------------

  function LebValue(enc: seq<byte>): nat {
    if enc == [] then 0 else enc[0] % 128 + 128 * LebValue(enc[1..])
  }

  /** An encoding of v in one to `limit` bytes: every byte but the last asks for more. The
      format itself allows five. */
  predicate Encodes(enc: seq<byte>, v: nat, limit: nat) {
    Terminated(enc) && |enc| <= limit && LebValue(enc) == v
  }

  predicate Terminated(enc: seq<byte>) {
    enc != [] && enc[|enc| - 1] < 128 && forall i | 0 <= i < |enc| - 1 :: enc[i] >= 128
  }

  /** `part` sits in the buffer at `pos`. */
  predicate At(buf: seq<byte>, pos: nat, part: seq<byte>) {
    pos + |part| <= |buf| && forall i | 0 <= i < |part| :: buf[pos + i] == part[i]
  }

  lemma AtSplit(buf: seq<byte>, pos: nat, x: seq<byte>, y: seq<byte>)
    requires At(buf, pos, x + y)
    ensures At(buf, pos, x) && At(buf, pos + |x|, y)
  {
    assert forall i | 0 <= i < |x| :: (x + y)[i] == x[i];
    assert forall i | 0 <= i < |y| :: (x + y)[|x| + i] == y[i];
    assert forall i | 0 <= i < |y| :: buf[pos + (|x| + i)] == y[i];
  }

  lemma AtHead(buf: seq<byte>, pos: nat, part: seq<byte>)
    requires At(buf, pos, part) && part != []
    ensures buf[pos] == part[0]
  {
    assert buf[pos + 0] == part[0];
  }

  lemma {:induction false} ReadsEncoding(buf: seq<byte>, pos: nat, enc: seq<byte>, limit: nat)
    requires At(buf, pos, enc) && Terminated(enc) && |enc| <= limit
    ensures Leb(buf, pos, limit) == Got(LebValue(enc), pos + |enc|)
    decreases |enc|
  {
    AtHead(buf, pos, enc);
    if |enc| > 1 {
      assert enc == [enc[0]] + enc[1..];
      AtSplit(buf, pos, [enc[0]], enc[1..]);
      ReadsEncoding(buf, pos + 1, enc[1..], limit - 1);
    } else {
      assert LebValue(enc[1..]) == 0;
    }
  }

  lemma AtJoin(buf: seq<byte>, pos: nat, x: seq<byte>, y: seq<byte>)
    requires At(buf, pos, x) && At(buf, pos + |x|, y)
    ensures At(buf, pos, x + y)
  {
    forall i | 0 <= i < |x + y|
      ensures pos + i < |buf| && buf[pos + i] == (x + y)[i]
    {
      if i >= |x| {
        assert buf[pos + |x| + (i - |x|)] == y[i - |x|];
      }
    }
  }

  /** Whatever is read stands there in the encoding that was read. */
  lemma {:induction false} ReadIsEncoded(buf: seq<byte>, pos: nat, limit: nat) returns (enc: seq<byte>)
    requires Leb(buf, pos, limit).Got?
    ensures At(buf, pos, enc) && Encodes(enc, Leb(buf, pos, limit).value, limit)
    ensures Leb(buf, pos, limit).next == pos + |enc|
    decreases limit
  {
    if buf[pos] < 128 {
      enc := [buf[pos]];
      assert LebValue(enc[1..]) == 0;
    } else {
      var rest := ReadIsEncoded(buf, pos + 1, limit - 1);
      enc := [buf[pos]] + rest;
      AtJoin(buf, pos, [buf[pos]], rest);
      assert enc[1..] == rest && enc[|enc| - 1] == rest[|rest| - 1];
      assert forall i | 1 <= i < |enc| :: enc[i] == rest[i - 1];
    }
  }

  /** The two failures: too long if as many bytes as are allowed all ask for more, out of bytes
      if the buffer ends before that, with every byte up to its end asking for more. */
  lemma {:induction false} FailuresExactly(buf: seq<byte>, pos: nat, limit: nat)
    ensures Leb(buf, pos, limit) == TooLong
            <==> limit == 0 || (pos + limit <= |buf| && forall i | pos <= i < pos + limit :: buf[i] >= 128)
    ensures Leb(buf, pos, limit) == OutOfBytes
            <==> pos + limit > |buf| && limit > 0 && forall i | pos <= i < |buf| :: buf[i] >= 128
    decreases limit
  {
    if limit > 0 && pos < |buf| {
      FailuresExactly(buf, pos + 1, limit - 1);
    }
  }

  /** The pre-deploy reader reads exactly the encodings of at most six bytes. */
  lemma SixBytes(buf: seq<byte>, pos: nat, v: nat, next: nat)
    ensures Leb(buf, pos, LIMIT) == Got(v, next)
            <==> pos < next <= |buf| && next <= pos + 6
                 && buf[next - 1] < 128 && (forall i | pos <= i < next - 1 :: buf[i] >= 128)
                 && v == LebValue(buf[pos..next])
  {
    if Leb(buf, pos, LIMIT).Got? {
      var enc := ReadIsEncoded(buf, pos, LIMIT);
      StandsThere(buf, pos, enc);
    }
    if && pos < next <= |buf| && next <= pos + 6 && buf[next - 1] < 128
       && (forall i | pos <= i < next - 1 :: buf[i] >= 128) {
      var enc := buf[pos..next];
      assert Terminated(enc) && At(buf, pos, enc);
      ReadsEncoding(buf, pos, enc, LIMIT);
    }
  }

  lemma StandsThere(buf: seq<byte>, pos: nat, enc: seq<byte>)
    requires At(buf, pos, enc)
    ensures enc == buf[pos..pos + |enc|]
    ensures Terminated(enc) ==>
              buf[pos + |enc| - 1] < 128 && forall i | pos <= i < pos + |enc| - 1 :: buf[i] >= 128
  {
    assert forall i | 0 <= i < |enc| :: buf[pos + i] == enc[i];
    if Terminated(enc) {
      forall i | pos <= i < pos + |enc| - 1
        ensures buf[i] >= 128
      {
        assert buf[pos + (i - pos)] == enc[i - pos];
      }
    }
  }
}
