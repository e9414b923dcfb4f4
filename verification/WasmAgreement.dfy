/** Exactly when the two export walkers return the same names. */
module WasmAgreement {
  import opened Wrappers
  import opened Hex
  import opened Leb128
  import opened Sorting
  import opened WasmExports

  // ----- what the longer buffer gives away about the shorter --------------------------------------

  lemma {:induction false} LebReflects(body: seq<byte>, w: seq<byte>, off: nat, pos: nat, low: nat, high: nat)
    requires At(w, off, body) && low <= high && Leb(body, pos, high).Got? && Leb(w, off + pos, low).Got?
    ensures Leb(body, pos, low).Got?
    decreases low
  {
    assert w[off + pos] == body[pos];
    if body[pos] >= 128 {
      LebReflects(body, w, off, pos + 1, low - 1, high - 1);
    }
  }

  /** The value found in the longer buffer is the one of the body. */
  lemma LebReflected(body: seq<byte>, w: seq<byte>, off: nat, pos: nat, low: nat, high: nat)
    requires At(w, off, body) && low <= high && Leb(body, pos, high).Got? && Leb(w, off + pos, low).Got?
    ensures Leb(body, pos, low) == Leb(body, pos, high)
    ensures Leb(w, off + pos, low) == Got(Leb(body, pos, high).value, off + Leb(body, pos, high).next)
  {
    LebReflects(body, w, off, pos, low, high);
    HigherLimit(body, pos, low, high);
    LebWithin(body, w, off, pos, low);
  }

  lemma EntryReflects(dec: Decoder, body: seq<byte>, w: seq<byte>, off: nat, q: nat, low: nat, high: nat)
    requires At(w, off, body) && low <= high
    requires EntryAt(dec, body, q, high).Entry? && EntryAt(dec, w, off + q, low).Entry?
    ensures EntryAt(dec, body, q, low) == EntryAt(dec, body, q, high)
    ensures EntryAt(dec, w, off + q, low).next == off + EntryAt(dec, body, q, high).next
  {
    LebReflected(body, w, off, q, low, high);
    var len := Leb(body, q, high);
    assert off + (len.next + len.value + 1) == (off + len.next) + len.value + 1;
    LebReflected(body, w, off, len.next + len.value + 1, low, high);
  }

  // ----- entries ----------------------------------------------------------------------------------

  /** A reader that keeps what it read before an anomaly has all names only if there was none. */
  lemma {:induction false} AllOrShort(at: EntryReader, q: nat, n: nat)
    ensures |Entries(at, q, n)| <= n
    ensures |Entries(at, q, n)| == n <==> StrictEntries(at, q, n).Ok?
    ensures StrictEntries(at, q, n).Ok? ==> |StrictEntries(at, q, n).value| == n
    decreases n
  {
    if n > 0 && at(q).Entry? {
      AllOrShort(at, at(q).next, n - 1);
    }
  }

  /** Where the generous reader of the body and the limited one of the whole buffer both find
      an entry, so does the limited one of the body. */
  ghost predicate Reflects(generous: EntryReader, whole: EntryReader, limited: EntryReader, off: nat) {
    forall q :: generous(q).Entry? && whole(off + q).Entry?
                ==> limited(q) == generous(q) && whole(off + q).next == off + generous(q).next
  }

  lemma {:induction false} EntriesReflect(generous: EntryReader, whole: EntryReader, limited: EntryReader,
                                          off: nat, q: nat, n: nat)
    requires Reflects(generous, whole, limited, off)
    requires StrictEntries(generous, q, n).Ok? && StrictEntries(whole, off + q, n).Ok?
    ensures StrictEntries(limited, q, n).Ok?
    decreases n
  {
    if n > 0 {
      EntriesReflect(generous, whole, limited, off, generous(q).next, n - 1);
    }
  }

  lemma ReadersReflect(dec: Decoder, body: seq<byte>, w: seq<byte>, off: nat, low: nat, high: nat)
    requires At(w, off, body) && low <= high
    ensures Reflects(EntriesOf(dec, body, high), EntriesOf(dec, w, low), EntriesOf(dec, body, low), off)
  {
    forall q: nat | EntryAt(dec, body, q, high).Entry? && EntryAt(dec, w, off + q, low).Entry?
      ensures EntryAt(dec, body, q, low) == EntryAt(dec, body, q, high)
      ensures EntryAt(dec, w, off + q, low).next == off + EntryAt(dec, body, q, high).next
    {
      EntryReflects(dec, body, w, off, q, low, high);
    }
  }

  // ----- bodies and sections ----------------------------------------------------------------------

  /** Lenient names against strict ones: never more, and as many exactly if there are none
      or the limit did no harm. */
  predicate AsManyExactly(lenient: seq<string>, strict: seq<string>, harmless: bool) {
    |lenient| <= |strict| && (|lenient| == |strict| <==> strict == [] || harmless)
  }

  lemma EntriesCompared(dec: Decoder, body: seq<byte>, w: seq<byte>, off: nat, q: nat, n: nat, low: nat, high: nat)
    requires At(w, off, body) && low <= high && StrictEntries(EntriesOf(dec, body, high), q, n).Ok?
    ensures AsManyExactly(Entries(EntriesOf(dec, w, low), off + q, n),
                          StrictEntries(EntriesOf(dec, body, high), q, n).value,
                          StrictEntries(EntriesOf(dec, body, low), q, n).Ok?)
  {
    var generous, whole, limited := EntriesOf(dec, body, high), EntriesOf(dec, w, low), EntriesOf(dec, body, low);
    AllOrShort(generous, q, n);
    AllOrShort(whole, off + q, n);
    ReadersReflect(dec, body, w, off, low, high);
    if StrictEntries(whole, off + q, n).Ok? {
      EntriesReflect(generous, whole, limited, off, q, n);
    }
    if StrictEntries(limited, q, n).Ok? {
      EntriesWithin(dec, body, w, off, q, n, low);
      AllOrShort(limited, q, n);
    }
  }

  lemma BodiesCompared(dec: Decoder, body: seq<byte>, w: seq<byte>, off: nat, low: nat, high: nat)
    requires At(w, off, body) && low <= high && StrictBody(dec, body, high).Ok?
    ensures AsManyExactly(Body(dec, w, off, low), StrictBody(dec, body, high).value, StrictBody(dec, body, low).Ok?)
  {
    var n, q := CountedStrictly(dec, body, high);
    if Leb(w, off, low).Got? {
      LebReflected(body, w, off, 0, low, high);
      EntriesCompared(dec, body, w, off, q, n, low, high);
    } else if Leb(body, 0, low).Got? {
      LebWithin(body, w, off, 0, low);
    }
  }

  /** The same from any section on. */
  lemma {:induction false} WalksCompared(dec: Decoder, w: seq<byte>, p: nat, low: nat, high: nat)
    requires low <= high && StrictFrom(dec, w, p, high).Ok?
    ensures AsManyExactly(WalkFrom(dec, w, p, low), StrictFrom(dec, w, p, high).value, StrictFrom(dec, w, p, low).Ok?)
    decreases |w| - p
  {
    if p < |w| && SectionAt(w, p, low).Header? {
      SectionHigher(w, p, low, high);
      var s := SectionAt(w, p, low);
      if s.id == 7 {
        SliceAt(w, s.from, s.size);
        BodiesCompared(dec, Slice(w, s.from, s.size), w, s.from, low, high);
      } else {
        WalksCompared(dec, w, s.from + s.size, low, high);
      }
    }
  }

  // ----- the two walkers --------------------------------------------------------------------------

  lemma SameLength(ss: seq<string>)
    ensures |SortStrings(ss)| == |ss|
  {
    assert |multiset(SortStrings(ss))| == |multiset(ss)|;
  }

  /** The two results name the same exports, the order aside. */
  predicate SameNames(lenient: seq<string>, strict: Result<seq<string>, WalkError>) {
    strict == Ok(SortStrings(lenient))
  }

  /** For every byte string: both walkers return the same names if and only if the strict one
      succeeds and finds none, or has the full magic and integers of at most six bytes in
      front of it. */
  lemma WalkersAgreeExactly(dec: Decoder, w: seq<byte>)
    ensures
      var strict := Strict(dec, w, |w| + 1);
      SameNames(Walk(dec, w), SortResult(strict))
      <==> strict.Ok? && (strict.value == [] || (MAGIC <= w && Strict(dec, w, LIMIT).Ok?))
  {
    var strict := Strict(dec, w, |w| + 1);
    if strict.Ok? {
      SameLength(strict.value);
      SameLength(Walk(dec, w));
      if MAGIC <= w {
        assert MAGIC[..4] <= w && |MAGIC| == 8 <= |w|;
        WalksCompared(dec, w, 8, LIMIT, |w| + 1);
      }
      if MAGIC <= w && Strict(dec, w, LIMIT).Ok? {
        WalkersAgree(dec, w);
      }
    }
  }
}
