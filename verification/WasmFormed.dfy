/** Which byte strings the strict walker reads, as sections and entries laid out in the
    buffer, and when the two walkers agree, on the bytes alone. */
module WasmFormed {
  import opened Wrappers
  import opened Hex
  import opened Leb128
  import opened Sorting
  import opened WasmExports
  import opened WasmAgreement

  predicate PlainSections(ss: seq<Section>, limit: nat) {
    forall i | 0 <= i < |ss| :: ss[i].Plain? && SectionFormed(ss[i], limit)
  }

  /** At q a section other than exports announces all that is left of the buffer, or more. */
  predicate OverlongAt(w: seq<byte>, q: nat, id: byte, sizeEnc: seq<byte>, limit: nat) {
    && id != 7 && At(w, q, [id] + sizeEnc) && Encodes(sizeEnc, LebValue(sizeEnc), limit)
    && q + 1 + |sizeEnc| + LebValue(sizeEnc) >= |w|
  }

  /** At q an export section; its counted entries lie within the size it announces, and what
      follows them does not matter. */
  predicate ExportsAt(w: seq<byte>, q: nat, sizeEnc: seq<byte>, countEnc: seq<byte>, es: seq<ExportEntry>, limit: nat) {
    && At(w, q, [7] + sizeEnc) && Encodes(sizeEnc, LebValue(sizeEnc), limit)
    && At(w, q + 1 + |sizeEnc|, countEnc + EntriesBytes(es)) && |countEnc + EntriesBytes(es)| <= LebValue(sizeEnc)
    && Encodes(countEnc, |es|, limit) && EntriesFormed(es, limit)
  }

  ghost predicate EndsWith(w: seq<byte>, q: nat, es: seq<ExportEntry>, limit: nat) {
    || (es == [] && q >= |w|)
    || (es == [] && exists id: byte, sizeEnc: seq<byte> :: OverlongAt(w, q, id, sizeEnc, limit))
    || exists sizeEnc: seq<byte>, countEnc: seq<byte> :: ExportsAt(w, q, sizeEnc, countEnc, es, limit)
  }

  /** From p on: plain sections, then the end of the buffer, an overlong one, or the exports. */
  ghost predicate LaidOut(w: seq<byte>, p: nat, ss: seq<Section>, es: seq<ExportEntry>, limit: nat) {
    && PlainSections(ss, limit) && (ss != [] ==> At(w, p, SectionsBytes(ss)))
    && EndsWith(w, p + |SectionsBytes(ss)|, es, limit)
  }

  // ----- what is laid out is read ------------------------------------------------------------------

  lemma OverlongRead(dec: Decoder, w: seq<byte>, q: nat, id: byte, sizeEnc: seq<byte>, limit: nat)
    requires OverlongAt(w, q, id, sizeEnc, limit)
    ensures StrictFrom(dec, w, q, limit) == Ok([])
  {
    AtSplit(w, q, [id], sizeEnc);
    AtHead(w, q, [id]);
    HeaderRead(w, q, sizeEnc, LebValue(sizeEnc), limit);
    StrictSkips(dec, w, q, limit, id, q + 1 + |sizeEnc|, LebValue(sizeEnc));
  }

  lemma {:induction false} SliceHolds(w: seq<byte>, from: nat, n: nat, part: seq<byte>)
    requires At(w, from, part) && |part| <= n
    ensures At(Slice(w, from, n), 0, part)
    decreases |part|
  {
    if part != [] {
      AtHead(w, from, part);
      assert part == [part[0]] + part[1..];
      AtSplit(w, from, [part[0]], part[1..]);
      SliceHolds(w, from + 1, n - 1, part[1..]);
      AtJoin(Slice(w, from, n), 0, [part[0]], part[1..]);
    }
  }

  lemma ExportsRead(dec: Decoder, w: seq<byte>, q: nat, sizeEnc: seq<byte>, countEnc: seq<byte>,
                    es: seq<ExportEntry>, limit: nat)
    requires ExportsAt(w, q, sizeEnc, countEnc, es, limit)
    ensures StrictFrom(dec, w, q, limit) == Ok(Names(dec, es))
  {
    var from, size := q + 1 + |sizeEnc|, LebValue(sizeEnc);
    AtSplit(w, q, [7], sizeEnc);
    AtHead(w, q, [7]);
    HeaderRead(w, q, sizeEnc, size, limit);
    StrictStops(dec, w, q, limit, from, size);
    SliceHolds(w, from, size, countEnc + EntriesBytes(es));
    ReadsCountedEntries(dec, Slice(w, from, size), countEnc, es, limit);
  }

  lemma EndRead(dec: Decoder, w: seq<byte>, q: nat, es: seq<ExportEntry>, limit: nat)
    requires EndsWith(w, q, es, limit)
    ensures StrictFrom(dec, w, q, limit) == Ok(Names(dec, es))
  {
    if sizeEnc: seq<byte>, countEnc: seq<byte> :| ExportsAt(w, q, sizeEnc, countEnc, es, limit) {
      ExportsRead(dec, w, q, sizeEnc, countEnc, es, limit);
    } else if q < |w| {
      var id: byte, sizeEnc: seq<byte> :| OverlongAt(w, q, id, sizeEnc, limit);
      OverlongRead(dec, w, q, id, sizeEnc, limit);
    }
  }

  lemma {:induction false} LaidOutRead(dec: Decoder, w: seq<byte>, p: nat, ss: seq<Section>, es: seq<ExportEntry>,
                                       limit: nat)
    requires LaidOut(w, p, ss, es, limit)
    ensures StrictFrom(dec, w, p, limit) == Ok(Names(dec, es))
    decreases |ss|
  {
    if ss == [] {
      EndRead(dec, w, p, es, limit);
    } else {
      LaidOutStep(dec, w, p, ss, es, limit);
      LaidOutRead(dec, w, BodyEnd(p, ss[0]), ss[1..], es, limit);
    }
  }

  lemma LaidOutStep(dec: Decoder, w: seq<byte>, p: nat, ss: seq<Section>, es: seq<ExportEntry>, limit: nat)
    requires LaidOut(w, p, ss, es, limit) && ss != []
    ensures LaidOut(w, BodyEnd(p, ss[0]), ss[1..], es, limit)
    ensures StrictFrom(dec, w, p, limit) == StrictFrom(dec, w, BodyEnd(p, ss[0]), limit)
  {
    AtSplit(w, p, SectionBytes(ss[0]), SectionsBytes(ss[1..]));
    SectionEnds(p, ss[0]);
    LaidOutRest(w, p, ss, es, limit);
    SkipsPlainSection(dec, w, p, ss[0], limit);
  }

  lemma SectionEnds(p: nat, s: Section)
    ensures BodyEnd(p, s) == p + |SectionBytes(s)|
  {
  }

  lemma LaidOutRest(w: seq<byte>, p: nat, ss: seq<Section>, es: seq<ExportEntry>, limit: nat)
    requires LaidOut(w, p, ss, es, limit) && ss != []
    requires At(w, p + |SectionBytes(ss[0])|, SectionsBytes(ss[1..]))
    ensures LaidOut(w, p + |SectionBytes(ss[0])|, ss[1..], es, limit)
  {
  }

  // ----- what is read is laid out ------------------------------------------------------------------

  lemma HeaderFound(w: seq<byte>, q: nat, limit: nat) returns (sizeEnc: seq<byte>)
    requires q < |w| && SectionAt(w, q, limit).Header?
    ensures At(w, q, [w[q]] + sizeEnc) && Encodes(sizeEnc, LebValue(sizeEnc), limit)
    ensures SectionAt(w, q, limit) == Header(w[q], q + 1 + |sizeEnc|, LebValue(sizeEnc))
  {
    sizeEnc := ReadIsEncoded(w, q + 1, limit);
    AtJoin(w, q, [w[q]], sizeEnc);
  }

  lemma EntryFound(dec: Decoder, body: seq<byte>, q: nat, limit: nat) returns (e: ExportEntry)
    requires EntryAt(dec, body, q, limit).Entry?
    ensures EntryFormed(e, limit) && At(body, q, EntryBytes(e))
    ensures EntryAt(dec, body, q, limit) == Entry(dec(e.name), q + |EntryBytes(e)|)
  {
    var len := Leb(body, q, limit);
    var at := len.next + len.value;
    var lengthEnc := ReadIsEncoded(body, q, limit);
    var indexEnc := ReadIsEncoded(body, at + 1, limit);
    var name := Slice(body, len.next, len.value);
    SliceAt(body, len.next, len.value);
    e := ExportEntry(lengthEnc, name, body[at], indexEnc);
    AtJoin(body, at, [e.kind], indexEnc);
    AtJoin(body, len.next, name, [e.kind] + indexEnc);
    AtJoin(body, q, lengthEnc, name + ([e.kind] + indexEnc));
  }

  lemma {:induction false} EntriesFound(dec: Decoder, body: seq<byte>, q: nat, n: nat, limit: nat)
    returns (es: seq<ExportEntry>)
    requires StrictEntries(EntriesOf(dec, body, limit), q, n).Ok? && q <= |body|
    ensures |es| == n && EntriesFormed(es, limit) && At(body, q, EntriesBytes(es))
    decreases n
  {
    es := [];
    if n > 0 {
      var e := EntryFound(dec, body, q, limit);
      var rest := EntriesFound(dec, body, q + |EntryBytes(e)|, n - 1, limit);
      es := [e] + rest;
      assert es[1..] == rest;
      AtJoin(body, q, EntryBytes(e), EntriesBytes(rest));
    }
  }

  lemma BodyFound(dec: Decoder, body: seq<byte>, limit: nat) returns (countEnc: seq<byte>, es: seq<ExportEntry>)
    requires StrictBody(dec, body, limit).Ok?
    ensures Encodes(countEnc, |es|, limit) && EntriesFormed(es, limit)
    ensures At(body, 0, countEnc + EntriesBytes(es))
  {
    var n, q := CountedStrictly(dec, body, limit);
    countEnc := ReadIsEncoded(body, 0, limit);
    es := EntriesFound(dec, body, q, n, limit);
    AtJoin(body, 0, countEnc, EntriesBytes(es));
  }

  /** What stands in a part of the buffer stands in the buffer. */
  lemma AtWithin(w: seq<byte>, from: nat, body: seq<byte>, part: seq<byte>)
    requires At(w, from, body) && At(body, 0, part)
    ensures At(w, from, part)
  {
    forall i | 0 <= i < |part|
      ensures w[from + i] == part[i]
    {
      assert body[0 + i] == part[i];
    }
  }

  lemma ExportsFound(dec: Decoder, w: seq<byte>, q: nat, limit: nat)
    returns (sizeEnc: seq<byte>, countEnc: seq<byte>, es: seq<ExportEntry>)
    requires q < |w| && w[q] == 7 && StrictFrom(dec, w, q, limit).Ok?
    ensures ExportsAt(w, q, sizeEnc, countEnc, es, limit)
  {
    sizeEnc := HeaderFound(w, q, limit);
    var from, size := q + 1 + |sizeEnc|, LebValue(sizeEnc);
    StrictStops(dec, w, q, limit, from, size);
    var body := Slice(w, from, size);
    countEnc, es := BodyFound(dec, body, limit);
    SliceAt(w, from, size);
    AtWithin(w, from, body, countEnc + EntriesBytes(es));
  }

  lemma PlainFound(w: seq<byte>, p: nat, sizeEnc: seq<byte>, limit: nat) returns (s: Section)
    requires p < |w| && w[p] != 7 && At(w, p, [w[p]] + sizeEnc) && Encodes(sizeEnc, LebValue(sizeEnc), limit)
    requires p + 1 + |sizeEnc| + LebValue(sizeEnc) <= |w|
    ensures s.Plain? && SectionFormed(s, limit) && At(w, p, SectionBytes(s))
    ensures BodyEnd(p, s) == p + |SectionBytes(s)| == p + 1 + |sizeEnc| + LebValue(sizeEnc)
  {
    var from := p + 1 + |sizeEnc|;
    s := Plain(w[p], sizeEnc, Slice(w, from, LebValue(sizeEnc)));
    SliceAt(w, from, LebValue(sizeEnc));
    AtJoin(w, p, [w[p]] + sizeEnc, s.body);
    assert [w[p]] + sizeEnc + s.body == SectionBytes(s);
  }

  lemma PrependSection(w: seq<byte>, p: nat, s: Section, ss: seq<Section>, es: seq<ExportEntry>, limit: nat)
    requires s.Plain? && SectionFormed(s, limit) && At(w, p, SectionBytes(s))
    requires LaidOut(w, p + |SectionBytes(s)|, ss, es, limit)
    ensures LaidOut(w, p, [s] + ss, es, limit)
  {
    var all := [s] + ss;
    assert all[0] == s && all[1..] == ss;
    if ss == [] {
      assert SectionBytes(s) + [] == SectionBytes(s);
    } else {
      AtJoin(w, p, SectionBytes(s), SectionsBytes(ss));
    }
  }

  lemma {:induction false} ReadLaidOut(dec: Decoder, w: seq<byte>, p: nat, limit: nat)
    returns (ss: seq<Section>, es: seq<ExportEntry>)
    requires StrictFrom(dec, w, p, limit).Ok?
    ensures LaidOut(w, p, ss, es, limit)
    decreases |w| - p
  {
    ss, es := [], [];
    if p < |w| && w[p] == 7 {
      var sizeEnc, countEnc;
      sizeEnc, countEnc, es := ExportsFound(dec, w, p, limit);
    } else if p < |w| {
      var sizeEnc := HeaderFound(w, p, limit);
      var next := p + 1 + |sizeEnc| + LebValue(sizeEnc);
      if next >= |w| {
        assert OverlongAt(w, p, w[p], sizeEnc, limit);
      } else {
        var s := PlainFound(w, p, sizeEnc, limit);
        StrictSkips(dec, w, p, limit, w[p], p + 1 + |sizeEnc|, LebValue(sizeEnc));
        ss, es := ReadLaidOut(dec, w, next, limit);
        PrependSection(w, p, s, ss, es, limit);
        ss := [s] + ss;
      }
    }
  }

  // ----- the two walkers, on the bytes ---------------------------------------------------------------

  /** The file holds these exports, its integers taking at most `limit` bytes each. */
  ghost predicate Formed(w: seq<byte>, es: seq<ExportEntry>, limit: nat) {
    MAGIC[..4] <= w && exists ss: seq<Section> :: LaidOut(w, 8, ss, es, limit)
  }

  /** The strict walker reads exactly these files. */
  lemma StrictExactly(dec: Decoder, w: seq<byte>, limit: nat)
    ensures Strict(dec, w, limit).Ok? <==> exists es: seq<ExportEntry> :: Formed(w, es, limit)
    ensures forall es: seq<ExportEntry> | Formed(w, es, limit) :: Strict(dec, w, limit) == Ok(Names(dec, es))
  {
    forall es: seq<ExportEntry> | Formed(w, es, limit)
      ensures Strict(dec, w, limit) == Ok(Names(dec, es))
    {
      var ss: seq<Section> :| LaidOut(w, 8, ss, es, limit);
      LaidOutRead(dec, w, 8, ss, es, limit);
    }
    if Strict(dec, w, limit).Ok? {
      var ss, es := ReadLaidOut(dec, w, 8, limit);
      assert Formed(w, es, limit);
    }
  }

  lemma NamesCount(dec: Decoder, es: seq<ExportEntry>)
    ensures |Names(dec, es)| == |es|
  {
  }

  /** For every byte string: both walkers return the same names if and only if the file holds
      no exports, whatever its integers take, or has the full magic and takes at most six
      bytes for each integer in front of and within its exports. */
  lemma WalkersAgreeOnBytes(dec: Decoder, w: seq<byte>)
    ensures SameNames(Walk(dec, w), SortResult(Strict(dec, w, |w| + 1)))
            <==> Formed(w, [], |w| + 1) || (MAGIC <= w && exists es: seq<ExportEntry> :: Formed(w, es, LIMIT))
  {
    WalkersAgreeExactly(dec, w);
    StrictExactly(dec, w, LIMIT);
    StrictExactly(dec, w, |w| + 1);
    if Strict(dec, w, |w| + 1) == Ok([]) {
      var es: seq<ExportEntry> :| Formed(w, es, |w| + 1);
      NamesCount(dec, es);
      assert es == [];
    }
    if MAGIC <= w && Strict(dec, w, LIMIT).Ok? {
      StrictFromHigher(dec, w, 8, LIMIT, |w| + 1);
    }
  }

  /** The magic and version that the one walker asks for, and the magic alone for the other. */
  lemma HeaderNeeded(dec: Decoder, w: seq<byte>, limit: nat)
    ensures !([0x00, 0x61, 0x73, 0x6d, 0x01, 0x00, 0x00, 0x00] <= w) ==> Walk(dec, w) == []
    ensures !([0x00, 0x61, 0x73, 0x6d] <= w) ==> Strict(dec, w, limit) == Err(BadMagic)
    ensures [0x00, 0x61, 0x73, 0x6d] <= w ==> Strict(dec, w, limit) != Err(BadMagic)
  {
    assert MAGIC[..4] == [0x00, 0x61, 0x73, 0x6d];
    if MAGIC[..4] <= w {
      NoBadMagic(dec, w, 8, limit);
    }
  }

  lemma {:induction false} EntriesNoBadMagic(at: nat -> EntryRead, q: nat, n: nat)
    ensures StrictEntries(at, q, n) != Err(BadMagic)
    decreases n
  {
    if n > 0 {
      match at(q)
      case Entry(_, next) => EntriesNoBadMagic(at, next, n - 1);
      case Broken =>
    }
  }

  lemma {:induction false} NoBadMagic(dec: Decoder, w: seq<byte>, p: nat, limit: nat)
    ensures StrictFrom(dec, w, p, limit) != Err(BadMagic)
    decreases |w| - p
  {
    if p < |w| {
      match SectionAt(w, p, limit)
      case Header(id, from, size) =>
        if id == 7 {
          StrictStops(dec, w, p, limit, from, size);
          var body := Slice(w, from, size);
          match Leb(body, 0, limit)
          case Got(n, q) => EntriesNoBadMagic(EntriesOf(dec, body, limit), q, n);
          case _ =>
        } else {
          StrictSkips(dec, w, p, limit, id, from, size);
          NoBadMagic(dec, w, from + size, limit);
        }
      case NoHeader =>
    }
  }

  /** A smallest module: one function exported under one letter. */
  lemma OneExport(dec: Decoder)
    ensures
      var w: seq<byte> := [0x00, 0x61, 0x73, 0x6d, 0x01, 0x00, 0x00, 0x00, 7, 5, 1, 1, 0x61, 0, 0];
      Walk(dec, w) == [dec([0x61])] && SortResult(Strict(dec, w, |w| + 1)) == Ok([dec([0x61])])
  {
    var s := SmallestSection();
    WellFormedModules(dec, [s]);
    OneName(dec, s);
  }

  lemma SmallestSection() returns (s: Section)
    ensures s.Exports? && |s.entries| == 1 && s.entries[0].name == [0x61] && ModuleFormed([s], 5)
    ensures ModuleBytes([s]) == [0x00, 0x61, 0x73, 0x6d, 0x01, 0x00, 0x00, 0x00, 7, 5, 1, 1, 0x61, 0, 0]
  {
    var e := ExportEntry([1], [0x61], 0, [0]);
    s := Exports([5], [1], [e]);
    OneByteEncodes(0);
    OneByteEncodes(1);
    OneByteEncodes(5);
    assert EntryBytes(e) == [1, 0x61, 0, 0];
    assert EntriesBytes([e]) == EntryBytes(e) + EntriesBytes([]);
    assert SectionBody(s) == [1, 1, 0x61, 0, 0];
    assert SectionsBytes([s]) == SectionBytes(s) + SectionsBytes([]);
  }

  lemma OneName(dec: Decoder, s: Section)
    requires s.Exports? && |s.entries| == 1
    ensures ExportNames(dec, [s]) == [dec(s.entries[0].name)]
    ensures SortStrings(ExportNames(dec, [s])) == [dec(s.entries[0].name)]
  {
    assert Names(dec, s.entries) == [dec(s.entries[0].name)] + Names(dec, s.entries[1..]);
  }

  lemma OneByteEncodes(b: byte)
    requires b < 128
    ensures Encodes([b], b, 5)
  {
    assert LebValue([b][1..]) == 0;
  }
}
