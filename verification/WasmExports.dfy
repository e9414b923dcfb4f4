/** The two WASM export walkers: one lenient, one strict, agreeing with the binary format
    and with each other. */
module WasmExports {
  import opened Wrappers
  import opened Hex
  import opened Leb128
  import opened Sorting

  /** bytes.decode("utf-8", errors="replace"): some total function. */
  type Decoder = seq<byte> -> string

  const MAGIC: seq<byte> := [0x00, 0x61, 0x73, 0x6d, 0x01, 0x00, 0x00, 0x00]

  /** Python's buf[from : from + n]: it stops at the end of the buffer. */
  function Slice(buf: seq<byte>, from: nat, n: nat): (r: seq<byte>)
    ensures |r| <= n && (from <= |buf| ==> |r| <= |buf| - from) && (from + n <= |buf| ==> |r| == n)
    decreases n
  {
    if n == 0 || from >= |buf| then [] else [buf[from]] + Slice(buf, from + 1, n - 1)
  }

  lemma {:induction false} SliceElements(buf: seq<byte>, from: nat, n: nat, i: nat)
    requires i < |Slice(buf, from, n)|
    ensures from + i < |buf| && Slice(buf, from, n)[i] == buf[from + i]
    decreases i
  {
    if i > 0 {
      SliceElements(buf, from + 1, n - 1, i - 1);
    }
  }

  lemma SliceFills(buf: seq<byte>, from: nat, part: seq<byte>)
    requires At(buf, from, part)
    ensures Slice(buf, from, |part|) == part
  {
    forall i | 0 <= i < |part| ensures Slice(buf, from, |part|)[i] == part[i] {
      SliceElements(buf, from, |part|, i);
    }
  }

  datatype EntryRead = Entry(name: string, next: nat) | Broken

  /** One export entry at q: name length, name, kind byte, index. */
  function EntryAt(dec: Decoder, w: seq<byte>, q: nat, limit: nat): (r: EntryRead)
    ensures r.Entry? ==> q + 3 <= r.next <= |w|
  {
    match Leb(w, q, limit)
    case Got(len, q1) =>
      (match Leb(w, q1 + len + 1, limit)
       case Got(_, q3) => Entry(dec(Slice(w, q1, len)), q3)
       case _ => Broken)
    case _ => Broken
  }

  /** Reading an entry at any offset of one buffer. */
  type EntryReader = nat -> EntryRead

  function EntriesOf(dec: Decoder, w: seq<byte>, limit: nat): EntryReader {
    (q: nat) => EntryAt(dec, w, q, limit)
  }

  datatype SectionRead = Header(id: byte, from: nat, size: nat) | NoHeader

  /** The section header at p: id byte and size. */
  function SectionAt(w: seq<byte>, p: nat, limit: nat): (r: SectionRead)
    requires p < |w|
    ensures r.Header? ==> p < r.from <= |w|
  {
    match Leb(w, p + 1, limit)
    case Got(size, q) => Header(w[p], q, size)
    case _ => NoHeader
  }

  // ----- the lenient walker -----------------------------------------------------------

  /** Up to n entries from q on; what was read before an anomaly is kept. */
  function Entries(at: EntryReader, q: nat, n: nat): seq<string>
    decreases n
  {
    if n == 0 then [] else
      match at(q)
      case Entry(name, next) => [name] + Entries(at, next, n - 1)
      case Broken => []
  }

  function Body(dec: Decoder, w: seq<byte>, q: nat, limit: nat): seq<string> {
    match Leb(w, q, limit)
    case Got(n, q1) => Entries(EntriesOf(dec, w, limit), q1, n)
    case _ => []
  }

  function WalkFrom(dec: Decoder, w: seq<byte>, p: nat, limit: nat): seq<string>
    decreases |w| - p
  {
    if p >= |w| then [] else
      match SectionAt(w, p, limit)
      case Header(id, from, size) => if id == 7 then Body(dec, w, from, limit) else WalkFrom(dec, w, from + size, limit)
      case NoHeader => []
  }

  function Walk(dec: Decoder, w: seq<byte>): seq<string> {
    if MAGIC <= w then WalkFrom(dec, w, |MAGIC|, LIMIT) else []
  }

  /** The pre-deploy walker. `looked` counts every buffer byte it looks at, `turns` every
      turn of its loops: neither exceeds the length of the input. */
  method WalkExports(dec: Decoder, w: seq<byte>) returns (exports: seq<string>, ghost looked: nat, ghost turns: nat)
    ensures exports == Walk(dec, w)
    ensures looked <= |w| && turns <= |w|
  {
    exports, looked, turns := [], 0, 0;
    if !(MAGIC <= w) {
      return;
    }
    var p: nat := |MAGIC|;
    looked := |MAGIC|;
    while p < |w|
      invariant WalkFrom(dec, w, p, LIMIT) == Walk(dec, w)
      invariant looked <= p && turns <= p
      invariant looked <= |w| && turns <= |w|
      decreases |w| - p
    {
      var sectionId := w[p];
      turns := turns + 1;
      p := p + 1;
      looked := looked + 1 + Cost(w, p, LIMIT);
      var size := ReadLebU32(w, p);
      if !size.Got? {
        return;
      }
      p := size.next;
      if sectionId == 7 {
        looked := looked + Cost(w, p, LIMIT);
        var count := ReadLebU32(w, p);
        if count.Got? {
          ghost var seen, done := looked, turns;
          exports, seen, done := WalkEntries(dec, w, count.next, count.value, looked, turns);
          looked, turns := seen, done;
        }
        return;
      }
      p := p + size.value;
    }
  }

  /** The loop over the export entries. */
  method WalkEntries(dec: Decoder, w: seq<byte>, start: nat, n: nat, ghost looked0: nat, ghost turns0: nat)
    returns (exports: seq<string>, ghost looked: nat, ghost turns: nat)
    requires start <= |w| && looked0 <= start && turns0 <= start
    ensures exports == Entries(EntriesOf(dec, w, LIMIT), start, n)
    ensures looked <= |w| && turns <= |w|
  {
    exports, looked, turns := [], looked0, turns0;
    var q := start;
    var i := 0;
    ghost var at := EntriesOf(dec, w, LIMIT);
    ghost var rest := Entries(at, q, n);
    ghost var total := rest;
    while i < n
      invariant i <= n && q <= |w| && looked <= q && turns <= q
      invariant rest == Entries(at, q, n - i) && exports + rest == total
    {
      var e;
      e, looked := ReadEntry(dec, w, q, looked);
      EntriesTurn(at, q, n - i);
      if e == Broken {
        return;
      }
      turns := turns + 1;
      q := e.next;
      rest := rest[1..];
      exports := exports + [e.name];
      i := i + 1;
    }
  }

  lemma EntriesTurn(at: EntryReader, q: nat, n: nat)
    requires n > 0
    ensures Entries(at, q, n) == if at(q).Entry? then [at(q).name] + Entries(at, at(q).next, n - 1) else []
  {
  }

  /** The body of that loop. */
  method ReadEntry(dec: Decoder, w: seq<byte>, start: nat, ghost looked0: nat) returns (e: EntryRead, ghost looked: nat)
    requires looked0 <= start <= |w|
    ensures e == EntriesOf(dec, w, LIMIT)(start) && (e.Entry? ==> start < e.next <= |w|)
    ensures looked <= |w| && (e.Entry? ==> looked <= e.next)
  {
    looked := looked0 + Cost(w, start, LIMIT);
    var len := ReadLebU32(w, start);
    if !len.Got? {
      return Broken, looked;
    }
    var q := len.next;
    var slice := Slice(w, q, len.value);
    looked := looked + |slice|;
    q := q + len.value + 1;
    looked := looked + Cost(w, q, LIMIT);
    var index := ReadLebU32(w, q);
    if !index.Got? {
      return Broken, looked;
    }
    return Entry(dec(slice), index.next), looked;
  }

  // ----- the strict walker --------------------------------------------------------------

  datatype WalkError = BadMagic | OutOfRange

  function StrictEntries(at: EntryReader, q: nat, n: nat): Result<seq<string>, WalkError>
    decreases n
  {
    if n == 0 then Ok([]) else
      match at(q)
      case Entry(name, next) => Prepend([name], StrictEntries(at, next, n - 1))
      case Broken => Err(OutOfRange)
  }

  function StrictBody(dec: Decoder, body: seq<byte>, limit: nat): Result<seq<string>, WalkError> {
    match Leb(body, 0, limit)
    case Got(n, q) => StrictEntries(EntriesOf(dec, body, limit), q, n)
    case _ => Err(OutOfRange)
  }

  /** The names of the first export section in order, with readers of a given limit. */
  function StrictFrom(dec: Decoder, w: seq<byte>, p: nat, limit: nat): Result<seq<string>, WalkError>
    decreases |w| - p
  {
    if p >= |w| then Ok([]) else
      match SectionAt(w, p, limit)
      case Header(id, from, size) =>
        if id == 7 then StrictBody(dec, Slice(w, from, size), limit) else StrictFrom(dec, w, from + size, limit)
      case NoHeader => Err(OutOfRange)
  }

  lemma StrictSkips(dec: Decoder, w: seq<byte>, p: nat, limit: nat, id: byte, from: nat, size: nat)
    requires p < |w| && SectionAt(w, p, limit) == Header(id, from, size) && id != 7
    ensures StrictFrom(dec, w, p, limit) == StrictFrom(dec, w, from + size, limit)
  {
  }

  lemma StrictStops(dec: Decoder, w: seq<byte>, p: nat, limit: nat, from: nat, size: nat)
    requires p < |w| && SectionAt(w, p, limit) == Header(7, from, size)
    ensures StrictFrom(dec, w, p, limit) == StrictBody(dec, Slice(w, from, size), limit)
  {
  }

  function Strict(dec: Decoder, w: seq<byte>, limit: nat): Result<seq<string>, WalkError> {
    if !(MAGIC[..4] <= w) then Err(BadMagic) else StrictFrom(dec, w, 8, limit)
  }

  function SortResult(r: Result<seq<string>, WalkError>): Result<seq<string>, WalkError> {
    if r.Ok? then Ok(SortStrings(r.value)) else r
  }

  /** The audit script's walker; Err where it raises. */
  method WasmExportNames(dec: Decoder, w: seq<byte>) returns (r: Result<seq<string>, WalkError>)
    ensures r == SortResult(Strict(dec, w, |w| + 1))
  {
    if !(MAGIC[..4] <= w) {
      return Err(BadMagic);
    }
    var pos: nat := 8;
    ghost var names := StrictFrom(dec, w, pos, |w| + 1);
    while pos < |w|
      invariant StrictFrom(dec, w, pos, |w| + 1) == names
      decreases |w| - pos
    {
      var secId := w[pos];
      var size := ReadLeb(w, pos + 1);
      if !size.Got? {
        StrictFails(dec, w, pos, |w| + 1);
        return Err(OutOfRange);
      }
      assert SectionAt(w, pos, |w| + 1) == Header(secId, size.next, size.value);
      var body := Slice(w, size.next, size.value);
      if secId == 7 {
        StrictFinds(dec, w, pos, |w| + 1, size.next, size.value, body);
        r := BodyNames(dec, body);
        return;
      }
      StrictSkips(dec, w, pos, |w| + 1, secId, size.next, size.value);
      pos := size.next + size.value;
    }
    return Ok([]);
  }

  lemma StrictFails(dec: Decoder, w: seq<byte>, pos: nat, limit: nat)
    requires pos < |w| && !Leb(w, pos + 1, limit).Got?
    ensures StrictFrom(dec, w, pos, limit) == Err(OutOfRange)
  {
  }

  lemma StrictFinds(dec: Decoder, w: seq<byte>, pos: nat, limit: nat, from: nat, size: nat, body: seq<byte>)
    requires pos < |w| && SectionAt(w, pos, limit) == Header(7, from, size)
    requires body == Slice(w, from, size) && |body| + 1 <= limit
    ensures StrictFrom(dec, w, pos, limit) == StrictBody(dec, body, |body| + 1)
  {
    StrictStops(dec, w, pos, limit, from, size);
    StrictBodyLimit(dec, body, limit);
  }

  method BodyNames(dec: Decoder, body: seq<byte>) returns (r: Result<seq<string>, WalkError>)
    ensures r == SortResult(StrictBody(dec, body, |body| + 1))
  {
    var count := ReadLeb(body, 0);
    if !count.Got? {
      return Err(OutOfRange);
    }
    var pos: nat, names: seq<string> := count.next, [];
    ghost var at := EntriesOf(dec, body, |body| + 1);
    ghost var total := StrictEntries(at, pos, count.value);
    PrependNone(total);
    var i := 0;
    while i < count.value
      invariant i <= count.value
      invariant total == Prepend(names, StrictEntries(at, pos, count.value - i))
    {
      var e := ReadEntryStrictly(dec, body, pos);
      CarryOver(names, at, pos, count.value - i);
      if e == Broken {
        return Err(OutOfRange);
      }
      pos := e.next;
      names := names + [e.name];
      i := i + 1;
    }
    assert names + [] == names;
    return Ok(SortStrings(names));
  }

  /** The body of that loop; Broken where it raises. */
  method ReadEntryStrictly(dec: Decoder, body: seq<byte>, start: nat) returns (e: EntryRead)
    ensures e == EntriesOf(dec, body, |body| + 1)(start)
  {
    var len := ReadLeb(body, start);
    if !len.Got? {
      return Broken;
    }
    var name := dec(Slice(body, len.next, len.value));
    var index := ReadLeb(body, len.next + len.value + 1);
    if !index.Got? {
      return Broken;
    }
    return Entry(name, index.next);
  }

  function Prepend(names: seq<string>, r: Result<seq<string>, WalkError>): Result<seq<string>, WalkError> {
    if r.Ok? then Ok(names + r.value) else r
  }

  lemma PrependNone(r: Result<seq<string>, WalkError>)
    ensures Prepend([], r) == r
  {
    if r.Ok? {
      assert [] + r.value == r.value;
    }
  }

  lemma CarryOver(names: seq<string>, at: EntryReader, q: nat, n: nat)
    requires n > 0
    ensures Prepend(names, StrictEntries(at, q, n))
            == if at(q).Entry? then Prepend(names + [at(q).name], StrictEntries(at, at(q).next, n - 1))
               else Err(OutOfRange)
  {
    if at(q).Entry? {
      var r := StrictEntries(at, at(q).next, n - 1);
      if r.Ok? {
        assert names + [at(q).name] + r.value == names + ([at(q).name] + r.value);
      }
    }
  }

  // ----- limits -------------------------------------------------------------------------

  /** A limit above the buffer length is no limit. */
  lemma {:induction false} LebNoLimit(buf: seq<byte>, pos: nat, low: nat, high: nat)
    requires low <= high && (pos <= |buf| ==> |buf| - pos < low) && low > 0
    ensures Leb(buf, pos, high) == Leb(buf, pos, low)
    decreases low
  {
    if pos < |buf| && buf[pos] >= 128 {
      LebNoLimit(buf, pos + 1, low - 1, high - 1);
    }
  }

  lemma EntryNoLimit(dec: Decoder, body: seq<byte>, q: nat, high: nat)
    requires |body| + 1 <= high
    ensures EntryAt(dec, body, q, high) == EntryAt(dec, body, q, |body| + 1)
  {
    var len := Leb(body, q, high);
    LebNoLimit(body, q, |body| + 1, high);
    if len.Got? {
      LebNoLimit(body, len.next + len.value + 1, |body| + 1, high);
    }
  }

  lemma {:induction false} StrictEntriesCongruent(at1: EntryReader, at2: EntryReader, q: nat, n: nat)
    requires forall q' :: at1(q') == at2(q')
    ensures StrictEntries(at1, q, n) == StrictEntries(at2, q, n)
    decreases n
  {
    if n > 0 && at1(q).Entry? {
      StrictEntriesCongruent(at1, at2, at1(q).next, n - 1);
    }
  }

  lemma StrictBodyLimit(dec: Decoder, body: seq<byte>, high: nat)
    requires |body| + 1 <= high
    ensures StrictBody(dec, body, high) == StrictBody(dec, body, |body| + 1)
  {
    var count := Leb(body, 0, high);
    LebNoLimit(body, 0, |body| + 1, high);
    if count.Got? {
      forall q' ensures EntriesOf(dec, body, high)(q') == EntriesOf(dec, body, |body| + 1)(q') {
        EntryNoLimit(dec, body, q', high);
      }
      StrictEntriesCongruent(EntriesOf(dec, body, high), EntriesOf(dec, body, |body| + 1), count.next, count.value);
    }
  }

  /** Wherever the first reader finds an entry, the second finds it `off` further on. */
  ghost predicate Follows(at1: EntryReader, at2: EntryReader, off: nat) {
    forall q :: at1(q).Entry? ==> at2(off + q) == Entry(at1(q).name, off + at1(q).next)
  }

  lemma {:induction false} EntriesFollow(at1: EntryReader, at2: EntryReader, off: nat, q: nat, n: nat)
    requires Follows(at1, at2, off) && StrictEntries(at1, q, n).Ok?
    ensures StrictEntries(at2, off + q, n) == StrictEntries(at1, q, n)
    ensures Entries(at2, off + q, n) == StrictEntries(at1, q, n).value
    decreases n
  {
    if n > 0 {
      EntriesFollow(at1, at2, off, at1(q).next, n - 1);
    }
  }

  lemma EntryHigher(dec: Decoder, body: seq<byte>, q: nat, low: nat, high: nat)
    requires low <= high && EntryAt(dec, body, q, low).Entry?
    ensures EntryAt(dec, body, q, high) == EntryAt(dec, body, q, low)
  {
    HigherLimit(body, q, low, high);
    var len := Leb(body, q, low);
    HigherLimit(body, len.next + len.value + 1, low, high);
  }

  lemma StrictBodyHigher(dec: Decoder, body: seq<byte>, low: nat, high: nat)
    requires low <= high && StrictBody(dec, body, low).Ok?
    ensures StrictBody(dec, body, high) == StrictBody(dec, body, low)
  {
    HigherLimit(body, 0, low, high);
    var count := Leb(body, 0, low);
    var at1, at2 := EntriesOf(dec, body, low), EntriesOf(dec, body, high);
    forall q | at1(q).Entry? ensures at2(q) == at1(q) {
      EntryHigher(dec, body, q, low, high);
    }
    EntriesFollow(at1, at2, 0, count.next, count.value);
  }

  lemma SectionHigher(w: seq<byte>, p: nat, low: nat, high: nat)
    requires p < |w| && low <= high && SectionAt(w, p, low).Header?
    ensures SectionAt(w, p, high) == SectionAt(w, p, low)
  {
    HigherLimit(w, p + 1, low, high);
  }

  /** What a limited strict reading accepts, a more generous one reads alike. */
  lemma {:induction false} StrictFromHigher(dec: Decoder, w: seq<byte>, p: nat, low: nat, high: nat)
    requires low <= high && StrictFrom(dec, w, p, low).Ok?
    ensures StrictFrom(dec, w, p, high) == StrictFrom(dec, w, p, low)
    decreases |w| - p
  {
    if p < |w| {
      SectionHigher(w, p, low, high);
      var s := SectionAt(w, p, low);
      if s.id == 7 {
        StrictBodyHigher(dec, Slice(w, s.from, s.size), low, high);
      } else {
        StrictFromHigher(dec, w, s.from + s.size, low, high);
      }
    }
  }

  // ----- agreement of the two walkers -----------------------------------------------------

  lemma {:induction false} LebWithin(body: seq<byte>, w: seq<byte>, off: nat, pos: nat, limit: nat)
    requires At(w, off, body) && Leb(body, pos, limit).Got?
    ensures Leb(w, off + pos, limit) == Got(Leb(body, pos, limit).value, off + Leb(body, pos, limit).next)
    decreases limit
  {
    if body[pos] >= 128 {
      LebWithin(body, w, off, pos + 1, limit - 1);
    }
  }

  lemma {:induction false} SliceWithin(body: seq<byte>, w: seq<byte>, off: nat, from: nat, n: nat)
    requires At(w, off, body) && from + n <= |body|
    ensures Slice(w, off + from, n) == Slice(body, from, n)
    decreases n
  {
    if n > 0 {
      assert w[off + from] == body[from];
      SliceWithin(body, w, off, from + 1, n - 1);
    }
  }

  lemma SliceAt(w: seq<byte>, from: nat, n: nat)
    requires from <= |w|
    ensures At(w, from, Slice(w, from, n))
  {
    forall i | 0 <= i < |Slice(w, from, n)| ensures w[from + i] == Slice(w, from, n)[i] {
      SliceElements(w, from, n, i);
    }
  }

  lemma EntryWithin(dec: Decoder, body: seq<byte>, w: seq<byte>, off: nat, q: nat, limit: nat)
    requires At(w, off, body) && EntryAt(dec, body, q, limit).Entry?
    ensures EntryAt(dec, w, off + q, limit)
          == Entry(EntryAt(dec, body, q, limit).name, off + EntryAt(dec, body, q, limit).next)
  {
    var len := Leb(body, q, limit);
    LebWithin(body, w, off, q, limit);
    LebWithin(body, w, off, len.next + len.value + 1, limit);
    SliceWithin(body, w, off, len.next, len.value);
  }

  lemma CountedEntries(dec: Decoder, w: seq<byte>, off: nat, limit: nat, n: nat, q: nat)
    requires Leb(w, off, limit) == Got(n, q)
    ensures Body(dec, w, off, limit) == Entries(EntriesOf(dec, w, limit), q, n)
  {
  }

  lemma CountedStrictly(dec: Decoder, body: seq<byte>, limit: nat) returns (n: nat, q: nat)
    requires StrictBody(dec, body, limit).Ok?
    ensures Leb(body, 0, limit) == Got(n, q)
    ensures StrictBody(dec, body, limit) == StrictEntries(EntriesOf(dec, body, limit), q, n)
  {
    n, q := Leb(body, 0, limit).value, Leb(body, 0, limit).next;
  }

  lemma CountWithin(body: seq<byte>, w: seq<byte>, off: nat, limit: nat, n: nat, q: nat)
    requires At(w, off, body) && Leb(body, 0, limit) == Got(n, q)
    ensures Leb(w, off, limit) == Got(n, off + q)
  {
    LebWithin(body, w, off, 0, limit);
  }

  lemma BodyWithin(dec: Decoder, body: seq<byte>, w: seq<byte>, off: nat, limit: nat)
    requires At(w, off, body) && StrictBody(dec, body, limit).Ok?
    ensures Body(dec, w, off, limit) == StrictBody(dec, body, limit).value
  {
    var n, q := CountedStrictly(dec, body, limit);
    CountWithin(body, w, off, limit, n, q);
    CountedEntries(dec, w, off, limit, n, off + q);
    EntriesWithin(dec, body, w, off, q, n, limit);
  }

  lemma EntriesWithin(dec: Decoder, body: seq<byte>, w: seq<byte>, off: nat, q: nat, n: nat, limit: nat)
    requires At(w, off, body) && StrictEntries(EntriesOf(dec, body, limit), q, n).Ok?
    ensures Entries(EntriesOf(dec, w, limit), off + q, n) == StrictEntries(EntriesOf(dec, body, limit), q, n).value
  {
    EntriesOfWithin(dec, body, w, off, limit);
    EntriesFollow(EntriesOf(dec, body, limit), EntriesOf(dec, w, limit), off, q, n);
  }

  lemma EntriesOfWithin(dec: Decoder, body: seq<byte>, w: seq<byte>, off: nat, limit: nat)
    requires At(w, off, body)
    ensures Follows(EntriesOf(dec, body, limit), EntriesOf(dec, w, limit), off)
  {
    forall q: nat | EntryAt(dec, body, q, limit).Entry?
      ensures EntryAt(dec, w, off + q, limit)
              == Entry(EntryAt(dec, body, q, limit).name, off + EntryAt(dec, body, q, limit).next)
    {
      EntryWithin(dec, body, w, off, q, limit);
    }
  }

  lemma {:induction false} WalkFromAgrees(dec: Decoder, w: seq<byte>, p: nat, limit: nat)
    requires StrictFrom(dec, w, p, limit).Ok?
    ensures WalkFrom(dec, w, p, limit) == StrictFrom(dec, w, p, limit).value
    decreases |w| - p
  {
    if p < |w| {
      var s := SectionAt(w, p, limit);
      if s.id == 7 {
        SliceAt(w, s.from, s.size);
        BodyWithin(dec, Slice(w, s.from, s.size), w, s.from, limit);
      } else {
        WalkFromAgrees(dec, w, s.from + s.size, limit);
      }
    }
  }

  /** The same for the two walks with any limit on the integers' length. */
  lemma WalksAgree(dec: Decoder, w: seq<byte>, limit: nat)
    requires StrictFrom(dec, w, 8, limit).Ok? && limit <= |w| + 1
    ensures WalkFrom(dec, w, 8, limit) == StrictFrom(dec, w, 8, limit).value
    ensures StrictFrom(dec, w, 8, |w| + 1) == StrictFrom(dec, w, 8, limit)
  {
    WalkFromAgrees(dec, w, 8, limit);
    StrictFromHigher(dec, w, 8, limit, |w| + 1);
  }

  /** On every byte string with the full magic that the strict walker reads through with
      six-byte integers, the lenient walker finds the same names in order and the audit
      script returns them sorted. */
  lemma WalkersAgree(dec: Decoder, w: seq<byte>)
    requires MAGIC <= w && Strict(dec, w, LIMIT).Ok?
    ensures Walk(dec, w) == Strict(dec, w, LIMIT).value
    ensures SortResult(Strict(dec, w, |w| + 1)) == Ok(SortStrings(Walk(dec, w)))
  {
    WalksAgree(dec, w, LIMIT);
  }

  /** Off that domain they part: the lenient walker ignores where the section ends. Here an
      export section of one byte announces one entry that lies behind it. */
  lemma SectionEndIgnored(dec: Decoder)
    ensures var w: seq<byte> := MAGIC + [7, 1, 1, 0, 0, 0];
            Walk(dec, w) == [dec([])] && Strict(dec, w, |w| + 1) == Err(OutOfRange)
  {
    var w: seq<byte> := MAGIC + [7, 1, 1, 0, 0, 0];
    assert w[8] == 7 && w[9] == 1 && w[10] == 1 && w[11] == 0 && w[12] == 0 && w[13] == 0 && |w| == 14;
    var limit := |w| + 1;
    OneByte(w, 9, LIMIT);
    OneByte(w, 10, LIMIT);
    OneByte(w, 11, LIMIT);
    OneByte(w, 13, LIMIT);
    assert EntriesOf(dec, w, LIMIT)(11) == Entry(dec([]), 14);
    assert Entries(EntriesOf(dec, w, LIMIT), 11, 1) == [dec([])];
    OneByte(w, 9, limit);
    var body := Slice(w, 10, 1);
    assert body == [1];
    OneByte(body, 0, limit);
    assert EntriesOf(dec, body, limit)(1) == Broken;
  }

  lemma OneByte(buf: seq<byte>, pos: nat, limit: nat)
    requires limit > 0 && pos < |buf| && buf[pos] < 128
    ensures Leb(buf, pos, limit) == Got(buf[pos], pos + 1)
  {
  }

  // ----- well-formed modules ----------------------------------------------------------------

  datatype ExportEntry = ExportEntry(lengthEnc: seq<byte>, name: seq<byte>, kind: byte, indexEnc: seq<byte>)

  datatype Section = Plain(id: byte, sizeEnc: seq<byte>, body: seq<byte>)
                   | Exports(sizeEnc: seq<byte>, countEnc: seq<byte>, entries: seq<ExportEntry>)

  predicate EntryFormed(e: ExportEntry, limit: nat) {
    Encodes(e.lengthEnc, |e.name|, limit) && Encodes(e.indexEnc, LebValue(e.indexEnc), limit)
  }

  predicate EntriesFormed(es: seq<ExportEntry>, limit: nat) {
    forall i | 0 <= i < |es| :: EntryFormed(es[i], limit)
  }

  function EntryBytes(e: ExportEntry): seq<byte> {
    e.lengthEnc + (e.name + ([e.kind] + e.indexEnc))
  }

  function EntriesBytes(es: seq<ExportEntry>): seq<byte> {
    if es == [] then [] else EntryBytes(es[0]) + EntriesBytes(es[1..])
  }

  function SectionBody(s: Section): seq<byte> {
    match s
    case Plain(_, _, body) => body
    case Exports(_, countEnc, entries) => countEnc + EntriesBytes(entries)
  }

  predicate SectionFormed(s: Section, limit: nat) {
    && Encodes(s.sizeEnc, |SectionBody(s)|, limit)
    && match s
       case Plain(id, _, _) => id != 7
       case Exports(_, countEnc, entries) =>
         Encodes(countEnc, |entries|, limit) && EntriesFormed(entries, limit)
  }

  function SectionId(s: Section): byte {
    if s.Plain? then s.id else 7
  }

  function SectionBytes(s: Section): seq<byte> {
    [SectionId(s)] + (s.sizeEnc + SectionBody(s))
  }

  function SectionsBytes(ss: seq<Section>): seq<byte> {
    if ss == [] then [] else SectionBytes(ss[0]) + SectionsBytes(ss[1..])
  }

  predicate ModuleFormed(ss: seq<Section>, limit: nat) {
    forall i | 0 <= i < |ss| :: SectionFormed(ss[i], limit)
  }

  function ModuleBytes(ss: seq<Section>): seq<byte> {
    MAGIC + SectionsBytes(ss)
  }

  function Names(dec: Decoder, es: seq<ExportEntry>): seq<string> {
    if es == [] then [] else [dec(es[0].name)] + Names(dec, es[1..])
  }

  /** The names of the export section, of the first one should there be several. */
  function ExportNames(dec: Decoder, ss: seq<Section>): seq<string> {
    if ss == [] then []
    else if ss[0].Exports? then Names(dec, ss[0].entries)
    else ExportNames(dec, ss[1..])
  }

  lemma ReadsName(buf: seq<byte>, pos: nat, e: ExportEntry, limit: nat)
    requires At(buf, pos, EntryBytes(e)) && EntryFormed(e, limit)
    ensures Leb(buf, pos, limit) == Got(|e.name|, pos + |e.lengthEnc|)
    ensures At(buf, pos + |e.lengthEnc|, e.name)
    ensures At(buf, pos + |e.lengthEnc| + |e.name| + 1, e.indexEnc)
  {
    AtSplit(buf, pos, e.lengthEnc, e.name + ([e.kind] + e.indexEnc));
    ReadsEncoding(buf, pos, e.lengthEnc, limit);
    AtSplit(buf, pos + |e.lengthEnc|, e.name, [e.kind] + e.indexEnc);
    AtSplit(buf, pos + |e.lengthEnc| + |e.name|, [e.kind], e.indexEnc);
  }

  lemma ReadsEntry(dec: Decoder, buf: seq<byte>, pos: nat, e: ExportEntry, limit: nat)
    requires At(buf, pos, EntryBytes(e)) && EntryFormed(e, limit)
    ensures EntryAt(dec, buf, pos, limit) == Entry(dec(e.name), pos + |EntryBytes(e)|)
  {
    ReadsName(buf, pos, e, limit);
    ReadsEncoding(buf, pos + |e.lengthEnc| + |e.name| + 1, e.indexEnc, limit);
    SliceFills(buf, pos + |e.lengthEnc|, e.name);
  }

  lemma ReadsFirstEntry(dec: Decoder, buf: seq<byte>, pos: nat, es: seq<ExportEntry>, limit: nat) returns (next: nat)
    requires At(buf, pos, EntriesBytes(es)) && es != [] && EntryFormed(es[0], limit)
    ensures EntriesOf(dec, buf, limit)(pos) == Entry(dec(es[0].name), next)
    ensures At(buf, next, EntriesBytes(es[1..]))
  {
    AtSplit(buf, pos, EntryBytes(es[0]), EntriesBytes(es[1..]));
    ReadsEntry(dec, buf, pos, es[0], limit);
    next := pos + |EntryBytes(es[0])|;
  }

  lemma {:induction false} ReadsEntries(dec: Decoder, buf: seq<byte>, pos: nat, es: seq<ExportEntry>, limit: nat)
    requires At(buf, pos, EntriesBytes(es)) && EntriesFormed(es, limit)
    ensures StrictEntries(EntriesOf(dec, buf, limit), pos, |es|) == Ok(Names(dec, es))
    decreases |es|
  {
    if es != [] {
      var next := ReadsFirstEntry(dec, buf, pos, es, limit);
      ReadsEntries(dec, buf, next, es[1..], limit);
    }
  }

  lemma ReadsCount(body: seq<byte>, countEnc: seq<byte>, n: nat, rest: seq<byte>, limit: nat)
    requires At(body, 0, countEnc + rest) && Encodes(countEnc, n, limit)
    ensures Leb(body, 0, limit) == Got(n, |countEnc|) && At(body, |countEnc|, rest)
  {
    AtSplit(body, 0, countEnc, rest);
    ReadsEncoding(body, 0, countEnc, limit);
  }

  lemma StrictlyCounted(dec: Decoder, body: seq<byte>, limit: nat, n: nat, q: nat)
    requires Leb(body, 0, limit) == Got(n, q)
    ensures StrictBody(dec, body, limit) == StrictEntries(EntriesOf(dec, body, limit), q, n)
  {
  }

  lemma ReadsAfterCount(dec: Decoder, body: seq<byte>, q: nat, es: seq<ExportEntry>, limit: nat)
    requires Leb(body, 0, limit) == Got(|es|, q) && At(body, q, EntriesBytes(es))
    requires EntriesFormed(es, limit)
    ensures StrictBody(dec, body, limit) == Ok(Names(dec, es))
  {
    StrictlyCounted(dec, body, limit, |es|, q);
    ReadsEntries(dec, body, q, es, limit);
  }

  lemma ReadsCountedEntries(dec: Decoder, body: seq<byte>, countEnc: seq<byte>, es: seq<ExportEntry>, limit: nat)
    requires At(body, 0, countEnc + EntriesBytes(es)) && Encodes(countEnc, |es|, limit)
    requires EntriesFormed(es, limit)
    ensures StrictBody(dec, body, limit) == Ok(Names(dec, es))
  {
    ReadsCount(body, countEnc, |es|, EntriesBytes(es), limit);
    ReadsAfterCount(dec, body, |countEnc|, es, limit);
  }

  lemma ReadsExportBody(dec: Decoder, s: Section, limit: nat)
    requires s.Exports? && SectionFormed(s, limit)
    ensures StrictBody(dec, SectionBody(s), limit) == Ok(Names(dec, s.entries))
  {
    ReadsCountedEntries(dec, SectionBody(s), s.countEnc, s.entries, limit);
  }

  lemma HeaderParts(w: seq<byte>, pos: nat, s: Section)
    requires At(w, pos, SectionBytes(s))
    ensures pos < |w| && w[pos] == SectionId(s)
    ensures At(w, pos + 1, s.sizeEnc) && At(w, pos + 1 + |s.sizeEnc|, SectionBody(s))
  {
    AtSplit(w, pos, [SectionId(s)], s.sizeEnc + SectionBody(s));
    AtHead(w, pos, [SectionId(s)]);
    AtSplit(w, pos + 1, s.sizeEnc, SectionBody(s));
  }

  lemma HeaderRead(w: seq<byte>, pos: nat, sizeEnc: seq<byte>, size: nat, limit: nat)
    requires pos < |w| && At(w, pos + 1, sizeEnc) && Encodes(sizeEnc, size, limit)
    ensures SectionAt(w, pos, limit) == Header(w[pos], pos + 1 + |sizeEnc|, size)
  {
    ReadsEncoding(w, pos + 1, sizeEnc, limit);
  }

  /** Where the body of a section at pos begins and ends. */
  function BodyStart(pos: nat, s: Section): nat {
    pos + 1 + |s.sizeEnc|
  }

  function BodyEnd(pos: nat, s: Section): nat {
    BodyStart(pos, s) + |SectionBody(s)|
  }

  lemma ReadsHeader(w: seq<byte>, pos: nat, s: Section, limit: nat)
    requires At(w, pos, SectionBytes(s)) && SectionFormed(s, limit)
    ensures pos < |w| && SectionAt(w, pos, limit) == Header(SectionId(s), BodyStart(pos, s), |SectionBody(s)|)
    ensures At(w, BodyStart(pos, s), SectionBody(s))
  {
    HeaderParts(w, pos, s);
    HeaderRead(w, pos, s.sizeEnc, |SectionBody(s)|, limit);
  }

  /** `w` holds the sections ss from pos to its end. */
  predicate Ends(w: seq<byte>, pos: nat, ss: seq<Section>) {
    At(w, pos, SectionsBytes(ss)) && pos + |SectionsBytes(ss)| == |w|
  }

  lemma EndsSplit(w: seq<byte>, pos: nat, ss: seq<Section>)
    requires Ends(w, pos, ss) && ss != []
    ensures At(w, pos, SectionBytes(ss[0])) && Ends(w, BodyEnd(pos, ss[0]), ss[1..])
  {
    AtSplit(w, pos, SectionBytes(ss[0]), SectionsBytes(ss[1..]));
    assert |SectionBytes(ss[0])| == 1 + |ss[0].sizeEnc| + |SectionBody(ss[0])|;
  }

  lemma ReadsExportSection(dec: Decoder, w: seq<byte>, pos: nat, s: Section, limit: nat)
    requires At(w, pos, SectionBytes(s)) && SectionFormed(s, limit) && s.Exports?
    ensures StrictFrom(dec, w, pos, limit) == Ok(Names(dec, s.entries))
  {
    ReadsHeader(w, pos, s, limit);
    SliceFills(w, BodyStart(pos, s), SectionBody(s));
    StrictStops(dec, w, pos, limit, BodyStart(pos, s), |SectionBody(s)|);
    ReadsExportBody(dec, s, limit);
  }

  lemma IdOfPlain(s: Section, limit: nat)
    requires s.Plain? && SectionFormed(s, limit)
    ensures SectionId(s) != 7
  {
  }

  lemma SkipsPlainSection(dec: Decoder, w: seq<byte>, pos: nat, s: Section, limit: nat)
    requires At(w, pos, SectionBytes(s)) && SectionFormed(s, limit) && s.Plain?
    ensures StrictFrom(dec, w, pos, limit) == StrictFrom(dec, w, BodyEnd(pos, s), limit)
  {
    ReadsHeader(w, pos, s, limit);
    IdOfPlain(s, limit);
    StrictSkips(dec, w, pos, limit, SectionId(s), BodyStart(pos, s), |SectionBody(s)|);
  }

  lemma {:induction false} ReadsSections(dec: Decoder, w: seq<byte>, pos: nat, ss: seq<Section>, limit: nat)
    requires Ends(w, pos, ss) && ModuleFormed(ss, limit)
    ensures StrictFrom(dec, w, pos, limit) == Ok(ExportNames(dec, ss))
    decreases |ss|
  {
    if ss != [] {
      EndsSplit(w, pos, ss);
      if ss[0].Exports? {
        ReadsExportSection(dec, w, pos, ss[0], limit);
      } else {
        SkipsPlainSection(dec, w, pos, ss[0], limit);
        ReadsSections(dec, w, BodyEnd(pos, ss[0]), ss[1..], limit);
      }
    }
  }

  /** On every well-formed module both walkers return the export names: one in order, the
      other sorted. */
  lemma WellFormedModules(dec: Decoder, ss: seq<Section>)
    requires ModuleFormed(ss, 5)
    ensures Walk(dec, ModuleBytes(ss)) == ExportNames(dec, ss)
    ensures var w := ModuleBytes(ss); SortResult(Strict(dec, w, |w| + 1)) == Ok(SortStrings(ExportNames(dec, ss)))
  {
    var w := ModuleBytes(ss);
    assert At(w, 0, MAGIC + SectionsBytes(ss));
    AtSplit(w, 0, MAGIC, SectionsBytes(ss));
    ReadsSections(dec, w, 8, ss, 5);
    StrictFromHigher(dec, w, 8, 5, LIMIT);
    assert MAGIC[..4] <= MAGIC <= w;
    WalkersAgree(dec, w);
  }
}
