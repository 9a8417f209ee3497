/** The stored-only ZIP writer of packages/test-sentry/src/sourcemaps.ts, undone by a reader
    that starts from the end record (sections 4.3.7, 4.3.12 and 4.3.16 of PKWARE APPNOTE). */
module Zip {
  import opened Wrappers
  import Crc32

  datatype File = File(name: seq<byte>, data: seq<byte>)

  datatype ZipError = OutOfRange

  /** The outcome of writing a number into a field: `RangeError` when it does not fit. */
  datatype Written = Fine | Thrown

  // ----- little-endian fields -------------------------------------------------

  function LE(v: nat, width: nat): (b: seq<byte>)
    ensures |b| == width
    decreases width, v
  {
    if width == 0 then [] else [(v % 256) as byte] + LE(v / 256, width - 1)
  }

  function FromLE(b: seq<byte>): nat {
    if b == [] then 0 else b[0] as nat + 256 * FromLE(b[1..])
  }

  /** How many values a field of this width can hold. */
  function Range(width: nat): nat {
    if width == 0 then 1 else 256 * Range(width - 1)
  }

  lemma {:induction false} LERoundTrip(v: nat, width: nat)
    requires v < Range(width)
    ensures FromLE(LE(v, width)) == v
    decreases width
  {
    if width != 0 {
      LERoundTrip(v / 256, width - 1);
      assert LE(v, width)[1..] == LE(v / 256, width - 1);
    }
  }

  /** One number of a header, and the width it is stored in. */
  datatype Field = Field(width: nat, value: nat)

  /** A header is its fields one after another. */
  function Layout(fields: seq<Field>): seq<byte> {
    if fields == [] then [] else LE(fields[0].value, fields[0].width) + Layout(fields[1..])
  }

  function Widths(fields: seq<Field>): (w: seq<nat>)
    ensures |w| == |fields| && forall k | 0 <= k < |fields| :: w[k] == fields[k].width
  {
    if fields == [] then [] else [fields[0].width] + Widths(fields[1..])
  }

  function Total(widths: seq<nat>): nat {
    if widths == [] then 0 else widths[0] + Total(widths[1..])
  }

  /** The numbers stored at the start of `b` in fields of these widths, as far as `b` goes. */
  function ReadFields(b: seq<byte>, widths: seq<nat>): (r: seq<nat>)
    ensures |r| <= |widths|
    decreases |widths|, |b|
  {
    if widths == [] || |b| < widths[0] then []
    else [FromLE(b[..widths[0]])] + ReadFields(b[widths[0]..], widths[1..])
  }

  predicate FieldsFit(fields: seq<Field>) {
    forall k | 0 <= k < |fields| :: fields[k].value < Range(fields[k].width)
  }

  lemma {:induction false} LayoutSize(fields: seq<Field>)
    ensures |Layout(fields)| == Total(Widths(fields))
    decreases |fields|
  {
    if fields != [] { LayoutSize(fields[1..]); }
  }

  /** Reading back a laid-out header gives its numbers. */
  lemma {:induction false} FieldsRoundTrip(fields: seq<Field>, rest: seq<byte>)
    requires FieldsFit(fields)
    ensures var r := ReadFields(Layout(fields) + rest, Widths(fields));
            |r| == |fields| && forall k | 0 <= k < |fields| :: r[k] == fields[k].value
    decreases |fields|
  {
    LayoutSize(fields);
    if fields != [] {
      var first, tail := LE(fields[0].value, fields[0].width), Layout(fields[1..]);
      var b := Layout(fields) + rest;
      assert b[..|first|] == first;
      assert b[|first|..] == tail + rest;
      assert Widths(fields)[1..] == Widths(fields[1..]);
      LERoundTrip(fields[0].value, fields[0].width);
      FieldsRoundTrip(fields[1..], rest);
    }
  }

  lemma {:induction false} LayoutSnoc(fields: seq<Field>, f: Field)
    ensures Layout(fields + [f]) == Layout(fields) + LE(f.value, f.width)
    decreases |fields|
  {
    if fields == [] {
      assert fields + [f] == [f];
      assert Layout([f]) == LE(f.value, f.width) + Layout([]);
    } else {
      assert (fields + [f])[1..] == fields[1..] + [f];
      LayoutSnoc(fields[1..], f);
    }
  }

  // ----- headers ----------------------------------------------------------------

  const LOCAL_SIGNATURE := 0x04034b50
  const CENTRAL_SIGNATURE := 0x02014b50
  const END_SIGNATURE := 0x06054b50

  const LOCAL_WIDTHS: seq<nat> := [4, 2, 2, 2, 2, 2, 4, 4, 4, 2, 2]
  const CENTRAL_WIDTHS: seq<nat> := [4, 2, 2, 2, 2, 2, 2, 4, 4, 4, 2, 2, 2, 2, 2, 4, 4]
  const END_WIDTHS: seq<nat> := [4, 2, 2, 2, 2, 4, 4, 2]

  function LocalFields(name: nat, crc: nat, size: nat): seq<Field> {
    [Field(4, LOCAL_SIGNATURE), Field(2, 20), Field(2, 0), Field(2, 0), Field(2, 0), Field(2, 0),
     Field(4, crc), Field(4, size), Field(4, size), Field(2, name), Field(2, 0)]
  }

  function CentralFields(name: nat, crc: nat, size: nat, offset: nat): seq<Field> {
    [Field(4, CENTRAL_SIGNATURE), Field(2, 20), Field(2, 20), Field(2, 0), Field(2, 0), Field(2, 0), Field(2, 0),
     Field(4, crc), Field(4, size), Field(4, size), Field(2, name), Field(2, 0), Field(2, 0), Field(2, 0),
     Field(2, 0), Field(4, 0), Field(4, offset)]
  }

  function EndFields(count: nat, cdSize: nat, cdOffset: nat): seq<Field> {
    [Field(4, END_SIGNATURE), Field(2, 0), Field(2, 0), Field(2, count), Field(2, count),
     Field(4, cdSize), Field(4, cdOffset), Field(2, 0)]
  }

  lemma LocalWidths(name: nat, crc: nat, size: nat)
    ensures Widths(LocalFields(name, crc, size)) == LOCAL_WIDTHS
  {
  }

  lemma CentralWidths(name: nat, crc: nat, size: nat, offset: nat)
    ensures Widths(CentralFields(name, crc, size, offset)) == CENTRAL_WIDTHS
  {
  }

  lemma EndWidths(count: nat, cdSize: nat, cdOffset: nat)
    ensures Widths(EndFields(count, cdSize, cdOffset)) == END_WIDTHS
  {
  }

  lemma TotalFrom(w: seq<nat>, k: nat)
    requires k <= |w|
    ensures Total(w[k..]) == if k == |w| then 0 else w[k] + Total(w[k + 1..])
  {
    if k < |w| { assert w[k..][1..] == w[k + 1..]; }
  }

  lemma LocalTotal()
    ensures Total(LOCAL_WIDTHS) == 30
  {
    var w := LOCAL_WIDTHS;
    assert w == w[0..];
    TotalFrom(w, 11); TotalFrom(w, 10); TotalFrom(w, 9); TotalFrom(w, 8); TotalFrom(w, 7); TotalFrom(w, 6);
    TotalFrom(w, 5); TotalFrom(w, 4); TotalFrom(w, 3); TotalFrom(w, 2); TotalFrom(w, 1); TotalFrom(w, 0);
  }

  lemma CentralTotal()
    ensures Total(CENTRAL_WIDTHS) == 46
  {
    var w := CENTRAL_WIDTHS;
    assert w == w[0..];
    TotalFrom(w, 17); TotalFrom(w, 16); TotalFrom(w, 15); TotalFrom(w, 14); TotalFrom(w, 13); TotalFrom(w, 12);
    TotalFrom(w, 11); TotalFrom(w, 10); TotalFrom(w, 9); TotalFrom(w, 8); TotalFrom(w, 7); TotalFrom(w, 6);
    TotalFrom(w, 5); TotalFrom(w, 4); TotalFrom(w, 3); TotalFrom(w, 2); TotalFrom(w, 1); TotalFrom(w, 0);
  }

  lemma EndTotal()
    ensures Total(END_WIDTHS) == 22
  {
    var w := END_WIDTHS;
    assert w == w[0..];
    TotalFrom(w, 8); TotalFrom(w, 7); TotalFrom(w, 6); TotalFrom(w, 5);
    TotalFrom(w, 4); TotalFrom(w, 3); TotalFrom(w, 2); TotalFrom(w, 1); TotalFrom(w, 0);
  }

  lemma Ranges()
    ensures Range(2) == 65536 && Range(4) == 4294967296
  {
  }

  lemma LocalFit(name: nat, crc: nat, size: nat)
    requires name < 65536 && crc < 4294967296 && size < 4294967296
    ensures FieldsFit(LocalFields(name, crc, size))
  {
    Ranges();
  }

  lemma CentralFit(name: nat, crc: nat, size: nat, offset: nat)
    requires name < 65536 && crc < 4294967296 && size < 4294967296 && offset < 4294967296
    ensures FieldsFit(CentralFields(name, crc, size, offset))
  {
    Ranges();
  }

  lemma EndFit(count: nat, cdSize: nat, cdOffset: nat)
    requires count < 65536 && cdSize < 4294967296 && cdOffset < 4294967296
    ensures FieldsFit(EndFields(count, cdSize, cdOffset))
  {
    Ranges();
  }

  // ----- the archive as a value ---------------------------------------------------

  /** The checksum as the number the writer stores. */
  function Crc(data: seq<byte>): (c: nat)
    ensures c < 4294967296
  {
    Crc32.Checksum(data) as nat
  }

  function LocalHeader(f: File): seq<byte> {
    Layout(LocalFields(|f.name|, Crc(f.data), |f.data|)) + f.name
  }

  function CentralHeader(f: File, offset: nat): seq<byte> {
    Layout(CentralFields(|f.name|, Crc(f.data), |f.data|, offset)) + f.name
  }

  function LocalSize(f: File): nat {
    30 + |f.name| + |f.data|
  }

  function Locals(files: seq<File>): seq<byte> {
    if files == [] then [] else LocalHeader(files[0]) + files[0].data + Locals(files[1..])
  }

  /** The central directory of files whose first local header is at `offset`. */
  function Centrals(files: seq<File>, offset: nat): seq<byte>
    decreases |files|
  {
    if files == [] then [] else CentralHeader(files[0], offset) + Centrals(files[1..], offset + LocalSize(files[0]))
  }

  function Archive(files: seq<File>): seq<byte> {
    var locals, centrals := Locals(files), Centrals(files, 0);
    locals + centrals + Layout(EndFields(|files|, |centrals|, |locals|))
  }

  /** Every file fits its fields, the first being written at `offset`. */
  predicate FilesFit(files: seq<File>, offset: nat)
    decreases |files|
  {
    files == [] ||
    (&& |files[0].name| < 65536
     && |files[0].data| < 4294967296
     && offset < 4294967296
     && FilesFit(files[1..], offset + LocalSize(files[0])))
  }

  /** The 16- and 32-bit limits of the format. */
  predicate FitsLimits(files: seq<File>) {
    && FilesFit(files, 0)
    && |files| < 65536
    && |Centrals(files, 0)| < 4294967296
    && |Locals(files)| < 4294967296
  }

  lemma HeaderLength(f: File, offset: nat)
    ensures |LocalHeader(f)| == 30 + |f.name|
    ensures |CentralHeader(f, offset)| == 46 + |f.name|
  {
    LocalWidths(|f.name|, Crc(f.data), |f.data|);
    CentralWidths(|f.name|, Crc(f.data), |f.data|, offset);
    LayoutSize(LocalFields(|f.name|, Crc(f.data), |f.data|));
    LayoutSize(CentralFields(|f.name|, Crc(f.data), |f.data|, offset));
    LocalTotal();
    CentralTotal();
  }

  // ----- the reader -----------------------------------------------------------------

  datatype Entry = Entry(name: seq<byte>, data: seq<byte>, checksum: nat)

  /** `plain`: stored as it is, without encryption, on one disk, for every reader of version 2.0. */
  datatype Header = Header(signature: nat, plain: bool, crc: nat, packed: nat, size: nat,
                           name: nat, extra: nat, comment: nat, offset: nat)

  /** Section 4.3.7 of PKWARE APPNOTE. */
  function ReadLocalHeader(b: seq<byte>): Option<Header> {
    var h := ReadFields(b, LOCAL_WIDTHS);
    if |h| != 11 then None else Some(Header(h[0], h[1] <= 20 && h[2] == h[3] == 0, h[6], h[7], h[8], h[9], h[10], 0, 0))
  }

  /** Section 4.3.12 of PKWARE APPNOTE. */
  function ReadCentralHeader(b: seq<byte>): Option<Header> {
    var h := ReadFields(b, CENTRAL_WIDTHS);
    if |h| != 17 then None
    else Some(Header(h[0], h[2] <= 20 && h[3] == h[4] == h[13] == 0, h[7], h[8], h[9], h[10], h[11], h[12], h[16]))
  }

  datatype End = End(signature: nat, here: nat, count: nat, cdSize: nat, cdOffset: nat, comment: nat)

  /** Section 4.3.16 of PKWARE APPNOTE. */
  function ReadEnd(b: seq<byte>): Option<End> {
    var h := ReadFields(b, END_WIDTHS);
    if |h| != 8 || h[1] != 0 || h[2] != 0 then None else Some(End(h[0], h[3], h[4], h[5], h[6], h[7]))
  }

  /** The bytes of `z` from `at` on. */
  function From(z: seq<byte>, at: nat): seq<byte> {
    if at <= |z| then z[at..] else []
  }

  /** The data behind the local header at `at`, which must agree with its central entry. */
  function ReadLocal(z: seq<byte>, at: nat, name: seq<byte>, crc: nat, size: nat): Option<seq<byte>> {
    match ReadLocalHeader(From(z, at))
    case None => None
    case Some(h) =>
      var start := at + 30 + h.name + h.extra;
      if h.signature != LOCAL_SIGNATURE || !h.plain || h.crc != crc || h.packed != size || h.size != size then None
      else if start + size > |z| || z[at + 30..at + 30 + h.name] != name then None
      else Some(z[start..start + size])
  }

  /** The entry whose central header is at `at`, and where that header ends. */
  function ReadEntry(z: seq<byte>, at: nat): Option<(Entry, nat)> {
    match ReadCentralHeader(From(z, at))
    case None => None
    case Some(h) =>
      var next := at + 46 + h.name + h.extra + h.comment;
      if h.signature != CENTRAL_SIGNATURE || !h.plain || h.packed != h.size || next > |z| then None
      else
        var name := z[at + 46..at + 46 + h.name];
        match ReadLocal(z, h.offset, name, h.crc, h.size)
        case None => None
        case Some(data) => Some((Entry(name, data, h.crc), next))
  }

  /** `count` central entries from `at`, and where they end. */
  function ReadCentral(z: seq<byte>, at: nat, count: nat): Option<(seq<Entry>, nat)>
    decreases count, at
  {
    if count == 0 then Some(([], at))
    else
      match ReadEntry(z, at)
      case None => None
      case Some((entry, next)) =>
        match ReadCentral(z, next, count - 1)
        case None => None
        case Some((entries, end)) => Some(([entry] + entries, end))
  }

  predicate EndsAt(z: seq<byte>, at: nat) {
    match ReadEnd(From(z, at))
    case None => false
    case Some(e) => e.signature == END_SIGNATURE && at + 22 + e.comment == |z|
  }

  /** The last end record at or before `at`. */
  function FindEnd(z: seq<byte>, at: nat): Option<nat> {
    if EndsAt(z, at) then Some(at) else if at == 0 then None else FindEnd(z, at - 1)
  }

  function ReadArchive(z: seq<byte>): Option<seq<Entry>> {
    if |z| < 22 then None
    else
      match FindEnd(z, |z| - 22)
      case None => None
      case Some(end) =>
        match ReadEnd(From(z, end))
        case None => None
        case Some(e) =>
          if e.here != e.count then None
          else
            match ReadCentral(z, e.cdOffset, e.count)
            case None => None
            case Some((entries, next)) => if next == e.cdOffset + e.cdSize == end then Some(entries) else None
  }

  // ----- reading undoes writing --------------------------------------------------------

  /** `part` stands in `z` from `at` on. */
  ghost predicate Within(z: seq<byte>, at: nat, part: seq<byte>) {
    at + |part| <= |z| && z[at..at + |part|] == part
  }

  lemma WithinSplit(z: seq<byte>, at: nat, a: seq<byte>, b: seq<byte>)
    requires Within(z, at, a + b)
    ensures Within(z, at, a) && Within(z, at + |a|, b)
    ensures z[at..] == a + z[at + |a|..]
  {
    assert (a + b)[..|a|] == a && (a + b)[|a|..] == b;
    assert z[at..at + |a + b|][..|a|] == z[at..at + |a|];
    assert z[at..at + |a + b|][|a|..] == z[at + |a|..at + |a + b|];
  }

  predicate FileFits(f: File, offset: nat) {
    |f.name| < 65536 && |f.data| < 4294967296 && offset < 4294967296
  }

  lemma LocalHeaderBack(f: File, rest: seq<byte>)
    requires FileFits(f, 0)
    ensures ReadLocalHeader(Layout(LocalFields(|f.name|, Crc(f.data), |f.data|)) + rest)
         == Some(Header(LOCAL_SIGNATURE, true, Crc(f.data), |f.data|, |f.data|, |f.name|, 0, 0, 0))
  {
    hide Layout, ReadFields, FieldsFit, Widths, Crc;
    var fields := LocalFields(|f.name|, Crc(f.data), |f.data|);
    LocalFit(|f.name|, Crc(f.data), |f.data|);
    FieldsRoundTrip(fields, rest);
    LocalWidths(|f.name|, Crc(f.data), |f.data|);
  }

  lemma CentralHeaderBack(f: File, offset: nat, rest: seq<byte>)
    requires FileFits(f, offset)
    ensures ReadCentralHeader(Layout(CentralFields(|f.name|, Crc(f.data), |f.data|, offset)) + rest)
         == Some(Header(CENTRAL_SIGNATURE, true, Crc(f.data), |f.data|, |f.data|, |f.name|, 0, 0, offset))
  {
    hide Layout, ReadFields, FieldsFit, Widths, Crc;
    var fields := CentralFields(|f.name|, Crc(f.data), |f.data|, offset);
    CentralFit(|f.name|, Crc(f.data), |f.data|, offset);
    FieldsRoundTrip(fields, rest);
    CentralWidths(|f.name|, Crc(f.data), |f.data|, offset);
  }

  lemma EndBack(count: nat, cdSize: nat, cdOffset: nat)
    requires count < 65536 && cdSize < 4294967296 && cdOffset < 4294967296
    ensures ReadEnd(Layout(EndFields(count, cdSize, cdOffset)))
        == Some(End(END_SIGNATURE, count, count, cdSize, cdOffset, 0))
  {
    var fields := EndFields(count, cdSize, cdOffset);
    EndFit(count, cdSize, cdOffset);
    FieldsRoundTrip(fields, []);
    EndWidths(count, cdSize, cdOffset);
    assert Layout(fields) + [] == Layout(fields);
  }

  lemma EndLength(count: nat, cdSize: nat, cdOffset: nat)
    ensures |Layout(EndFields(count, cdSize, cdOffset))| == 22
  {
    LayoutSize(EndFields(count, cdSize, cdOffset));
    EndWidths(count, cdSize, cdOffset);
    EndTotal();
  }

  lemma ReadLocalBack(z: seq<byte>, at: nat, f: File)
    requires FileFits(f, at) && Within(z, at, LocalHeader(f) + f.data)
    ensures ReadLocal(z, at, f.name, Crc(f.data), |f.data|) == Some(f.data)
  {
    hide Layout, LocalFields, ReadLocalHeader, Crc;
    var header := Layout(LocalFields(|f.name|, Crc(f.data), |f.data|));
    HeaderLength(f, at);
    WithinSplit(z, at, LocalHeader(f), f.data);
    WithinSplit(z, at, header, f.name);
    LocalHeaderBack(f, z[at + |header|..]);
  }

  function EntryOf(f: File): Entry {
    Entry(f.name, f.data, Crc(f.data))
  }

  function EntriesOf(files: seq<File>): seq<Entry> {
    if files == [] then [] else [EntryOf(files[0])] + EntriesOf(files[1..])
  }

  /** A central header found in the archive, with its name behind it. */
  ghost predicate CentralAt(z: seq<byte>, at: nat, f: File, offset: nat) {
    && ReadCentralHeader(From(z, at))
         == Some(Header(CENTRAL_SIGNATURE, true, Crc(f.data), |f.data|, |f.data|, |f.name|, 0, 0, offset))
    && at + 46 + |f.name| <= |z|
    && z[at + 46..at + 46 + |f.name|] == f.name
  }

  lemma CentralFound(z: seq<byte>, at: nat, f: File, offset: nat)
    requires FileFits(f, offset) && Within(z, at, CentralHeader(f, offset))
    ensures CentralAt(z, at, f, offset)
  {
    var header := Layout(CentralFields(|f.name|, Crc(f.data), |f.data|, offset));
    HeaderLength(f, offset);
    WithinSplit(z, at, header, f.name);
    CentralHeaderBack(f, offset, z[at + |header|..]);
  }

  lemma EntryFound(z: seq<byte>, at: nat, f: File, offset: nat)
    requires CentralAt(z, at, f, offset)
    requires ReadLocal(z, offset, f.name, Crc(f.data), |f.data|) == Some(f.data)
    ensures ReadEntry(z, at) == Some((EntryOf(f), at + 46 + |f.name|))
  {
    hide ReadCentralHeader, ReadLocal, Crc;
  }

  lemma OneMoreEntry(z: seq<byte>, at: nat, entry: Entry, next: nat, count: nat, entries: seq<Entry>, end: nat)
    requires ReadEntry(z, at) == Some((entry, next)) && ReadCentral(z, next, count) == Some((entries, end))
    ensures ReadCentral(z, at, count + 1) == Some(([entry] + entries, end))
  {
  }

  lemma FirstEntry(z: seq<byte>, at: nat, f: File, offset: nat, centrals: seq<byte>, locals: seq<byte>)
    requires FileFits(f, offset)
    requires Within(z, at, CentralHeader(f, offset) + centrals) && Within(z, offset, LocalHeader(f) + f.data + locals)
    ensures ReadEntry(z, at) == Some((EntryOf(f), at + 46 + |f.name|))
    ensures Within(z, at + 46 + |f.name|, centrals) && Within(z, offset + LocalSize(f), locals)
  {
    hide CentralHeader, LocalHeader, ReadEntry, ReadLocal;
    HeaderLength(f, offset);
    WithinSplit(z, at, CentralHeader(f, offset), centrals);
    WithinSplit(z, offset, LocalHeader(f) + f.data, locals);
    CentralFound(z, at, f, offset);
    ReadLocalBack(z, offset, f);
    EntryFound(z, at, f, offset);
  }

  lemma NoEntries(z: seq<byte>, at: nat)
    ensures ReadCentral(z, at, 0) == Some(([], at))
  {
  }

  lemma {:induction false} ReadCentralBack(z: seq<byte>, at: nat, files: seq<File>, offset: nat)
    requires FilesFit(files, offset)
    requires Within(z, at, Centrals(files, offset)) && Within(z, offset, Locals(files))
    ensures ReadCentral(z, at, |files|) == Some((EntriesOf(files), at + |Centrals(files, offset)|))
    decreases |files|
  {
    hide CentralHeader, LocalHeader, ReadEntry, ReadLocal, ReadCentral, Within;
    if files == [] {
      NoEntries(z, at);
    } else {
      var f, rest := files[0], files[1..];
      var at', offset' := at + 46 + |f.name|, offset + LocalSize(f);
      FirstEntry(z, at, f, offset, Centrals(rest, offset'), Locals(rest));
      ReadCentralBack(z, at', rest, offset');
      HeaderLength(f, offset);
      OneMoreEntry(z, at, EntryOf(f), at', |rest|, EntriesOf(rest), at' + |Centrals(rest, offset')|);
    }
  }

  /** A reader that starts from the end record recovers exactly the names, data and checksums,
      in order, of every file list within the format's limits. */
  lemma ReadingUndoesWriting(files: seq<File>)
    requires FitsLimits(files)
    ensures ReadArchive(Archive(files)) == Some(EntriesOf(files))
  {
    hide Layout, ReadCentral, Locals, Centrals, EntriesOf, ReadEnd;
    var locals, centrals, z := Locals(files), Centrals(files, 0), Archive(files);
    var end := |locals| + |centrals|;
    assert Within(z, 0, locals) && Within(z, |locals|, centrals);
    EndLength(|files|, |centrals|, |locals|);
    assert From(z, end) == Layout(EndFields(|files|, |centrals|, |locals|));
    EndBack(|files|, |centrals|, |locals|);
    ReadCentralBack(z, |locals|, files, 0);
    assert EndsAt(z, end);
  }

  // ----- the writer -------------------------------------------------------------------

  lemma LE2(v: nat)
    requires v < 65536
    ensures LE(v, 2) == [(v % 256) as byte, (v / 256) as byte]
  {
    assert LE(v / 256, 1) == [((v / 256) % 256) as byte] + LE(v / 256 / 256, 0);
  }

  lemma LE4(v: nat)
    requires v < 4294967296
    ensures LE(v, 4) == LE(v % 65536, 2) + LE(v / 65536, 2)
  {
    assert LE(v, 4) == [(v % 256) as byte] + LE(v / 256, 3);
    assert LE(v / 256, 3) == [((v / 256) % 256) as byte] + LE(v / 65536, 2);
    assert LE(v % 65536, 2) == [(v % 256) as byte] + LE(v % 65536 / 256, 1);
    assert LE(v % 65536 / 256, 1) == [((v / 256) % 256) as byte] + LE(v % 65536 / 256 / 256, 0);
  }

  /** The first `at` bytes of a header buffer are the first `k` of these fields. */
  ghost predicate Holds(buf: array<byte>, at: nat, fields: seq<Field>, k: nat)
    reads buf
  {
    k <= |fields| && at <= buf.Length && buf[..at] == Layout(fields[..k])
  }

  lemma LayoutNext(fields: seq<Field>, k: nat)
    requires k < |fields|
    ensures Layout(fields[..k + 1]) == Layout(fields[..k]) + LE(fields[k].value, fields[k].width)
  {
    assert fields[..k + 1] == fields[..k] + [fields[k]];
    LayoutSnoc(fields[..k], fields[k]);
  }

  /** `buf.writeUInt16LE(v, at)`: the `k`th field of a header. */
  method WriteUInt16LE(buf: array<byte>, v: nat, at: nat, ghost fields: seq<Field>, ghost k: nat) returns (w: Written)
    requires k < |fields| && fields[k] == Field(2, v)
    requires at + 2 <= buf.Length && Holds(buf, at, fields, k)
    modifies buf
    ensures w.Fine? <==> v < 65536
    ensures w.Fine? ==> Holds(buf, at + 2, fields, k + 1)
  {
    hide LE, Layout;
    if v >= 65536 { return Thrown; }
    LayoutNext(fields, k);
    LE2(v);
    buf[at] := (v % 256) as byte;
    buf[at + 1] := (v / 256) as byte;
    assert buf[..at + 2] == Layout(fields[..k]) + LE(v, 2);
    w := Fine;
  }

  /** `buf.writeUInt32LE(v, at)`: the `k`th field of a header. */
  method WriteUInt32LE(buf: array<byte>, v: nat, at: nat, ghost fields: seq<Field>, ghost k: nat) returns (w: Written)
    requires k < |fields| && fields[k] == Field(4, v)
    requires at + 4 <= buf.Length && Holds(buf, at, fields, k)
    modifies buf
    ensures w.Fine? <==> v < 4294967296
    ensures w.Fine? ==> Holds(buf, at + 4, fields, k + 1)
  {
    hide LE, Layout;
    if v >= 4294967296 { return Thrown; }
    LayoutNext(fields, k);
    LE4(v);
    LE2(v % 65536);
    LE2(v / 65536);
    buf[at] := (v % 256) as byte;
    buf[at + 1] := (v % 65536 / 256) as byte;
    buf[at + 2] := (v / 65536 % 256) as byte;
    buf[at + 3] := (v / 65536 / 256) as byte;
    assert v % 65536 % 256 == v % 256;
    assert buf[..at + 4] == Layout(fields[..k]) + (LE(v % 65536, 2) + LE(v / 65536, 2));
    w := Fine;
  }

  /** `name.copy(buf, at)`, behind all the fields. */
  method CopyName(name: seq<byte>, buf: array<byte>, at: nat, ghost fields: seq<Field>)
    requires at + |name| == buf.Length && Holds(buf, at, fields, |fields|)
    modifies buf
    ensures buf[..] == Layout(fields) + name
  {
    assert fields[..|fields|] == fields;
    forall k | 0 <= k < |name| { buf[at + k] := name[k]; }
    assert buf[..at] == old(buf[..at]);
    assert buf[at..] == name;
    assert buf[..] == buf[..at] + buf[at..];
  }

  method Alloc(size: nat, ghost fields: seq<Field>) returns (buf: array<byte>)
    ensures fresh(buf) && buf.Length == size && Holds(buf, 0, fields, 0)
  {
    buf := new byte[size](_ => 0);
  }

  /** The five fields both headers share: checksum, both sizes, name length, extra length. */
  method WriteSizes(buf: array<byte>, checksum: nat, size: nat, name: nat, at: nat, ghost f: seq<Field>, ghost k: nat)
    returns (w: Written)
    requires checksum < 4294967296 && k + 5 <= |f| && at + 16 <= buf.Length
    requires f[k] == Field(4, checksum) && f[k + 1] == f[k + 2] == Field(4, size)
    requires f[k + 3] == Field(2, name) && f[k + 4] == Field(2, 0)
    requires Holds(buf, at, f, k)
    modifies buf
    ensures w.Fine? <==> name < 65536 && size < 4294967296
    ensures w.Fine? ==> Holds(buf, at + 16, f, k + 5)
  {
    hide Holds;
    w := WriteUInt32LE(buf, checksum, at, f, k);
    w := WriteUInt32LE(buf, size, at + 4, f, k + 1);
    if w.Thrown? { return; }
    w := WriteUInt32LE(buf, size, at + 8, f, k + 2);
    w := WriteUInt16LE(buf, name, at + 12, f, k + 3);
    if w.Thrown? { return; }
    w := WriteUInt16LE(buf, 0, at + 14, f, k + 4);
  }

  /** The local header of one file, field by field. */
  method WriteLocalHeader(name: seq<byte>, checksum: nat, size: nat) returns (r: Result<seq<byte>, ZipError>)
    requires checksum < 4294967296
    ensures r.Ok? <==> |name| < 65536 && size < 4294967296
    ensures r.Ok? ==> r.value == Layout(LocalFields(|name|, checksum, size)) + name
  {
    hide Holds, Layout;
    ghost var f := LocalFields(|name|, checksum, size);
    var local := Alloc(30 + |name|, f);
    var w := WriteUInt32LE(local, 0x04034b50, 0, f, 0);
    w := WriteUInt16LE(local, 20, 4, f, 1);
    w := WriteUInt16LE(local, 0, 6, f, 2);
    w := WriteUInt16LE(local, 0, 8, f, 3);
    w := WriteUInt16LE(local, 0, 10, f, 4);
    w := WriteUInt16LE(local, 0, 12, f, 5);
    w := WriteSizes(local, checksum, size, |name|, 14, f, 6);
    if w.Thrown? { return Err(OutOfRange); }
    CopyName(name, local, 30, f);
    r := Ok(local[..]);
  }

  /** The fixed fields at the start of a central header. */
  method WriteCentralStart(buf: array<byte>, ghost f: seq<Field>)
    requires 16 <= buf.Length && 7 <= |f| && f[0] == Field(4, CENTRAL_SIGNATURE) && f[1] == f[2] == Field(2, 20)
    requires f[3] == f[4] == f[5] == f[6] == Field(2, 0)
    requires Holds(buf, 0, f, 0)
    modifies buf
    ensures Holds(buf, 16, f, 7)
  {
    hide Holds;
    var w := WriteUInt32LE(buf, 0x02014b50, 0, f, 0);
    w := WriteUInt16LE(buf, 20, 4, f, 1);
    w := WriteUInt16LE(buf, 20, 6, f, 2);
    w := WriteUInt16LE(buf, 0, 8, f, 3);
    w := WriteUInt16LE(buf, 0, 10, f, 4);
    w := WriteUInt16LE(buf, 0, 12, f, 5);
    w := WriteUInt16LE(buf, 0, 14, f, 6);
  }

  /** The central header of one file whose local header is at `offset`. */
  method WriteCentralHeader(name: seq<byte>, checksum: nat, size: nat, offset: nat)
      returns (r: Result<seq<byte>, ZipError>)
    requires checksum < 4294967296
    ensures r.Ok? <==> |name| < 65536 && size < 4294967296 && offset < 4294967296
    ensures r.Ok? ==> r.value == Layout(CentralFields(|name|, checksum, size, offset)) + name
  {
    hide Holds, Layout;
    ghost var f := CentralFields(|name|, checksum, size, offset);
    var central := Alloc(46 + |name|, f);
    WriteCentralStart(central, f);
    var w := WriteSizes(central, checksum, size, |name|, 16, f, 7);
    if w.Thrown? { return Err(OutOfRange); }
    w := WriteUInt16LE(central, 0, 32, f, 12);
    w := WriteUInt16LE(central, 0, 34, f, 13);
    w := WriteUInt16LE(central, 0, 36, f, 14);
    w := WriteUInt32LE(central, 0, 38, f, 15);
    w := WriteUInt32LE(central, offset, 42, f, 16);
    if w.Thrown? { return Err(OutOfRange); }
    CopyName(name, central, 46, f);
    r := Ok(central[..]);
  }

  method WriteEndRecord(count: nat, cdSize: nat, cdOffset: nat) returns (r: Result<seq<byte>, ZipError>)
    ensures r.Ok? <==> count < 65536 && cdSize < 4294967296 && cdOffset < 4294967296
    ensures r.Ok? ==> r.value == Layout(EndFields(count, cdSize, cdOffset))
  {
    hide Holds, Layout;
    ghost var f := EndFields(count, cdSize, cdOffset);
    var eocd := Alloc(22, f);
    var w := WriteUInt32LE(eocd, 0x06054b50, 0, f, 0);
    w := WriteUInt16LE(eocd, 0, 4, f, 1);
    w := WriteUInt16LE(eocd, 0, 6, f, 2);
    w := WriteUInt16LE(eocd, count, 8, f, 3);
    if w.Thrown? { return Err(OutOfRange); }
    w := WriteUInt16LE(eocd, count, 10, f, 4);
    w := WriteUInt32LE(eocd, cdSize, 12, f, 5);
    if w.Thrown? { return Err(OutOfRange); }
    w := WriteUInt32LE(eocd, cdOffset, 16, f, 6);
    if w.Thrown? { return Err(OutOfRange); }
    w := WriteUInt16LE(eocd, 0, 20, f, 7);
    CopyName([], eocd, 22, f);
    r := Ok(eocd[..]);
  }

  lemma CrcIs(data: seq<byte>)
    ensures Crc(data) == Crc32.Checksum(data) as nat
  {
  }

  /** The parts written so far, with what is still to be written, make up the archive. */
  ghost predicate Progress(files: seq<File>, i: nat, localParts: seq<seq<byte>>, centralParts: seq<seq<byte>>,
                           offset: nat) {
    && i <= |files|
    && Flatten(localParts) + Locals(files[i..]) == Locals(files)
    && Flatten(centralParts) + Centrals(files[i..], offset) == Centrals(files, 0)
    && (FilesFit(files, 0) <==> FilesFit(files[i..], offset))
    && offset == |Flatten(localParts)|
  }

  lemma ProgressStep(files: seq<File>, i: nat, localParts: seq<seq<byte>>, centralParts: seq<seq<byte>>, offset: nat)
    requires i < |files| && Progress(files, i, localParts, centralParts, offset)
    ensures FilesFit(files, 0) ==> FileFits(files[i], offset)
    ensures FileFits(files[i], offset) ==>
      Progress(files, i + 1, localParts + [LocalHeader(files[i])] + [files[i].data],
               centralParts + [CentralHeader(files[i], offset)], offset + |LocalHeader(files[i])| + |files[i].data|)
  {
    hide LocalHeader, CentralHeader;
    var f, rest := files[i], files[i..];
    assert rest[0] == f && rest[1..] == files[i + 1..];
    HeaderLength(f, offset);
    FlattenSnoc(localParts, LocalHeader(f));
    FlattenSnoc(localParts + [LocalHeader(f)], f.data);
    FlattenSnoc(centralParts, CentralHeader(f, offset));
  }

  lemma ProgressEnds(files: seq<File>, localParts: seq<seq<byte>>, centralParts: seq<seq<byte>>, offset: nat)
    requires Progress(files, |files|, localParts, centralParts, offset)
    ensures Flatten(localParts) == Locals(files) && Flatten(centralParts) == Centrals(files, 0)
    ensures offset == |Locals(files)| && FilesFit(files, 0)
  {
    assert files[|files|..] == [];
  }

  /** The parts written so far, with one more file. */
  method AddFile(file: File, localParts: seq<seq<byte>>, centralParts: seq<seq<byte>>, currentOffset: nat,
                 ghost files: seq<File>, ghost i: nat)
    returns (r: Result<(seq<seq<byte>>, seq<seq<byte>>, nat), ZipError>)
    requires i < |files| && files[i] == file && Progress(files, i, localParts, centralParts, currentOffset)
    ensures r.Err? ==> !FilesFit(files, 0)
    ensures r.Ok? ==> Progress(files, i + 1, r.value.0, r.value.1, r.value.2)
  {
    hide *;
    ProgressStep(files, i, localParts, centralParts, currentOffset);
    HeadersOf(file, currentOffset);
    var crc := Crc32.Crc32(file.data);
    var checksum, size := crc as nat, |file.data|;
    var local := WriteLocalHeader(file.name, checksum, size);
    if local.Err? { return Err(OutOfRange); }
    var central := WriteCentralHeader(file.name, checksum, size, currentOffset);
    if central.Err? { return Err(OutOfRange); }
    r := Ok((localParts + [local.value] + [file.data], centralParts + [central.value],
             currentOffset + |local.value| + size));
  }

  /** Writes an archive of `files`, or fails when something does not fit its field; it succeeds
      exactly within the format's limits. */
  method BuildZip(files: seq<File>) returns (r: Result<seq<byte>, ZipError>)
    ensures r.Ok? <==> FitsLimits(files)
    ensures r.Ok? ==> r.value == Archive(files)
  {
    hide *;
    var localParts: seq<seq<byte>>, centralParts: seq<seq<byte>> := [], [];
    var currentOffset: nat := 0;
    ProgressStarts(files);
    ArchiveParts(files);
    for i := 0 to |files|
      invariant Progress(files, i, localParts, centralParts, currentOffset)
    {
      var added := AddFile(files[i], localParts, centralParts, currentOffset, files, i);
      if added.Err? { return Err(OutOfRange); }
      localParts, centralParts, currentOffset := added.value.0, added.value.1, added.value.2;
    }
    ProgressEnds(files, localParts, centralParts, currentOffset);
    var cdOffset, cdSize := currentOffset, |Flatten(centralParts)|;
    var eocd := WriteEndRecord(|files|, cdSize, cdOffset);
    if eocd.Err? { return Err(OutOfRange); }
    r := Ok(Flatten(localParts) + Flatten(centralParts) + eocd.value);
  }

  lemma ProgressStarts(files: seq<File>)
    ensures Progress(files, 0, [], [], 0)
  {
    assert files[0..] == files;
  }

  /** What the two headers of a file hold, and when they can be written. */
  lemma HeadersOf(f: File, offset: nat)
    ensures LocalHeader(f) == Layout(LocalFields(|f.name|, Crc32.Checksum(f.data) as nat, |f.data|)) + f.name
    ensures CentralHeader(f, offset)
         == Layout(CentralFields(|f.name|, Crc32.Checksum(f.data) as nat, |f.data|, offset)) + f.name
    ensures Crc32.Checksum(f.data) as nat < 4294967296
    ensures FileFits(f, offset) <==> |f.name| < 65536 && |f.data| < 4294967296 && offset < 4294967296
  {
    hide Layout;
    CrcIs(f.data);
  }

  lemma ArchiveParts(files: seq<File>)
    ensures Archive(files) == Locals(files) + Centrals(files, 0)
        + Layout(EndFields(|files|, |Centrals(files, 0)|, |Locals(files)|))
    ensures FitsLimits(files)
       <==> FilesFit(files, 0) && |files| < 65536 && |Centrals(files, 0)| < 4294967296 && |Locals(files)| < 4294967296
  {
    hide Layout, Locals, Centrals;
  }
}
