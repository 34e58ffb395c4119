/** The shapefile codec of mapshape.c: byte swapping, the 100-byte .shp
    and .shx headers, the .shx record index, reading one shape record with
    its validation, record bounds, writing records, the base-name rule and
    the max-feature trimming of a selection.

    Files are byte sequences; the host is little-endian (so every
    big-endian field goes through `SwapWord` and every little-endian one
    is copied as is). Doubles are kept as their 8 raw bytes where the code
    only copies them, and as reals where it compares them. A C `int` keeps
    the low 32 bits of a result (`CNumbers.Wrap32`). */
module Shapefile {
  import opened Wrappers
  import opened CNumbers

  type Byte = b: int | 0 <= b < 256

  // ---------------------------------------------------------------------
  // Words
  // ---------------------------------------------------------------------

  /** The unsigned value of the 4 bytes at `at`, most significant first. */
  function BE32(b: seq<Byte>, at: nat): (r: nat)
    requires at + 4 <= |b|
    ensures r < Two32
  {
    ((b[at] as int * 256 + b[at + 1]) * 256 + b[at + 2]) * 256 + b[at + 3]
  }

  /** The unsigned value of the 4 bytes at `at`, least significant first. */
  function LE32(b: seq<Byte>, at: nat): (r: nat)
    requires at + 4 <= |b|
    ensures r < Two32
  {
    ((b[at + 3] as int * 256 + b[at + 2]) * 256 + b[at + 1]) * 256 + b[at]
  }

  /** The 4 bytes of a 32-bit word, most significant first. */
  function BEBytes(v: int): (r: seq<Byte>)
    ensures |r| == 4 && BE32(r, 0) == v % Two32
  {
    var d := Digits(v % Two32);
    [d.3, d.2, d.1, d.0]
  }

  /** The 4 bytes of a 32-bit word, least significant first. */
  function LEBytes(v: int): (r: seq<Byte>)
    ensures |r| == 4 && LE32(r, 0) == v % Two32
  {
    var d := Digits(v % Two32);
    [d.0, d.1, d.2, d.3]
  }

  /** The base-256 digits of a 32-bit word, least significant first. */
  function Digits(u: int): (d: (Byte, Byte, Byte, Byte))
    requires 0 <= u < Two32
    ensures ((d.3 as int * 256 + d.2) * 256 + d.1) * 256 + d.0 == u
    ensures d.0 as int == u % 256
  {
    var q1 := u / 256;
    var q2 := q1 / 256;
    var q3 := q2 / 256;
    assert u == q1 * 256 + u % 256;
    assert q1 == q2 * 256 + q1 % 256;
    assert q2 == q3 * 256 + q2 % 256;
    (u % 256, q1 % 256, q2 % 256, q3)
  }

  // ---------------------------------------------------------------------
  // SwapWord
  // ---------------------------------------------------------------------

  /** A word with its bytes in the opposite order. */
  function Swapped(w: seq<Byte>): (r: seq<Byte>)
    ensures |r| == |w|
  {
    if |w| == 0 then [] else Swapped(w[1..]) + [w[0]]
  }

  lemma {:induction false} SwappedAt(w: seq<Byte>)
    ensures forall j :: 0 <= j < |w| ==> Swapped(w)[j] == w[|w| - 1 - j]
  {
    if |w| > 0 {
      SwappedAt(w[1..]);
    }
  }

  /** `SwapWord`: exchange byte `i` with byte `length - i - 1` for every `i`
      below half the length. */
  method SwapWord(w: seq<Byte>) returns (r: seq<Byte>)
    ensures r == Swapped(w)
  {
    var n := |w|;
    r := w;
    var i := 0;
    while i < n / 2
      invariant 0 <= i <= n / 2 && |r| == n
      invariant forall j :: 0 <= j < i ==> r[j] == w[n - 1 - j] && r[n - 1 - j] == w[j]
      invariant forall j :: i <= j < n - i ==> r[j] == w[j]
    {
      var t := r[i];
      r := r[i := r[n - i - 1]][n - i - 1 := t];
      i := i + 1;
    }
    SwappedAt(w);
  }

  /** Swapping twice gives the word back. */
  lemma SwapTwice(w: seq<Byte>)
    ensures Swapped(Swapped(w)) == w
  {
    SwappedAt(w);
    SwappedAt(Swapped(w));
  }

  /** On a little-endian host, copying a big-endian field and swapping it
      gives the field's value. */
  lemma SwapReadsBigEndian(b: seq<Byte>, at: nat)
    requires at + 4 <= |b|
    ensures LE32(Swapped(b[at..at + 4]), 0) == BE32(b, at)
  {
    SwappedAt(b[at..at + 4]);
  }

  // ---------------------------------------------------------------------
  // Headers
  // ---------------------------------------------------------------------

  /** Bytes 0..3 of a .shx file: 00 00 27 0A, or 0D in the last place. */
  predicate MagicOk(hdr: seq<Byte>)
    requires |hdr| >= 4
  {
    hdr[0] == 0 && hdr[1] == 0 && hdr[2] == 0x27 && (hdr[3] == 0x0a || hdr[3] == 0x0d)
  }

  /** What opening keeps of the two headers; `bounds` holds the eight
      doubles of bytes 36..99 of the .shx header (x, y, z, m minimum and
      maximum), as they are stored. */
  datatype Opened = Opened(fileSize: int, nRecords: int, shapeType: int, bounds: seq<Byte>)

  const MaxRecords := 256_000_000

  /** The record count a .shx header announces: its length in 16-bit words,
      made bytes, less the header, divided by the 8 bytes of an entry. */
  function RecordCount(shx: seq<Byte>): int
    requires |shx| >= 28
  {
    Quot(Wrap32(Wrap32(BE32(shx, 24)) * 2 - 100), 8)
  }

  /** The file size a .shp header announces: its length field, in 16-bit
      words, made bytes. */
  function FileSize(shp: seq<Byte>): int
    requires |shp| >= 28
  {
    Wrap32(Wrap32(BE32(shp, 24)) * 2)
  }

  /** `msSHPOpen` on the 100-byte .shp and .shx headers: the .shx magic and
      the record count are checked; the file size is the .shp length field
      in bytes and the shape type is byte 32 of the .shx header. */
  function Open(shp: seq<Byte>, shx: seq<Byte>): (r: Option<Opened>)
    requires |shp| == 100 && |shx| == 100
    ensures r.Some? <==> MagicOk(shx) && 0 <= RecordCount(shx) <= MaxRecords
    ensures r.Some? ==> r.value == Opened(FileSize(shp), RecordCount(shx), shx[32], shx[36..100])
  {
    if !MagicOk(shx) then None
    else
      var n := RecordCount(shx);
      if n < 0 || n > MaxRecords then None
      else Some(Opened(FileSize(shp), n, shx[32], shx[36..100]))
  }

  /** The .shp header `writeHeader` writes: magic, the length field, version
      1000 and the shape type (both little-endian), the bounds. */
  function HeaderBytes(lengthField: int, shapeType: int, bounds: seq<Byte>): (r: seq<Byte>)
    requires |bounds| == 64
    ensures |r| == 100
    ensures r[..4] == [0, 0, 0x27, 0x0a] && r[36..] == bounds
    ensures r[24..28] == BEBytes(lengthField) && r[28..32] == LEBytes(1000) && r[32..36] == LEBytes(shapeType)
  {
    var r := [0, 0, 0x27, 0x0a] + Zeros(20) + BEBytes(lengthField) + LEBytes(1000) + LEBytes(shapeType) + bounds;
    assert r[24..28] == BEBytes(lengthField) && r[28..32] == LEBytes(1000) && r[32..36] == LEBytes(shapeType);
    r
  }

  function Zeros(n: nat): (r: seq<Byte>)
    ensures |r| == n && forall j :: 0 <= j < n ==> r[j] == 0
  {
    seq(n, _ => 0)
  }

  /** The state `writeHeader` saves: the file size in bytes, the record
      count and the stored bounds. */
  datatype Written = Written(shp: seq<Byte>, shx: seq<Byte>, index: seq<Byte>)

  /** `writeHeader`: the .shp header carries the file size in 16-bit words,
      the .shx header the index size in 16-bit words, and the index holds
      each record's offset and size, also in 16-bit words, big-endian. */
  function WriteHeader(fileSize: int, shapeType: int, bounds: seq<Byte>, offsets: seq<int>, sizes: seq<int>): (r: Written)
    requires |bounds| == 64 && |offsets| == |sizes|
    ensures |r.shp| == 100 && |r.shx| == 100 && |r.index| == 8 * |offsets|
    ensures r.shp[..24] == r.shx[..24] && r.shp[28..] == r.shx[28..]
  {
    var n := |offsets|;
    Written(HeaderBytes(Quot(fileSize, 2), shapeType, bounds),
            HeaderBytes(Quot(Wrap32(n * 8 + 100), 2), shapeType, bounds),
            IndexBytes(offsets, sizes))
  }

  /** The .shx entries: offset and size of each record, halved. */
  function IndexBytes(offsets: seq<int>, sizes: seq<int>): (r: seq<Byte>)
    requires |offsets| == |sizes|
    ensures |r| == 8 * |offsets|
    decreases |offsets|
  {
    if |offsets| == 0 then []
    else BEBytes(Quot(offsets[0], 2)) + BEBytes(Quot(sizes[0], 2)) + IndexBytes(offsets[1..], sizes[1..])
  }

  lemma {:induction false} IndexBytesAt(offsets: seq<int>, sizes: seq<int>, i: nat)
    requires |offsets| == |sizes| && i < |offsets|
    ensures var r := IndexBytes(offsets, sizes);
      BE32(r, 8 * i) == Quot(offsets[i], 2) % Two32 && BE32(r, 8 * i + 4) == Quot(sizes[i], 2) % Two32
    decreases i
  {
    var r := IndexBytes(offsets, sizes);
    var head := BEBytes(Quot(offsets[0], 2)) + BEBytes(Quot(sizes[0], 2));
    var tail := IndexBytes(offsets[1..], sizes[1..]);
    assert r == head + tail;
    if i == 0 {
      assert r[..8] == head;
      assert BE32(r, 0) == BE32(BEBytes(Quot(offsets[0], 2)), 0);
      assert BE32(r, 4) == BE32(BEBytes(Quot(sizes[0], 2)), 0);
    } else {
      IndexBytesAt(offsets[1..], sizes[1..], i - 1);
      assert BE32(r, 8 * i) == BE32(tail, 8 * (i - 1));
      assert BE32(r, 8 * i + 4) == BE32(tail, 8 * (i - 1) + 4);
    }
  }

  /** A header written for a table of at most `MaxRecords` records opens,
      and opening gives back the file size, the record count, the shape
      type and the bounds. */
  lemma OpenReadsWritten(fileSize: int, shapeType: int, bounds: seq<Byte>, offsets: seq<int>, sizes: seq<int>)
    requires |bounds| == 64 && |offsets| == |sizes| && |offsets| <= MaxRecords
    requires 0 <= fileSize < Two31 && fileSize % 2 == 0 && 0 <= shapeType < 256
    ensures var w := WriteHeader(fileSize, shapeType, bounds, offsets, sizes);
      Open(w.shp, w.shx) == Some(Opened(fileSize, |offsets|, shapeType, bounds))
  {
    var n := |offsets|;
    var w := WriteHeader(fileSize, shapeType, bounds, offsets, sizes);
    assert w.shx == HeaderBytes(4 * n + 50, shapeType, bounds) by { Wrap32Small(n * 8 + 100); }
    assert MagicOk(w.shx) by { assert w.shx[..4] == [0, 0, 0x27, 0x0a]; }
    assert RecordCount(w.shx) == n by { CountWritten(n, shapeType, bounds); }
    assert FileSize(w.shp) == fileSize by { SizeWritten(fileSize, shapeType, bounds); }
    assert w.shx[32] == shapeType by { TypeWritten(4 * n + 50, shapeType, bounds); }
    assert w.shx[36..100] == bounds;
  }

  lemma CountWritten(n: nat, shapeType: int, bounds: seq<Byte>)
    requires |bounds| == 64 && n <= MaxRecords
    ensures RecordCount(HeaderBytes(4 * n + 50, shapeType, bounds)) == n
  {
    LengthFieldWritten(4 * n + 50, shapeType, bounds);
    CountOfField(HeaderBytes(4 * n + 50, shapeType, bounds), n);
  }

  /** The length field of a written header reads back as written. */
  lemma LengthFieldWritten(lengthField: int, shapeType: int, bounds: seq<Byte>)
    requires |bounds| == 64 && 0 <= lengthField < Two31
    ensures BE32(HeaderBytes(lengthField, shapeType, bounds), 24) == lengthField
  {
    BE32Slice(HeaderBytes(lengthField, shapeType, bounds), 24);
  }

  /** The record count msSHPOpen computes from the length field of n records. */
  lemma CountOfField(shx: seq<Byte>, n: nat)
    requires |shx| >= 28 && n <= MaxRecords && BE32(shx, 24) == 4 * n + 50
    ensures RecordCount(shx) == n
  {
    Wrap32Small(4 * n + 50);
    Wrap32Small(8 * n);
  }

  lemma SizeWritten(fileSize: int, shapeType: int, bounds: seq<Byte>)
    requires |bounds| == 64 && 0 <= fileSize < Two31 && fileSize % 2 == 0
    ensures FileSize(HeaderBytes(Quot(fileSize, 2), shapeType, bounds)) == fileSize
  {
    var h := HeaderBytes(fileSize / 2, shapeType, bounds);
    assert BE32(h, 24) == fileSize / 2 by {
      LengthFieldWritten(fileSize / 2, shapeType, bounds);
    }
    Wrap32Small(fileSize / 2);
    Wrap32Small(fileSize);
  }

  lemma TypeWritten(lengthField: int, shapeType: int, bounds: seq<Byte>)
    requires |bounds| == 64 && 0 <= shapeType < 256
    ensures HeaderBytes(lengthField, shapeType, bounds)[32] == shapeType
  {
    var h := HeaderBytes(lengthField, shapeType, bounds);
    assert h[32] == h[32..36][0];
    LowByte(shapeType);
  }

  /** A value below 256 is its own low byte. */
  lemma LowByte(v: int)
    requires 0 <= v < 256
    ensures LEBytes(v)[0] as int == v
  {
    assert v % Two32 == v;
  }

  lemma BE32Slice(b: seq<Byte>, at: nat)
    requires at + 4 <= |b|
    ensures BE32(b, at) == BE32(b[at..at + 4], 0)
  {
  }

  // ---------------------------------------------------------------------
  // The record index
  // ---------------------------------------------------------------------

  /** Offsets and sizes of the records, in bytes. */
  datatype Index = Index(offsets: seq<int>, sizes: seq<int>)

  /** Entry `i` of the .shx body: both fields doubled into bytes. */
  function EntryOffset(body: seq<Byte>, i: nat): int
    requires 8 * i + 8 <= |body|
  {
    Wrap32(Wrap32(BE32(body, 8 * i)) * 2)
  }

  function EntrySize(body: seq<Byte>, i: nat): int
    requires 8 * i + 8 <= |body|
  {
    Wrap32(Wrap32(BE32(body, 8 * i + 4)) * 2)
  }

  /** `msSHXLoadAll`: decode every entry of the .shx body. */
  function LoadAll(body: seq<Byte>, nRecords: nat): (r: Index)
    requires 8 * nRecords <= |body|
    ensures |r.offsets| == nRecords && |r.sizes| == nRecords
    ensures forall i :: 0 <= i < nRecords ==> r.offsets[i] == EntryOffset(body, i) && r.sizes[i] == EntrySize(body, i)
  {
    Index(seq(nRecords, i requires 0 <= i < nRecords => EntryOffset(body, i)),
          seq(nRecords, i requires 0 <= i < nRecords => EntrySize(body, i)))
  }

  /** `msSHXLoadPage`: a negative page is refused; otherwise the entries of
      page `page` (of `pageSize` entries) that are below the record count
      are decoded into the cache, and no other entry changes. */
  function LoadPage(body: seq<Byte>, page: int, pageSize: nat, cache: Index): (r: Option<Index>)
    requires |cache.offsets| == |cache.sizes| && 8 * |cache.offsets| <= |body|
    ensures page < 0 <==> r.None?
    ensures r.Some? ==> |r.value.offsets| == |cache.offsets| && |r.value.sizes| == |cache.sizes|
  {
    if page < 0 then None
    else
      var n := |cache.offsets|;
      var InPage := (i: int) => page * pageSize <= i < page * pageSize + pageSize;
      Some(Index(seq(n, i requires 0 <= i < n => if InPage(i) then EntryOffset(body, i) else cache.offsets[i]),
                 seq(n, i requires 0 <= i < n => if InPage(i) then EntrySize(body, i) else cache.sizes[i])))
  }

  /** A page load agrees with the full load on the page and keeps the rest
      of the cache. */
  lemma LoadPageAgrees(body: seq<Byte>, page: nat, pageSize: nat, cache: Index)
    requires |cache.offsets| == |cache.sizes| && 8 * |cache.offsets| <= |body|
    ensures var n := |cache.offsets|; var r := LoadPage(body, page, pageSize, cache).value; var all := LoadAll(body, n);
      forall i :: 0 <= i < n ==>
        if page * pageSize <= i < page * pageSize + pageSize
        then r.offsets[i] == all.offsets[i] && r.sizes[i] == all.sizes[i]
        else r.offsets[i] == cache.offsets[i] && r.sizes[i] == cache.sizes[i]
  {
  }

  /** Loading the index that `writeHeader` wrote gives back every even,
      non-negative offset and size below 2^31. */
  lemma LoadAllReadsWritten(offsets: seq<int>, sizes: seq<int>)
    requires |offsets| == |sizes|
    requires forall i :: 0 <= i < |offsets| ==> 0 <= offsets[i] < Two31 && offsets[i] % 2 == 0
    requires forall i :: 0 <= i < |sizes| ==> 0 <= sizes[i] < Two31 && sizes[i] % 2 == 0
    ensures LoadAll(IndexBytes(offsets, sizes), |offsets|) == Index(offsets, sizes)
  {
    var body := IndexBytes(offsets, sizes);
    var r := LoadAll(body, |offsets|);
    forall i | 0 <= i < |offsets| ensures r.offsets[i] == offsets[i] && r.sizes[i] == sizes[i] {
      IndexBytesAt(offsets, sizes, i);
      HalfDoubles(offsets[i]);
      HalfDoubles(sizes[i]);
    }
  }

  lemma HalfDoubles(v: int)
    requires 0 <= v < Two31 && v % 2 == 0
    ensures Wrap32(Wrap32((v / 2) % Two32) * 2) == v
  {
    Wrap32Small(v / 2);
    Wrap32Small(v);
  }

  // ---------------------------------------------------------------------
  // Reading one record
  // ---------------------------------------------------------------------

  /** Shape types (mapshape.h). */
  predicate IsArcOrPolygon(t: int) { t == 3 || t == 5 || t == 13 || t == 15 || t == 23 || t == 25 }
  predicate IsPolygonType(t: int) { t == 5 || t == 15 || t == 25 }
  predicate IsMultiPointType(t: int) { t == 8 || t == 18 || t == 28 }
  predicate IsPointType(t: int) { t == 1 || t == 11 || t == 21 }

  datatype Kind = NullShape | PointShape | LineShape | PolygonShape

  /** A vertex and a box as the record stores them: 8 raw bytes a double. */
  datatype Point = Point(x: seq<Byte>, y: seq<Byte>)
  datatype Rect = Rect(minx: seq<Byte>, miny: seq<Byte>, maxx: seq<Byte>, maxy: seq<Byte>)

  /** A shape read from a record; `index` is the record number once the
      read got that far. */
  datatype Shape = Shape(kind: Kind, lines: seq<seq<Point>>, bounds: Option<Rect>, index: Option<int>)

  const NoShape := Shape(NullShape, [], None, None)

  const MaxPoints := 50_000_000
  const MaxParts := 10_000_000

  /** A little-endian C `int` of the record. */
  function Int32At(rec: seq<Byte>, at: nat): int
    requires at + 4 <= |rec|
  {
    Wrap32(LE32(rec, at))
  }

  function PointAt(rec: seq<Byte>, at: nat): Point
    requires at + 16 <= |rec|
  {
    Point(rec[at..at + 8], rec[at + 8..at + 16])
  }

  function RectAt(rec: seq<Byte>, at: nat): Rect
    requires at + 32 <= |rec|
  {
    Rect(rec[at..at + 8], rec[at + 8..at + 16], rec[at + 16..at + 24], rec[at + 24..at + 32])
  }

  /** `count` consecutive vertices, the first being vertex `k` of the
      vertex array at `base`. */
  function PointsAt(rec: seq<Byte>, base: nat, k: nat, count: nat): (r: seq<Point>)
    requires base + 16 * (k + count) <= |rec|
    ensures |r| == count
  {
    seq(count, j requires 0 <= j < count => PointAt(rec, base + 16 * (k + j)))
  }

  /** The part offsets of a polygon or arc record: `nParts` 32-bit words
      after the record's fixed fields. */
  function Parts(rec: seq<Byte>, nParts: nat): (r: seq<int>)
    requires 52 + 4 * nParts <= |rec|
    ensures |r| == nParts
  {
    seq(nParts, i requires 0 <= i < nParts => Int32At(rec, 52 + 4 * i))
  }

  /** Where part `i` ends: at the next part's start, or at the vertex count
      for the last part. */
  function PartEnd(parts: seq<int>, nPoints: int, i: nat): int
    requires i < |parts|
  {
    if i == |parts| - 1 then nPoints else parts[i + 1]
  }

  /** Part `i` starts and ends inside the vertex array and holds at least
      one vertex. */
  predicate PartOk(parts: seq<int>, nPoints: int, i: nat)
    requires i < |parts|
  {
    0 <= parts[i] < PartEnd(parts, nPoints, i) <= nPoints
  }

  predicate PartsValid(parts: seq<int>, nPoints: int)
  {
    forall i :: 0 <= i < |parts| ==> PartOk(parts, nPoints, i)
  }

  /** How the part loop of `msSHPReadShape` ends as written: with the
      lines, at a part that is not positive, or reading vertices past the
      end of the record. */
  datatype PartsRead = Lines(lines: seq<seq<Point>>) | BadPart | PastRecord

  /** The part loop as written, from part `i`, the next vertex to read being
      vertex `k`: the vertex count of a part is the difference of two part
      offsets, and the vertices are read from a running counter that starts
      at 0 whatever the first part's offset says. */
  function ReadPartsAsWritten(rec: seq<Byte>, parts: seq<int>, nPoints: int, i: nat, k: nat): (r: PartsRead)
    requires i <= |parts| && 52 + 4 * |parts| <= |rec|
    decreases |parts| - i
  {
    if i == |parts| then Lines([])
    else
      var count := Wrap32(PartEnd(parts, nPoints, i) - parts[i]);
      var base := 52 + 4 * |parts|;
      if count <= 0 then BadPart
      else if base + 16 * (k + count) > |rec| then PastRecord
      else match ReadPartsAsWritten(rec, parts, nPoints, i + 1, k + count)
        case Lines(rest) => Lines([PointsAt(rec, base, k, count)] + rest)
        case other => other
  }

  /** The part loop with the part offsets checked against the vertex array
      first: part `i` is the vertices from its start to its end, counted
      from the first part's start. */
  function ReadParts(rec: seq<Byte>, parts: seq<int>, nPoints: int): (r: Option<seq<seq<Point>>>)
    requires 52 + 4 * |parts| + 16 * nPoints <= |rec| && 0 <= nPoints
    ensures r.Some? <==> PartsValid(parts, nPoints)
    ensures r.Some? ==> |r.value| == |parts| && forall i :: 0 <= i < |parts| ==> |r.value[i]| > 0
  {
    if !PartsValid(parts, nPoints) then None
    else
      PartLinesNonEmpty(rec, parts, nPoints, 0);
      Some(PartLines(rec, parts, nPoints, 0))
  }

  /** The valid parts from part `i` on. */
  function PartLines(rec: seq<Byte>, parts: seq<int>, nPoints: int, i: nat): (r: seq<seq<Point>>)
    requires 52 + 4 * |parts| + 16 * nPoints <= |rec| && 0 <= nPoints
    requires PartsValid(parts, nPoints) && i <= |parts|
    ensures |r| == |parts| - i
    decreases |parts| - i
  {
    if i == |parts| then [] else [PartPoints(rec, parts, nPoints, i)] + PartLines(rec, parts, nPoints, i + 1)
  }

  lemma {:induction false} PartLinesNonEmpty(rec: seq<Byte>, parts: seq<int>, nPoints: int, i: nat)
    requires 52 + 4 * |parts| + 16 * nPoints <= |rec| && 0 <= nPoints
    requires PartsValid(parts, nPoints) && i <= |parts|
    ensures forall j :: 0 <= j < |parts| - i ==> |PartLines(rec, parts, nPoints, i)[j]| > 0
    decreases |parts| - i
  {
    if i < |parts| {
      assert PartOk(parts, nPoints, i);
      PartLinesNonEmpty(rec, parts, nPoints, i + 1);
    }
  }

  /** Where the vertices of part `i` begin in the running counter of the
      part loop, for valid parts: the part's offset less the first one's;
      past the last part, the vertex count less the first offset. */
  function Counter(parts: seq<int>, nPoints: int, i: nat): int
    requires 0 < |parts| && i <= |parts|
  {
    (if i < |parts| then parts[i] else nPoints) - parts[0]
  }

  /** The vertices of part `i` of a record whose parts are valid. */
  function PartPoints(rec: seq<Byte>, parts: seq<int>, nPoints: int, i: nat): (r: seq<Point>)
    requires 52 + 4 * |parts| + 16 * nPoints <= |rec| && 0 <= nPoints
    requires PartsValid(parts, nPoints) && i < |parts|
    ensures |r| == PartEnd(parts, nPoints, i) - parts[i]
  {
    PartWithin(parts, nPoints, i);
    PointsAt(rec, 52 + 4 * |parts|, Counter(parts, nPoints, i), PartEnd(parts, nPoints, i) - parts[i])
  }

  /** A valid part lies between the first part's start and the vertex count. */
  lemma PartWithin(parts: seq<int>, nPoints: int, i: nat)
    requires PartsValid(parts, nPoints) && i < |parts|
    ensures 0 <= parts[0] <= parts[i] < PartEnd(parts, nPoints, i) <= nPoints
  {
    assert PartOk(parts, nPoints, 0) && PartOk(parts, nPoints, i);
    PartStartsIncrease(parts, nPoints, i);
  }

  /** Valid parts start in increasing order. */
  lemma {:induction false} PartStartsIncrease(parts: seq<int>, nPoints: int, i: nat)
    requires PartsValid(parts, nPoints) && i < |parts|
    ensures parts[0] <= parts[i]
    decreases i
  {
    if i > 0 {
      PartStartsIncrease(parts, nPoints, i - 1);
      assert PartOk(parts, nPoints, i - 1);
    }
  }

  /** On valid parts the loop as written reads exactly the checked parts:
      each offset difference is the part's vertex count and the running
      counter stays inside the vertex array. */
  lemma {:induction false} ReadPartsAsWrittenFrom(rec: seq<Byte>, parts: seq<int>, nPoints: int, i: nat)
    requires 52 + 4 * |parts| + 16 * nPoints <= |rec| && 0 <= nPoints < Two31
    requires 0 < |parts| && i <= |parts| && PartsValid(parts, nPoints)
    ensures Counter(parts, nPoints, i) >= 0
    ensures ReadPartsAsWritten(rec, parts, nPoints, i, Counter(parts, nPoints, i))
      == Lines(PartLines(rec, parts, nPoints, i))
    decreases |parts| - i
  {
    if i == |parts| {
      PartWithin(parts, nPoints, |parts| - 1);
    } else {
      ReadPartsAsWrittenFrom(rec, parts, nPoints, i + 1);
      var k := Counter(parts, nPoints, i);
      var start, end := parts[i], PartEnd(parts, nPoints, i);
      PartWithin(parts, nPoints, i);
      assert Wrap32(end - start) == end - start by { Wrap32Small(end - start); }
      assert k + (end - start) == Counter(parts, nPoints, i + 1) <= nPoints;
    }
  }

  lemma ReadPartsAsWrittenAgrees(rec: seq<Byte>, parts: seq<int>, nPoints: int)
    requires 52 + 4 * |parts| + 16 * nPoints <= |rec| && 0 <= nPoints < Two31
    requires PartsValid(parts, nPoints)
    ensures ReadPartsAsWritten(rec, parts, nPoints, 0, 0) == Lines(ReadParts(rec, parts, nPoints).value)
  {
    if |parts| > 0 {
      ReadPartsAsWrittenFrom(rec, parts, nPoints, 0);
    }
  }

  /** A 72-byte polygon record with one part and one vertex passes every
      check of the reader, but its part offset is -1: the part gets two
      vertices and the second is read past the end of the record. */
  lemma ReadPartsAsWrittenOverruns(rec: seq<Byte>)
    requires |rec| == 72 && rec[44..56] == [1, 0, 0, 0, 1, 0, 0, 0, 255, 255, 255, 255]
    ensures Int32At(rec, 44) == 1 && Int32At(rec, 48) == 1 && 52 + 4 * 1 + 16 * 1 <= |rec|
    ensures Parts(rec, 1) == [-1]
    ensures ReadPartsAsWritten(rec, Parts(rec, 1), 1, 0, 0) == PastRecord
    ensures ReadParts(rec, Parts(rec, 1), 1).None?
  {
    assert rec[44] == 1 && rec[45] == 0 && rec[46] == 0 && rec[47] == 0;
    assert rec[48] == 1 && rec[49] == 0 && rec[50] == 0 && rec[51] == 0;
    assert rec[52] == 255 && rec[53] == 255 && rec[54] == 255 && rec[55] == 255;
    assert LE32(rec, 52) == Two32 - 1;
    assert Parts(rec, 1)[0] == -1;
    assert !PartOk([-1], 1, 0);
  }

  /** Total number of vertices of a list of lines. */
  function VertexCount<T>(lines: seq<seq<T>>): nat
  {
    if |lines| == 0 then 0 else |lines[0]| + VertexCount(lines[1..])
  }

  /** The parts read hold all vertices from the first part's offset to the
      vertex count, so never more than the checked vertex array. */
  lemma ReadPartsVertexCount(rec: seq<Byte>, parts: seq<int>, nPoints: int)
    requires 52 + 4 * |parts| + 16 * nPoints <= |rec| && 0 <= nPoints
    requires 0 < |parts| && PartsValid(parts, nPoints)
    ensures VertexCount(ReadParts(rec, parts, nPoints).value) == nPoints - parts[0] <= nPoints
  {
    assert PartOk(parts, nPoints, 0);
    VertexCountFrom(rec, parts, nPoints, 0);
  }

  lemma {:induction false} VertexCountFrom(rec: seq<Byte>, parts: seq<int>, nPoints: int, i: nat)
    requires 52 + 4 * |parts| + 16 * nPoints <= |rec| && 0 <= nPoints
    requires 0 < |parts| && i < |parts| && PartsValid(parts, nPoints)
    ensures VertexCount(PartLines(rec, parts, nPoints, i)) == nPoints - parts[i]
    decreases |parts| - i
  {
    var lines := PartLines(rec, parts, nPoints, i);
    assert lines[1..] == PartLines(rec, parts, nPoints, i + 1);
    if i + 1 < |parts| {
      VertexCountFrom(rec, parts, nPoints, i + 1);
    }
  }

  /** Valid parts, said the way the format reads: the first part starts
      at a non-negative vertex and every part has a positive vertex
      count; the parts then increase up to the vertex count. */
  lemma PartsValidIff(parts: seq<int>, nPoints: int)
    ensures PartsValid(parts, nPoints) <==>
      (|parts| > 0 ==> parts[0] >= 0)
      && forall i :: 0 <= i < |parts| ==> PartEnd(parts, nPoints, i) - parts[i] > 0
  {
    if (|parts| > 0 ==> parts[0] >= 0) && forall i :: 0 <= i < |parts| ==> PartEnd(parts, nPoints, i) - parts[i] > 0 {
      forall i | 0 <= i < |parts| ensures PartOk(parts, nPoints, i) {
        PartsAboveFirst(parts, nPoints, i);
        PartsBelowCount(parts, nPoints, i);
      }
    }
    if PartsValid(parts, nPoints) && |parts| > 0 {
      assert PartOk(parts, nPoints, 0);
      forall i | 0 <= i < |parts| ensures PartEnd(parts, nPoints, i) - parts[i] > 0 {
        assert PartOk(parts, nPoints, i);
      }
    }
  }

  lemma {:induction false} PartsAboveFirst(parts: seq<int>, nPoints: int, i: nat)
    requires 0 < |parts| && parts[0] >= 0 && i < |parts|
    requires forall j :: 0 <= j < |parts| ==> PartEnd(parts, nPoints, j) - parts[j] > 0
    ensures parts[i] >= parts[0]
    decreases i
  {
    if i > 0 {
      PartsAboveFirst(parts, nPoints, i - 1);
      assert PartEnd(parts, nPoints, i - 1) - parts[i - 1] > 0;
    }
  }

  lemma {:induction false} PartsBelowCount(parts: seq<int>, nPoints: int, i: nat)
    requires i < |parts|
    requires forall j :: 0 <= j < |parts| ==> PartEnd(parts, nPoints, j) - parts[j] > 0
    ensures PartEnd(parts, nPoints, i) <= nPoints
    decreases |parts| - i
  {
    if i + 1 < |parts| {
      PartsBelowCount(parts, nPoints, i + 1);
      assert PartEnd(parts, nPoints, i + 1) - parts[i + 1] > 0;
    }
  }

  // ---------------------------------------------------------------------
  // Reading a shape (msSHPReadShape)
  // ---------------------------------------------------------------------

  /** `msSHPReadShape` on record `hEntity` of a file of `nRecords` shapes
      of type `shapeType`, the index giving the record's size as `size`
      and `rec` being the `size + 8` bytes of the record (header
      included). Out-of-range records and SHX sizes of 4 leave the shape
      as initialised; a corrupt record gives a NULL shape without index,
      whose box is the record's box whenever the record is long enough to
      hold one. */
  function ReadShape(shapeType: int, nRecords: int, hEntity: int, size: int, rec: seq<Byte>): (r: Shape)
    requires size + 8 >= 0 ==> |rec| == size + 8
    ensures hEntity < 0 || hEntity >= nRecords || size == 4 ==> r == NoShape
    ensures r.index.Some? ==> r.index.value == hEntity && 0 <= hEntity < nRecords
    ensures r.kind != NullShape ==> r.index == Some(hEntity) && r.bounds.Some?
    ensures r.kind == PolygonShape ==> IsPolygonType(shapeType)
    ensures r.kind == LineShape ==> IsArcOrPolygon(shapeType) && !IsPolygonType(shapeType)
    ensures r.kind == PointShape ==> IsMultiPointType(shapeType) || IsPointType(shapeType)
    ensures r.kind == NullShape ==> r.lines == []
  {
    if hEntity < 0 || hEntity >= nRecords || size == 4 then NoShape
    else if IsArcOrPolygon(shapeType) then ReadArc(shapeType, hEntity, size + 8, rec)
    else if IsMultiPointType(shapeType) then ReadMultiPoint(shapeType, hEntity, size + 8, rec)
    else if IsPointType(shapeType) then ReadPoint(hEntity, size + 8, rec)
    else Shape(NullShape, [], None, Some(hEntity))
  }

  /** A polygon or arc record of `n` bytes. */
  function ReadArc(shapeType: int, hEntity: int, n: int, rec: seq<Byte>): (r: Shape)
    requires IsArcOrPolygon(shapeType) && (n >= 0 ==> |rec| == n)
    ensures r.kind == NullShape <==>
      n < 52 || !ArcCountsOk(rec, n) || !PartsValid(Parts(rec, Int32At(rec, 44)), Int32At(rec, 48))
    ensures r.kind != NullShape ==>
      r.kind == (if IsPolygonType(shapeType) then PolygonShape else LineShape)
      && r.index == Some(hEntity) && r.bounds == Some(RectAt(rec, 12))
      && r.lines == ReadParts(rec, Parts(rec, Int32At(rec, 44)), Int32At(rec, 48)).value
    ensures r.kind == NullShape ==>
      r.lines == [] && r.index == None && (n >= 52 ==> r.bounds == Some(RectAt(rec, 12)))
  {
    if n < 52 then NoShape
    else
      var bounds := Some(RectAt(rec, 12));
      if !ArcCountsOk(rec, n) then Shape(NullShape, [], bounds, None)
      else
        var nParts, nPoints := Int32At(rec, 44), Int32At(rec, 48);
        match ReadParts(rec, Parts(rec, nParts), nPoints)
        case None => Shape(NullShape, [], bounds, None)
        case Some(lines) =>
          Shape(if IsPolygonType(shapeType) then PolygonShape else LineShape, lines, bounds, Some(hEntity))
  }

  /** The part and vertex counts of a polygon or arc record are in range
      and the part and vertex arrays fit in the record. */
  predicate ArcCountsOk(rec: seq<Byte>, n: int)
    requires 52 <= n == |rec|
  {
    var nParts, nPoints := Int32At(rec, 44), Int32At(rec, 48);
    0 <= nPoints <= MaxPoints && 0 <= nParts <= MaxParts
    && 52 + 4 * nParts + 16 * nPoints <= n
  }

  /** A multipoint record of `n` bytes: one line of `nPoints` vertices; the
      M and Z variants must also hold a measure range and array. */
  function ReadMultiPoint(shapeType: int, hEntity: int, n: int, rec: seq<Byte>): (r: Shape)
    requires IsMultiPointType(shapeType) && (n >= 0 ==> |rec| == n)
    ensures r.kind == NullShape <==>
      n < 48 || !(0 <= Int32At(rec, 44) <= MaxPoints) || MultiPointSize(shapeType, Int32At(rec, 44)) > n
    ensures r.kind != NullShape ==>
      r.kind == PointShape && r.index == Some(hEntity) && r.bounds == Some(RectAt(rec, 12))
      && |r.lines| == 1 && |r.lines[0]| == Int32At(rec, 44)
      && forall j :: 0 <= j < |r.lines[0]| ==> r.lines[0][j] == PointAt(rec, 48 + 16 * j)
    ensures r.kind == NullShape ==>
      r.lines == [] && r.index == None && (n >= 48 ==> r.bounds == Some(RectAt(rec, 12)))
  {
    if n < 48 then NoShape
    else
      var bounds := Some(RectAt(rec, 12));
      var nPoints := Int32At(rec, 44);
      if nPoints < 0 || nPoints > MaxPoints || MultiPointSize(shapeType, nPoints) > n then
        Shape(NullShape, [], bounds, None)
      else
        Shape(PointShape, [PointsAt(rec, 48, 0, nPoints)], bounds, Some(hEntity))
  }

  /** The bytes a multipoint record of `nPoints` vertices needs. */
  function MultiPointSize(shapeType: int, nPoints: int): int
  {
    48 + nPoints * 16 + (if shapeType == 18 || shapeType == 28 then 16 + nPoints * 8 else 0)
  }

  /** A point record of `n` bytes: one line of one vertex, which is also
      the shape's box. */
  function ReadPoint(hEntity: int, n: int, rec: seq<Byte>): (r: Shape)
    requires n >= 0 ==> |rec| == n
    ensures r.kind == NullShape <==> n < 28
    ensures r.kind == NullShape ==> r == NoShape
    ensures r.kind != NullShape ==>
      r.kind == PointShape && r.index == Some(hEntity) && r.lines == [[PointAt(rec, 12)]]
      && r.bounds == Some(Rect(r.lines[0][0].x, r.lines[0][0].y, r.lines[0][0].x, r.lines[0][0].y))
  {
    if n < 28 then NoShape
    else
      var p := PointAt(rec, 12);
      Shape(PointShape, [[p]], Some(Rect(p.x, p.y, p.x, p.y)), Some(hEntity))
  }

  /** The cases in which a polygon or arc record reads as a NULL shape:
      too short for its fixed fields, counts out of range, arrays past the
      record's end, a negative first part, or a part without vertices. */
  lemma ReadArcNull(shapeType: int, nRecords: int, hEntity: int, size: int, rec: seq<Byte>)
    requires IsArcOrPolygon(shapeType) && 0 <= hEntity < nRecords && size != 4
    requires size + 8 >= 0 ==> |rec| == size + 8
    ensures ReadShape(shapeType, nRecords, hEntity, size, rec).kind == NullShape <==>
      size + 8 < 52 || !ArcCountsOk(rec, size + 8)
      || (var parts := Parts(rec, Int32At(rec, 44));
          (Int32At(rec, 44) > 0 && parts[0] < 0)
          || exists i :: 0 <= i < |parts| && PartEnd(parts, Int32At(rec, 48), i) - parts[i] <= 0)
  {
    if size + 8 >= 52 && ArcCountsOk(rec, size + 8) {
      PartsValidIff(Parts(rec, Int32At(rec, 44)), Int32At(rec, 48));
    }
  }

  // ---------------------------------------------------------------------
  // Reading a shape's box (msSHPReadBounds)
  // ---------------------------------------------------------------------

  /** Whether the little-endian double `d` is a NaN: all exponent bits set
      and a non-zero fraction (IEEE 754 binary64). */
  predicate IsNaN(d: seq<Byte>)
    requires |d| == 8
  {
    d[7] % 128 == 127 && d[6] / 16 == 15
    && (d[6] % 16 != 0 || d[5] != 0 || d[4] != 0 || d[3] != 0 || d[2] != 0 || d[1] != 0 || d[0] != 0)
  }

  const ZeroRect := Rect(Zeros(8), Zeros(8), Zeros(8), Zeros(8))

  /** The x, y minimum and maximum among the header's eight bounds. */
  function FileRect(fileBounds: seq<Byte>): Rect
    requires |fileBounds| == 64
  {
    Rect(fileBounds[0..8], fileBounds[8..16], fileBounds[16..24], fileBounds[24..32])
  }

  datatype BoundsRead = BoundsRead(ok: bool, box: Rect)

  /** `msSHPReadBounds` for record `hEntity` (-1 for the whole file), the
      index giving its size as `size`; `data` is what the record holds from
      byte 12 on: the box (32 bytes), or the vertex of a point (16 bytes). */
  function ReadBounds(nRecords: int, shapeType: int, fileBounds: seq<Byte>, hEntity: int, size: int,
                      data: seq<Byte>): (r: BoundsRead)
    requires |fileBounds| == 64 && |data| == (if IsPointType(shapeType) then 16 else 32)
    ensures !r.ok ==> r.box == ZeroRect
    ensures nRecords <= 0 || hEntity < -1 || hEntity >= nRecords ==> !r.ok
    ensures nRecords > 0 && hEntity == -1 ==> r == BoundsRead(true, FileRect(fileBounds))
    ensures 0 <= hEntity < nRecords ==>
      (r.ok <==> size != 4 && (IsPointType(shapeType) || !IsNaN(data[0..8])))
    ensures r.ok && 0 <= hEntity ==>
      r.box == if IsPointType(shapeType) then Rect(data[0..8], data[8..16], data[0..8], data[8..16])
               else Rect(data[0..8], data[8..16], data[16..24], data[24..32])
  {
    if nRecords <= 0 || hEntity < -1 || hEntity >= nRecords then BoundsRead(false, ZeroRect)
    else if hEntity == -1 then BoundsRead(true, FileRect(fileBounds))
    else if size == 4 then BoundsRead(false, ZeroRect)
    else if !IsPointType(shapeType) then
      if IsNaN(data[0..8]) then BoundsRead(false, ZeroRect)
      else BoundsRead(true, Rect(data[0..8], data[8..16], data[16..24], data[24..32]))
    else
      BoundsRead(true, Rect(data[0..8], data[8..16], data[0..8], data[8..16]))
  }

  /** For a record that reads as a shape, the box read alone is the box the
      shape read carries (unless its minimum x is a NaN, which marks an
      empty shape). */
  lemma ReadBoundsAgrees(shapeType: int, nRecords: int, hEntity: int, size: int, rec: seq<Byte>,
                         fileBounds: seq<Byte>)
    requires size + 8 >= 0 ==> |rec| == size + 8
    requires |fileBounds| == 64
    requires ReadShape(shapeType, nRecords, hEntity, size, rec).kind != NullShape
    requires !IsNaN(rec[12..20])
    ensures var data := rec[12..if IsPointType(shapeType) then 28 else 44];
      ReadBounds(nRecords, shapeType, fileBounds, hEntity, size, data)
        == BoundsRead(true, ReadShape(shapeType, nRecords, hEntity, size, rec).bounds.value)
  {
    ReadShapeBox(shapeType, nRecords, hEntity, size, rec);
    var hi := if IsPointType(shapeType) then 28 else 44;
    var data := rec[12..hi];
    SliceOfSlice(rec, 12, hi, 0, 8);
    SliceOfSlice(rec, 12, hi, 8, 16);
    if !IsPointType(shapeType) {
      SliceOfSlice(rec, 12, hi, 16, 24);
      SliceOfSlice(rec, 12, hi, 24, 32);
    }
  }

  /** The box a record that reads as a shape carries: its first two doubles
      twice for a point, otherwise the four doubles at offset 12. */
  lemma ReadShapeBox(shapeType: int, nRecords: int, hEntity: int, size: int, rec: seq<Byte>)
    requires size + 8 >= 0 ==> |rec| == size + 8
    requires ReadShape(shapeType, nRecords, hEntity, size, rec).kind != NullShape
    ensures 0 <= hEntity < nRecords && size != 4
    ensures var b := ReadShape(shapeType, nRecords, hEntity, size, rec).bounds;
      && (IsPointType(shapeType) ==> |rec| >= 28 && b == Some(Rect(rec[12..20], rec[20..28], rec[12..20], rec[20..28])))
      && (!IsPointType(shapeType) ==> |rec| >= 44 && b == Some(RectAt(rec, 12)))
  {
  }

  /** A slice of a slice is a slice of the whole. */
  lemma SliceOfSlice<T>(s: seq<T>, i: nat, j: nat, k: nat, l: nat)
    requires i <= j <= |s| && k <= l <= j - i
    ensures s[i..j][k..l] == s[i + k..i + l]
  {
    var a := s[i..j][k..l];
    var b := s[i + k..i + l];
    assert |a| == |b|;
    forall m | 0 <= m < |a|
      ensures a[m] == b[m]
    {
      assert a[m] == s[i..j][k + m];
      assert s[i..j][k + m] == s[i + k + m];
    }
  }

  // ---------------------------------------------------------------------
  // Appending a shape (msSHPWriteShape, msSHPWritePoint)
  // ---------------------------------------------------------------------

  /** A vertex handed to the writer, and a box, as doubles; the writer only
      compares them, so they are reals here. */
  datatype Vertex = Vertex(x: real, y: real)
  datatype Box = Box(minX: real, minY: real, maxX: real, maxY: real)

  /** What an open shapefile keeps in memory about its records: the loaded
      index, the size of the .shp file, and the x/y bounds of the file. */
  datatype Table = Table(shapeType: int, offsets: seq<int>, sizes: seq<int>, fileSize: int, box: Box)

  /** The result of a write: the new table, the number returned, and the
      12-byte record header written in front of the record's content. */
  datatype Appended = Appended(table: Table, id: int, header: seq<Byte>)

  /** The content size of the record for a shape of `nParts` parts and
      `nPoints` vertices (without Z or M). Unknown types write no content. */
  function RecordSize(shapeType: int, nParts: int, nPoints: int): int
  {
    if IsArcOrPolygon(shapeType) then 44 + 4 * nParts + 16 * nPoints
    else if IsMultiPointType(shapeType) then 40 + 16 * nPoints
    else if IsPointType(shapeType) then 20
    else 0
  }

  predicate InBox(b: Box, v: Vertex)
  {
    b.minX <= v.x <= b.maxX && b.minY <= v.y <= b.maxY
  }

  predicate BoxWithin(inner: Box, outer: Box)
  {
    outer.minX <= inner.minX && inner.maxX <= outer.maxX && outer.minY <= inner.minY && inner.maxY <= outer.maxY
  }

  function Min(a: real, b: real): real { if a < b then a else b }
  function Max(a: real, b: real): real { if a > b then a else b }

  /** The box grown, vertex by vertex, with `MS_MIN` and `MS_MAX`. */
  function Extend(b: Box, vs: seq<Vertex>): (r: Box)
    ensures BoxWithin(b, r)
    ensures forall j :: 0 <= j < |vs| ==> InBox(r, vs[j])
    decreases |vs|
  {
    if |vs| == 0 then b
    else
      var v := vs[0];
      var r := Extend(Box(Min(b.minX, v.x), Min(b.minY, v.y), Max(b.maxX, v.x), Max(b.maxY, v.y)), vs[1..]);
      assert forall j :: 1 <= j < |vs| ==> vs[j] == vs[1..][j - 1];
      r
  }

  /** The box grown over every vertex of every line. */
  function ExtendLines(b: Box, lines: seq<seq<Vertex>>): (r: Box)
    ensures BoxWithin(b, r)
    ensures forall i, j :: 0 <= i < |lines| && 0 <= j < |lines[i]| ==> InBox(r, lines[i][j])
    decreases |lines|
  {
    if |lines| == 0 then b
    else
      var r := ExtendLines(Extend(b, lines[0]), lines[1..]);
      assert forall i :: 1 <= i < |lines| ==> lines[i] == lines[1..][i - 1];
      r
  }

  /** `msSHPWriteShape`: the record goes at the end of the .shp file, its
      number is the new record count (1-based), the index gains its offset
      and size, and the file's bounds grow over the shape's vertices (the
      first record's bounds start at its first vertex). The call returns
      the old record count. The source reads the first vertex of a point
      shape, and of any shape written first, so those must have one; it
      reads the first line of a multipoint shape. */
  function WriteShape(t: Table, lines: seq<seq<Vertex>>): (r: Appended)
    requires |t.offsets| == |t.sizes|
    requires IsPointType(t.shapeType) || |t.offsets| == 0 ==> |lines| > 0 && |lines[0]| > 0
    requires IsMultiPointType(t.shapeType) ==> |lines| > 0
    ensures r.id == |t.offsets| && |r.table.offsets| == |r.table.sizes| == r.id + 1
    ensures r.table.shapeType == t.shapeType
    ensures r.table.offsets[..r.id] == t.offsets && r.table.sizes[..r.id] == t.sizes
    ensures r.table.offsets[r.id] == t.fileSize
    ensures r.table.fileSize == t.fileSize + r.table.sizes[r.id] + 8
    ensures r.header == RecordHeader(r.id + 1, r.table.sizes[r.id], t.shapeType)
    ensures forall i, j :: 0 <= i < |lines| && 0 <= j < |lines[i]| ==> InBox(r.table.box, lines[i][j])
    ensures |t.offsets| > 0 ==> BoxWithin(t.box, r.table.box)
  {
    var n := |t.offsets|;
    var size := RecordSize(t.shapeType, |lines|, VertexCount(lines));
    var start := if n == 0 then Box(lines[0][0].x, lines[0][0].y, lines[0][0].x, lines[0][0].y) else t.box;
    Appended(Table(t.shapeType, t.offsets + [t.fileSize], t.sizes + [size], t.fileSize + size + 8,
                   ExtendLines(start, lines)),
             n,
             RecordHeader(n + 1, size, t.shapeType))
  }

  /** `msSHPWritePoint`: refused (-1, nothing changes) unless the file
      holds points of type 1; otherwise a 20-byte record like a one-vertex
      shape's. */
  function WritePoint(t: Table, v: Vertex): (r: Appended)
    requires |t.offsets| == |t.sizes|
    ensures t.shapeType != 1 <==> r.id == -1
    ensures r.id == -1 ==> r.table == t
  {
    if t.shapeType != 1 then Appended(t, -1, [])
    else
      var n := |t.offsets|;
      var box := if n == 0 then Box(v.x, v.y, v.x, v.y)
                 else Box(Min(t.box.minX, v.x), Min(t.box.minY, v.y), Max(t.box.maxX, v.x), Max(t.box.maxY, v.y));
      Appended(Table(t.shapeType, t.offsets + [t.fileSize], t.sizes + [20], t.fileSize + 28, box),
               n,
               RecordHeader(n + 1, 20, 1))
  }

  /** Writing a point is writing a shape of one line of that one vertex. */
  lemma WritePointIsWriteShape(t: Table, v: Vertex)
    requires |t.offsets| == |t.sizes| && t.shapeType == 1
    ensures WritePoint(t, v) == WriteShape(t, [[v]])
  {
    var n := |t.offsets|;
    assert [v][1..] == [] && [[v]][1..] == [];
    assert VertexCount([[v]]) == 1;
    assert RecordSize(1, 1, 1) == 20;
    var start := if n == 0 then Box(v.x, v.y, v.x, v.y) else t.box;
    assert ExtendLines(start, [[v]]) == Extend(start, [v]);
    assert Extend(start, [v]) == Box(Min(start.minX, v.x), Min(start.minY, v.y), Max(start.maxX, v.x), Max(start.maxY, v.y));
    assert WritePoint(t, v).table == WriteShape(t, [[v]]).table;
  }

  /** The records of a table lie back to back after the 100-byte header,
      and the file ends after the last one. */
  predicate Contiguous(t: Table)
  {
    |t.offsets| == |t.sizes|
    && (|t.offsets| == 0 ==> t.fileSize == 100)
    && (|t.offsets| > 0 ==>
          t.offsets[0] == 100 && t.fileSize == t.offsets[|t.offsets| - 1] + t.sizes[|t.sizes| - 1] + 8)
    && forall i :: 0 <= i < |t.offsets| - 1 ==> t.offsets[i + 1] == t.offsets[i] + t.sizes[i] + 8
  }

  /** Every offset and size, and the file size, are even, so they survive
      being stored in 16-bit words. */
  predicate Even(t: Table)
  {
    t.fileSize % 2 == 0
    && (forall i :: 0 <= i < |t.offsets| ==> t.offsets[i] % 2 == 0)
    && forall i :: 0 <= i < |t.sizes| ==> t.sizes[i] % 2 == 0
  }

  /** Appending keeps the records back to back. */
  lemma WriteShapeContiguous(t: Table, lines: seq<seq<Vertex>>)
    requires |t.offsets| == |t.sizes|
    requires IsPointType(t.shapeType) || |t.offsets| == 0 ==> |lines| > 0 && |lines[0]| > 0
    requires IsMultiPointType(t.shapeType) ==> |lines| > 0
    requires Contiguous(t)
    ensures Contiguous(WriteShape(t, lines).table)
  {
    var r := WriteShape(t, lines).table;
    var n := |t.offsets|;
    assert r.offsets == t.offsets + [t.fileSize] && r.sizes == t.sizes + [r.sizes[n]];
    AppendContiguous(t.offsets, t.sizes, t.fileSize, r.sizes[n]);
  }

  lemma AppendContiguous(offsets: seq<int>, sizes: seq<int>, fileSize: int, size: int)
    requires Contiguous(Table(0, offsets, sizes, fileSize, Box(0.0, 0.0, 0.0, 0.0)))
    ensures Contiguous(Table(0, offsets + [fileSize], sizes + [size], fileSize + size + 8, Box(0.0, 0.0, 0.0, 0.0)))
  {
    var o, z := offsets + [fileSize], sizes + [size];
    forall i | 0 <= i < |o| - 1 ensures o[i + 1] == o[i] + z[i] + 8 {
      if i < |offsets| - 1 {
        assert o[i + 1] == offsets[i + 1] && o[i] == offsets[i] && z[i] == sizes[i];
      }
    }
  }

  /** Appending keeps every offset and size even: record sizes are even. */
  lemma WriteShapeEven(t: Table, lines: seq<seq<Vertex>>)
    requires |t.offsets| == |t.sizes|
    requires IsPointType(t.shapeType) || |t.offsets| == 0 ==> |lines| > 0 && |lines[0]| > 0
    requires IsMultiPointType(t.shapeType) ==> |lines| > 0
    requires Even(t)
    ensures Even(WriteShape(t, lines).table)
  {
    var r := WriteShape(t, lines).table;
    var n := |t.offsets|;
    assert r.offsets == t.offsets + [t.fileSize] && r.sizes == t.sizes + [r.sizes[n]];
    assert r.sizes[n] % 2 == 0 by {
      WrittenSize(t, lines);
      RecordSizeEven(t.shapeType, |lines|, VertexCount(lines));
    }
    AppendEven(t.offsets, t.sizes, t.fileSize, r.sizes[n]);
  }

  /** The size WriteShape records is the record size of its lines. */
  lemma WrittenSize(t: Table, lines: seq<seq<Vertex>>)
    requires |t.offsets| == |t.sizes|
    requires IsPointType(t.shapeType) || |t.offsets| == 0 ==> |lines| > 0 && |lines[0]| > 0
    requires IsMultiPointType(t.shapeType) ==> |lines| > 0
    ensures WriteShape(t, lines).table.sizes[|t.offsets|] == RecordSize(t.shapeType, |lines|, VertexCount(lines))
  {
  }

  /** Every record size is even. */
  lemma RecordSizeEven(shapeType: int, nParts: int, nPoints: int)
    ensures RecordSize(shapeType, nParts, nPoints) % 2 == 0
  {
  }

  lemma AppendEven(offsets: seq<int>, sizes: seq<int>, fileSize: int, size: int)
    requires Even(Table(0, offsets, sizes, fileSize, Box(0.0, 0.0, 0.0, 0.0))) && size % 2 == 0
    ensures Even(Table(0, offsets + [fileSize], sizes + [size], fileSize + size + 8, Box(0.0, 0.0, 0.0, 0.0)))
  {
    var o, z := offsets + [fileSize], sizes + [size];
    assert forall i :: 0 <= i < |offsets| ==> o[i] == offsets[i];
    assert forall i :: 0 <= i < |sizes| ==> z[i] == sizes[i];
  }

  /** The part array the writer stores for lines of the given lengths: the
      first part at vertex `at`, each next one after the previous line. */
  function PartOffsets(lens: seq<nat>, at: int): (r: seq<int>)
    ensures |r| == |lens|
  {
    if |lens| == 0 then [] else [at] + PartOffsets(lens[1..], at + lens[0])
  }

  function Sum(lens: seq<nat>): nat
  {
    if |lens| == 0 then 0 else lens[0] + Sum(lens[1..])
  }

  /** The part array written for lines of the given lengths gives each
      part the vertex count of its line. */
  lemma {:induction false} PartOffsetsCounts(lens: seq<nat>, at: int)
    ensures var parts := PartOffsets(lens, at);
      forall i :: 0 <= i < |lens| ==> PartEnd(parts, at + Sum(lens), i) - parts[i] == lens[i]
  {
    if |lens| > 0 {
      var parts := PartOffsets(lens, at);
      var rest := PartOffsets(lens[1..], at + lens[0]);
      var n := at + Sum(lens);
      assert n == (at + lens[0]) + Sum(lens[1..]);
      assert parts == [at] + rest;
      PartOffsetsCounts(lens[1..], at + lens[0]);
      forall i | 0 <= i < |lens| ensures PartEnd(parts, n, i) - parts[i] == lens[i] {
        if i > 0 {
          assert parts[i] == rest[i - 1] && PartEnd(parts, n, i) == PartEnd(rest, n, i - 1);
          assert lens[i] == lens[1..][i - 1];
        } else if |lens| > 1 {
          assert rest[0] == at + lens[0];
        }
      }
    }
  }

  /** The part array written for non-empty lines reads back as valid parts. */
  lemma PartOffsetsRead(lens: seq<nat>, at: int)
    requires at >= 0 && forall i :: 0 <= i < |lens| ==> lens[i] > 0
    ensures PartsValid(PartOffsets(lens, at), at + Sum(lens))
  {
    PartOffsetsCounts(lens, at);
    PartsValidIff(PartOffsets(lens, at), at + Sum(lens));
  }

  /** The parts `msSHPWriteShape` stores for lines. */
  function WrittenParts<T>(lines: seq<seq<T>>): (r: seq<int>)
    ensures |r| == |lines|
  {
    PartOffsets(Lengths(lines), 0)
  }

  function Lengths<T>(lines: seq<seq<T>>): (r: seq<nat>)
    ensures |r| == |lines| && forall i :: 0 <= i < |lines| ==> r[i] == |lines[i]|
  {
    seq(|lines|, i requires 0 <= i < |lines| => |lines[i]|)
  }

  lemma {:induction false} SumLengths<T>(lines: seq<seq<T>>)
    ensures Sum(Lengths(lines)) == VertexCount(lines)
  {
    if |lines| > 0 {
      SumLengths(lines[1..]);
      assert Lengths(lines)[1..] == Lengths(lines[1..]);
    }
  }

  /** Round trip of the part array: what the writer stores for non-empty
      lines is accepted by the reader, with the same line lengths. */
  lemma WrittenPartsRead<T>(lines: seq<seq<T>>)
    requires forall i :: 0 <= i < |lines| ==> |lines[i]| > 0
    ensures var parts := WrittenParts(lines);
      PartsValid(parts, VertexCount(lines))
      && forall i :: 0 <= i < |lines| ==> PartEnd(parts, VertexCount(lines), i) - parts[i] == |lines[i]|
  {
    var parts := WrittenParts(lines);
    assert Sum(Lengths(lines)) == VertexCount(lines) by { SumLengths(lines); }
    assert PartsValid(parts, Sum(Lengths(lines))) by { PartOffsetsRead(Lengths(lines), 0); }
    assert forall i :: 0 <= i < |lines| ==> PartEnd(parts, Sum(Lengths(lines)), i) - parts[i] == Lengths(lines)[i] by {
      PartOffsetsCounts(Lengths(lines), 0);
    }
  }

  lemma LE32Slice(b: seq<Byte>, at: nat)
    requires at + 4 <= |b|
    ensures LE32(b, at) == LE32(b[at..at + 4], 0)
  {
  }

  /** The 12-byte header of record number `number` with `size` bytes of
      content: number and size in 16-bit words big-endian, shape type
      little-endian. */
  function RecordHeader(number: int, size: int, shapeType: int): (h: seq<Byte>)
    ensures |h| == 12
  {
    BEBytes(number) + BEBytes(Quot(size, 2)) + LEBytes(shapeType)
  }

  /** The record header reads back as the record number, the content size
      in 16-bit words and the shape type. */
  lemma RecordHeaderReads(number: int, size: int, shapeType: int)
    ensures var h := RecordHeader(number, size, shapeType);
      BE32(h, 0) == number % Two32 && BE32(h, 4) == Quot(size, 2) % Two32 && LE32(h, 8) == shapeType % Two32
  {
    var h := RecordHeader(number, size, shapeType);
    var a, b, c := BEBytes(number), BEBytes(Quot(size, 2)), LEBytes(shapeType);
    assert h == a + b + c;
    assert h[0..4] == a && h[4..8] == b;
    assert h[8..12] == c;
    BE32Slice(h, 0);
    BE32Slice(h, 4);
    LE32Slice(h, 8);
  }

  // ---------------------------------------------------------------------
  // Keeping at most maxfeatures shapes (msShapeFileLayerWhichShapes)
  // ---------------------------------------------------------------------

  /** Number of selected shapes from index `i` on. */
  function CountFrom(status: seq<bool>, i: nat): nat
    decreases |status| - i
  {
    if i >= |status| then 0 else (if status[i] then 1 else 0) + CountFrom(status, i + 1)
  }

  /** The selection after trimming: a shape stays selected when it was and
      at most `maxfeatures` selected shapes lie at or after it. */
  function Trimmed(status: seq<bool>, maxfeatures: int): (r: seq<bool>)
    ensures |r| == |status|
  {
    seq(|status|, i requires 0 <= i < |status| => status[i] && CountFrom(status, i) <= maxfeatures)
  }

  /** The trimming loop: walking from the last shape down, count the
      selected shapes and clear each one once the count passes
      `maxfeatures`; a `maxfeatures` of 0 or less keeps everything. */
  method TrimToMax(status: seq<bool>, maxfeatures: int) returns (r: seq<bool>)
    ensures maxfeatures <= 0 ==> r == status
    ensures maxfeatures > 0 ==> r == Trimmed(status, maxfeatures)
  {
    r := status;
    if maxfeatures > 0 {
      var n1 := 0;
      var i := |status|;
      while i > 0
        invariant 0 <= i <= |status| && |r| == |status|
        invariant n1 == CountFrom(status, i)
        invariant forall j :: 0 <= j < i ==> r[j] == status[j]
        invariant forall j :: i <= j < |status| ==> r[j] == (status[j] && CountFrom(status, j) <= maxfeatures)
      {
        i := i - 1;
        var n2 := if status[i] then 1 else 0;
        n1 := n1 + n2;
        if n2 == 1 && n1 > maxfeatures {
          r := r[i := false];
        }
      }
    }
  }

  /** Trimming only clears selections and leaves exactly
      min(maxfeatures, number selected) shapes selected. */
  lemma TrimmedCount(status: seq<bool>, maxfeatures: int)
    requires maxfeatures > 0
    ensures forall i :: 0 <= i < |status| && Trimmed(status, maxfeatures)[i] ==> status[i]
    ensures CountFrom(Trimmed(status, maxfeatures), 0) == Min'(maxfeatures, CountFrom(status, 0))
  {
    TrimmedCountFrom(status, maxfeatures, 0);
  }

  function Min'(a: int, b: int): int { if a < b then a else b }

  lemma {:induction false} TrimmedCountFrom(status: seq<bool>, maxfeatures: int, i: nat)
    requires maxfeatures > 0 && i <= |status|
    ensures CountFrom(Trimmed(status, maxfeatures), i) == Min'(maxfeatures, CountFrom(status, i))
    decreases |status| - i
  {
    if i < |status| {
      TrimmedCountFrom(status, maxfeatures, i + 1);
    }
  }

  // ---------------------------------------------------------------------
  // The base name (msSHPOpen)
  // ---------------------------------------------------------------------

  predicate IsSpecial(c: char) { c == '.' || c == '/' || c == '\\' }

  /** The backward scan of `msSHPOpen`: from `i` down to the first index
      above 0 holding a '.', '/' or '\\', or to 0. */
  function ScanBack(s: string, i: nat): (j: nat)
    requires i < |s|
    ensures j <= i && (j == 0 || IsSpecial(s[j]))
    ensures forall q :: j < q <= i ==> !IsSpecial(s[q])
  {
    if i > 0 && !IsSpecial(s[i]) then ScanBack(s, i - 1) else i
  }

  /** The base name as written: the scan starts at `strlen - 1`, which for
      an empty name is -1, and then reads the character before the
      string; that read is `None` here. */
  function BaseNameAsWritten(s: string): (r: Option<string>)
    ensures r.None? <==> s == ""
  {
    if |s| == 0 then None
    else
      var i := ScanBack(s, |s| - 1);
      Some(if s[i] == '.' then s[..i] else s)
  }

  /** The base name with the empty name left as it is. */
  function BaseName(s: string): (r: string)
    ensures s != "" ==> BaseNameAsWritten(s) == Some(r)
  {
    if |s| == 0 then s else BaseNameAsWritten(s).value
  }

  /** An extension starts at `p`: a '.' with no '.', '/' or '\\' after it. */
  predicate ExtensionAt(s: string, p: int)
  {
    0 <= p < |s| && s[p] == '.' && forall q :: p < q < |s| ==> !IsSpecial(s[q])
  }

  /** The name is cut at its last '.' exactly when no '/' or '\\' follows
      that '.'; otherwise it is kept whole. */
  lemma BaseNameCut(s: string)
    ensures forall p :: ExtensionAt(s, p) ==> BaseName(s) == s[..p]
    ensures BaseName(s) == s || exists p :: ExtensionAt(s, p) && BaseName(s) == s[..p]
  {
    if |s| > 0 {
      var i := ScanBack(s, |s| - 1);
      if s[i] == '.' {
        assert ExtensionAt(s, i);
      }
    }
  }

  /** The empty name is where the two differ. */
  lemma BaseNameOfEmpty()
    ensures BaseNameAsWritten("") == None && BaseName("") == ""
  {
  }
}

