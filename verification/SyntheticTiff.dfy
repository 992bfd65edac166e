/**
 The single-tile TIFF file a codec call is framed in (TIFF Revision 6.0, section 2), and a reader
 of such files that knows nothing of how they are written.
 */
module SyntheticTiff {
  import opened Wrappers
  import opened Bsq

  const U32 := 0x1_0000_0000

  type u16 = x: int | 0 <= x < 0x1_0000
  type u32 = x: int | 0 <= x < U32

  const SHORT: u16 := 3
  const LONG: u16 := 4
  const UNDEFINED: u16 := 7

  /** A size kept in 32 bits. */
  function AsU32(n: nat): u32 { n % U32 }

  function Le16(x: u16): (b: seq<byte>)
    ensures |b| == 2
  {
    [(x % 256) as byte, (x / 256) as byte]
  }

  function Le32(x: u32): (b: seq<byte>)
    ensures |b| == 4
  {
    Le16(x % 0x1_0000) + Le16(x / 0x1_0000)
  }

  datatype Entry = Entry(tag: u16, kind: u16, count: u32, value: u32)

  function EntryBytes(e: Entry): (b: seq<byte>)
    ensures |b| == 12
  {
    Le16(e.tag) + Le16(e.kind) + Le32(e.count) + Le32(e.value)
  }

  /** Blocks of twelve bytes one after the other. */
  function Flat(blocks: seq<seq<byte>>): (b: seq<byte>)
    requires forall k | 0 <= k < |blocks| :: |blocks[k]| == 12
    ensures |b| == 12 * |blocks|
  {
    if blocks == [] then [] else Flat(blocks[..|blocks| - 1]) + blocks[|blocks| - 1]
  }

  function Blocks(es: seq<Entry>): (blocks: seq<seq<byte>>)
    ensures |blocks| == |es|
    ensures forall k | 0 <= k < |es| :: |blocks[k]| == 12
  {
    seq(|es|, k requires 0 <= k < |es| => EntryBytes(es[k]))
  }

  function Printed(es: seq<Entry>): (b: seq<byte>)
    ensures |b| == 12 * |es|
  {
    Flat(Blocks(es))
  }

  /** What a tile needs to be framed. */
  datatype Tile = Tile(data: seq<byte>, compression: u16, bitsPerSample: u16, samplesPerPixel: u16, photometric: u16,
                       planarConfig: u16, predictor: u16, width: u32, height: u32, sampleFormat: u16,
                       jpegTables: Option<seq<byte>>)
  {
    function EntryCount(): u16 {
      12 + (if predictor != 1 then 1 else 0) + (if jpegTables.Some? then 1 else 0)
    }

    function TablesOffset(): nat { 8 + 2 + EntryCount() * 12 + 4 }

    function Tables(): seq<byte> { jpegTables.GetOr([]) }

    function DataOffset(): nat { TablesOffset() + |Tables()| }

    function Size(): nat { DataOffset() + |data| }
  }

  function Preamble(count: u16): seq<byte> {
    [0x49, 0x49] + Le16(42) + Le32(8) + Le16(count)
  }

  // The writer.

  /** A growing buffer of bytes; the entries written to it are kept as a ghost list. */
  class ByteBuffer {
    var bytes: seq<byte>
    ghost var announced: u16
    ghost var entries: seq<Entry>

    ghost predicate Listing()
      reads this
    {
      bytes == Preamble(announced) + Printed(entries)
    }

    constructor (count: u16)
      ensures Listing() && announced == count && entries == []
    {
      announced, entries := count, [];
      bytes := [0x49, 0x49] + Le16(42) + Le32(8) + Le16(count);
    }

    method WriteIfdEntry(tag: u16, kind: u16, count: u32, value: u32)
      requires Listing()
      modifies this
      ensures Listing() && announced == old(announced)
      ensures entries == old(entries) + [Entry(tag, kind, count, value)]
    {
      PrintedSnoc(Preamble(announced), entries, Entry(tag, kind, count, value));
      bytes := bytes + Le16(tag);
      bytes := bytes + Le16(kind);
      bytes := bytes + Le32(count);
      bytes := bytes + Le32(value);
      entries := entries + [Entry(tag, kind, count, value)];
    }
  }

  lemma PrintedSnoc(head: seq<byte>, es: seq<Entry>, e: Entry)
    ensures head + Printed(es) + Le16(e.tag) + Le16(e.kind) + Le32(e.count) + Le32(e.value) == head + Printed(es + [e])
  {
    assert Blocks(es + [e]) == Blocks(es) + [EntryBytes(e)];
    assert Blocks(es + [e])[..|es|] == Blocks(es);
    Regroup(head, Printed(es), Le16(e.tag), Le16(e.kind), Le32(e.count), Le32(e.value));
  }

  lemma Regroup<T>(head: seq<T>, s: seq<T>, a: seq<T>, b: seq<T>, c: seq<T>, d: seq<T>)
    ensures head + s + a + b + c + d == head + (s + (a + b + c + d))
  {
  }

  /** The entries of the directory of a tile, in the order they are written. */
  ghost function Entries(t: Tile): seq<Entry> {
    TileEntries(t)
    + (if t.jpegTables.Some? then [Entry(347, UNDEFINED, AsU32(|t.Tables()|), AsU32(t.TablesOffset()))] else [])
  }

  ghost function ImageEntries(t: Tile): seq<Entry> {
    [Entry(256, LONG, 1, t.width),
     Entry(257, LONG, 1, t.height),
     Entry(258, SHORT, 1, t.bitsPerSample),
     Entry(259, SHORT, 1, t.compression),
     Entry(262, SHORT, 1, t.photometric),
     Entry(277, SHORT, 1, t.samplesPerPixel),
     Entry(284, SHORT, 1, t.planarConfig)]
    + (if t.predictor != 1 then [Entry(317, SHORT, 1, t.predictor)] else [])
  }

  ghost function TileEntries(t: Tile): seq<Entry> {
    ImageEntries(t)
    + [Entry(322, LONG, 1, t.width),
       Entry(323, LONG, 1, t.height),
       Entry(324, LONG, 1, AsU32(t.DataOffset())),
       Entry(325, LONG, 1, AsU32(|t.data|)),
       Entry(339, SHORT, 1, t.sampleFormat)]
  }

  /** The layout: preamble, directory, a next-directory offset of zero, JPEG tables, tile data. */
  ghost predicate LaidOut(file: seq<byte>, t: Tile) {
    file == Preamble(t.EntryCount()) + Printed(Entries(t)) + Le32(0) + t.Tables() + t.data
  }

  /** Tags 256 to 317; the predictor only when there is one. */
  method WriteImageEntries(buf: ByteBuffer, t: Tile)
    requires buf.Listing() && buf.entries == []
    modifies buf
    ensures buf.Listing() && buf.announced == old(buf.announced) && buf.entries == ImageEntries(t)
  {
    buf.WriteIfdEntry(256, LONG, 1, t.width);
    buf.WriteIfdEntry(257, LONG, 1, t.height);
    buf.WriteIfdEntry(258, SHORT, 1, t.bitsPerSample);
    buf.WriteIfdEntry(259, SHORT, 1, t.compression);
    buf.WriteIfdEntry(262, SHORT, 1, t.photometric);
    buf.WriteIfdEntry(277, SHORT, 1, t.samplesPerPixel);
    buf.WriteIfdEntry(284, SHORT, 1, t.planarConfig);
    if t.predictor != 1 {
      buf.WriteIfdEntry(317, SHORT, 1, t.predictor);
    }
  }

  /** Tags 322 to 339. */
  method WriteTileEntries(buf: ByteBuffer, t: Tile, dataOffset: nat)
    requires buf.Listing() && buf.entries == ImageEntries(t) && dataOffset == t.DataOffset()
    modifies buf
    ensures buf.Listing() && buf.announced == old(buf.announced) && buf.entries == TileEntries(t)
  {
    buf.WriteIfdEntry(322, LONG, 1, t.width);
    buf.WriteIfdEntry(323, LONG, 1, t.height);
    buf.WriteIfdEntry(324, LONG, 1, AsU32(dataOffset));
    buf.WriteIfdEntry(325, LONG, 1, AsU32(|t.data|));
    buf.WriteIfdEntry(339, SHORT, 1, t.sampleFormat);
  }

  /** The whole directory, entry by entry. */
  method WriteEntries(buf: ByteBuffer, t: Tile, tablesOffset: nat, dataOffset: nat)
    requires buf.Listing() && buf.entries == [] && dataOffset == t.DataOffset() && tablesOffset == t.TablesOffset()
    modifies buf
    ensures buf.Listing() && buf.announced == old(buf.announced) && buf.entries == Entries(t)
  {
    WriteImageEntries(buf, t);
    WriteTileEntries(buf, t, dataOffset);
    if t.jpegTables.Some? {
      buf.WriteIfdEntry(347, UNDEFINED, AsU32(|t.jpegTables.value|), AsU32(tablesOffset));
    }
  }

  method BuildSyntheticTiff(t: Tile) returns (file: seq<byte>)
    ensures LaidOut(file, t)
  {
    var numEntries: u16 := 12;
    if t.predictor != 1 { numEntries := numEntries + 1; }
    if t.jpegTables.Some? { numEntries := numEntries + 1; }
    var ifdSize := 2 + numEntries * 12 + 4;
    var tablesOffset := 8 + ifdSize;
    var tablesLen := if t.jpegTables.Some? then |t.jpegTables.value| else 0;
    var dataOffset := tablesOffset + tablesLen;

    var buf := new ByteBuffer(numEntries);
    WriteEntries(buf, t, tablesOffset, dataOffset);
    ghost var listed := buf.bytes;
    buf.bytes := buf.bytes + Le32(0);
    if t.jpegTables.Some? {
      buf.bytes := buf.bytes + t.jpegTables.value;
    }
    assert buf.bytes == listed + Le32(0) + t.Tables();
    buf.bytes := buf.bytes + t.data;
    file := buf.bytes;
  }

  // The reader.

  function U16At(file: seq<byte>, p: nat): u16
    requires p + 2 <= |file|
  {
    file[p] as int + 256 * (file[p + 1] as int)
  }

  function U32At(file: seq<byte>, p: nat): u32
    requires p + 4 <= |file|
  {
    U16At(file, p) + 0x1_0000 * U16At(file, p + 2)
  }

  function EntryAt(file: seq<byte>, p: nat): Entry
    requires p + 12 <= |file|
  {
    Entry(U16At(file, p), U16At(file, p + 2), U32At(file, p + 4), U32At(file, p + 8))
  }

  /** An image file directory and the offset of the one after it. */
  datatype Directory = Directory(entries: seq<Entry>, next: u32)

  function EntriesAt(file: seq<byte>, p: nat, n: nat): seq<Entry>
    requires p + 12 * n <= |file|
  {
    seq(n, k requires 0 <= k < n => EntryAt(file, p + 12 * k))
  }

  /** The first directory of a little-endian TIFF file, or nothing if the file is not one or is cut short. */
  function ReadDirectory(file: seq<byte>): Option<Directory> {
    if |file| < 8 || file[0] != 0x49 || file[1] != 0x49 || U16At(file, 2) != 42 then None
    else
      var at := U32At(file, 4);
      if at + 2 > |file| then None
      else
        var n := U16At(file, at);
        if at + 2 + 12 * n + 4 > |file| then None
        else Some(Directory(EntriesAt(file, at + 2, n), U32At(file, at + 2 + 12 * n)))
  }

  /** The first entry with a tag. */
  function Lookup(es: seq<Entry>, tag: u16): Option<Entry> {
    if es == [] then None
    else if es[0].tag == tag then Some(es[0])
    else Lookup(es[1..], tag)
  }

  /** The bytes of an UNDEFINED value, type 7: in the entry itself when at most four, elsewhere in the file otherwise. */
  function UndefinedBytes(file: seq<byte>, e: Entry): Option<seq<byte>> {
    if e.kind != 7 then None
    else if e.count <= 4 then Some(Le32(e.value)[..e.count])
    else if e.value + e.count <= |file| then Some(file[e.value..e.value + e.count])
    else None
  }

  /** The bytes of the only tile. */
  function TileBytes(file: seq<byte>, es: seq<Entry>): Option<seq<byte>> {
    var offset, size := Lookup(es, 324), Lookup(es, 325);
    if offset.None? || size.None? || LongOf(offset) + LongOf(size) > |file| then None
    else Some(file[LongOf(offset)..LongOf(offset) + LongOf(size)])
  }

  /** A SHORT value, type 3, sits in the first two bytes of the value field. */
  function ShortOf(e: Option<Entry>, default: u16): u16 {
    if e.Some? && e.value.kind == 3 then e.value.value % 0x1_0000 else default
  }

  /** Where a LONG value is expected, type 4, which fills the value field, a SHORT one will do. */
  function LongOf(e: Option<Entry>): u32 {
    if e.None? then 0
    else if e.value.kind == 4 then e.value.value
    else ShortOf(e, 0)
  }

  function JpegTablesOf(file: seq<byte>, es: seq<Entry>): Option<seq<byte>> {
    var e := Lookup(es, 347);
    if e.None? then None else UndefinedBytes(file, e.value)
  }

  /** Everything a decoder reads through the entries. */
  function TileFrom(file: seq<byte>, es: seq<Entry>): Option<Tile> {
    var data := TileBytes(file, es);
    if data.None? then None
    else
      Some(Tile(data.value, ShortOf(Lookup(es, 259), 1), ShortOf(Lookup(es, 258), 1), ShortOf(Lookup(es, 277), 1),
                ShortOf(Lookup(es, 262), 0), ShortOf(Lookup(es, 284), 1), ShortOf(Lookup(es, 317), 1),
                LongOf(Lookup(es, 322)), LongOf(Lookup(es, 323)), ShortOf(Lookup(es, 339), 1),
                JpegTablesOf(file, es)))
  }

  function ReadTile(file: seq<byte>): Option<Tile> {
    var d := ReadDirectory(file);
    if d.None? then None else TileFrom(file, d.value.entries)
  }

  // Printing, then reading.

  lemma EntriesCounted(t: Tile)
    ensures |Entries(t)| == t.EntryCount()
  {
  }

  ghost predicate Ascending(es: seq<Entry>) {
    forall i, j | 0 <= i < j < |es| :: es[i].tag < es[j].tag
  }

  /** Tags ascend strictly, as TIFF demands of a directory. */
  lemma EntriesAscend(t: Tile)
    ensures Ascending(Entries(t))
  {
    var es := Entries(t);
    forall i | 0 < i < |es| ensures es[i - 1].tag < es[i].tag {
    }
    AscendingFromSteps(es);
  }

  lemma {:induction false} AscendingFromSteps(es: seq<Entry>)
    requires forall i | 0 < i < |es| :: es[i - 1].tag < es[i].tag
    ensures Ascending(es)
  {
    if |es| > 0 {
      var front := es[..|es| - 1];
      AscendingFromSteps(front);
      forall i | 0 <= i < |es| - 1 ensures es[i].tag < es[|es| - 1].tag {
        assert front[i].tag <= front[|front| - 1].tag;
      }
      forall i, j | 0 <= i < j < |es| ensures es[i].tag < es[j].tag {
        if j < |es| - 1 {
          assert front[i].tag < front[j].tag;
        }
      }
    }
  }

  lemma {:induction false} LookupAt(es: seq<Entry>, k: nat)
    requires Ascending(es) && k < |es|
    ensures Lookup(es, es[k].tag) == Some(es[k])
  {
    if k > 0 {
      assert es[0].tag < es[k].tag;
      LookupAt(es[1..], k - 1);
    }
  }

  lemma {:induction false} LookupAbsent(es: seq<Entry>, tag: u16)
    requires forall k | 0 <= k < |es| :: es[k].tag != tag
    ensures Lookup(es, tag) == None
  {
    if es != [] {
      LookupAbsent(es[1..], tag);
    }
  }

  lemma U16Back(file: seq<byte>, p: nat, x: u16)
    requires p + 2 <= |file| && file[p..p + 2] == Le16(x)
    ensures U16At(file, p) == x
  {
    assert file[p] == file[p..p + 2][0] && file[p + 1] == file[p..p + 2][1];
  }

  lemma U32Back(file: seq<byte>, p: nat, x: u32)
    requires p + 4 <= |file| && file[p..p + 4] == Le32(x)
    ensures U32At(file, p) == x
  {
    assert file[p..p + 2] == file[p..p + 4][..2];
    assert file[p + 2..p + 4] == file[p..p + 4][2..];
    U16Back(file, p, x % 0x1_0000);
    U16Back(file, p + 2, x / 0x1_0000);
  }

  /** A slice of a part of a sequence is a slice of the sequence. */
  lemma SliceOfPart<T>(s: seq<T>, p: nat, part: seq<T>, i: nat, m: nat, piece: seq<T>)
    requires p + |part| <= |s| && s[p..p + |part|] == part
    requires i + m <= |part| && part[i..i + m] == piece
    ensures s[p + i..p + i + m] == piece
  {
    var found := s[p + i..p + i + m];
    forall k | 0 <= k < m ensures found[k] == piece[k] {
      assert piece[k] == part[i + k];
      assert part[i + k] == s[p + (i + k)];
    }
  }

  /** A concatenation of four parts holds each part at its place. */
  lemma Split<T>(all: seq<T>, a: seq<T>, b: seq<T>, c: seq<T>, d: seq<T>)
    requires all == a + b + c + d
    ensures all[0..0 + |a|] == a && all[|a|..|a| + |b|] == b
    ensures all[|a| + |b|..|a| + |b| + |c|] == c
    ensures all[|a| + |b| + |c|..|a| + |b| + |c| + |d|] == d
  {
  }

  /** The same at position p of a longer sequence. */
  lemma Pieces<T>(s: seq<T>, p: nat, a: seq<T>, b: seq<T>, c: seq<T>, d: seq<T>, all: seq<T>)
    requires all == a + b + c + d
    requires p + |all| <= |s| && s[p..p + |all|] == all
    ensures s[p..p + |a|] == a && s[p + |a|..p + |a| + |b|] == b
    ensures s[p + |a| + |b|..p + |a| + |b| + |c|] == c
    ensures s[p + |a| + |b| + |c|..p + |a| + |b| + |c| + |d|] == d
  {
    Split(all, a, b, c, d);
    SliceOfPart(s, p, all, 0, |a|, a);
    SliceOfPart(s, p, all, |a|, |b|, b);
    SliceOfPart(s, p, all, |a| + |b|, |c|, c);
    SliceOfPart(s, p, all, |a| + |b| + |c|, |d|, d);
  }

  lemma EntryBack(file: seq<byte>, p: nat, e: Entry)
    requires p + 12 <= |file| && file[p..p + 12] == EntryBytes(e)
    ensures EntryAt(file, p) == e
  {
    Pieces(file, p, Le16(e.tag), Le16(e.kind), Le32(e.count), Le32(e.value), EntryBytes(e));
    U16Back(file, p, e.tag);
    U16Back(file, p + 2, e.kind);
    U32Back(file, p + 4, e.count);
    U32Back(file, p + 8, e.value);
  }

  lemma {:induction false} FlatAt(blocks: seq<seq<byte>>, k: nat)
    requires forall j | 0 <= j < |blocks| :: |blocks[j]| == 12
    requires k < |blocks|
    ensures Flat(blocks)[12 * k..12 * k + 12] == blocks[k]
  {
    var front, last := Flat(blocks[..|blocks| - 1]), blocks[|blocks| - 1];
    assert Flat(blocks) == front + last;
    if k < |blocks| - 1 {
      FlatAt(blocks[..|blocks| - 1], k);
      assert (front + last)[12 * k..12 * k + 12] == front[12 * k..12 * k + 12];
    } else {
      assert (front + last)[12 * k..12 * k + 12] == last;
    }
  }

  lemma BlockAt(file: seq<byte>, p: nat, blocks: seq<seq<byte>>, k: nat)
    requires forall j | 0 <= j < |blocks| :: |blocks[j]| == 12
    requires p + 12 * |blocks| <= |file| && file[p..p + 12 * |blocks|] == Flat(blocks) && k < |blocks|
    ensures file[p + 12 * k..p + 12 * k + 12] == blocks[k]
  {
    FlatAt(blocks, k);
    SliceOfPart(file, p, Flat(blocks), 12 * k, 12, blocks[k]);
  }

  lemma EntryOfPrinted(file: seq<byte>, p: nat, es: seq<Entry>, k: nat)
    requires p + 12 * |es| <= |file| && file[p..p + 12 * |es|] == Printed(es) && k < |es|
    ensures EntryAt(file, p + 12 * k) == es[k]
  {
    BlockAt(file, p, Blocks(es), k);
    EntryBack(file, p + 12 * k, es[k]);
  }

  /** The entries printed from position p on are read back one by one. */
  lemma EntriesBack(file: seq<byte>, p: nat, es: seq<Entry>)
    requires p + 12 * |es| <= |file| && file[p..p + 12 * |es|] == Printed(es)
    ensures EntriesAt(file, p, |es|) == es
  {
    var read := EntriesAt(file, p, |es|);
    forall k | 0 <= k < |es| ensures read[k] == es[k] {
      EntryOfPrinted(file, p, es, k);
    }
  }

  lemma PreambleBack(file: seq<byte>, n: u16)
    requires |file| >= 10 && file[..10] == Preamble(n)
    ensures file[0] == 0x49 && file[1] == 0x49
    ensures U16At(file, 2) == 42 && U32At(file, 4) == 8 && U16At(file, 8) == n
  {
    assert file[0] == file[..10][0] && file[1] == file[..10][1];
    assert file[0..0 + 2 + 2 + 4 + 2] == file[..10];
    Pieces(file, 0, [0x49, 0x49], Le16(42), Le32(8), Le16(n), Preamble(n));
    U16Back(file, 2, 42);
    U32Back(file, 4, 8);
    U16Back(file, 8, n);
  }

  /** Reading a directory printed after a header gives exactly its entries. */
  lemma DirectoryBack(file: seq<byte>, es: seq<Entry>, rest: seq<byte>)
    requires |es| < 0x1_0000 && file == Preamble(|es|) + Printed(es) + Le32(0) + rest
    ensures ReadDirectory(file) == Some(Directory(es, 0))
  {
    var n := |es|;
    Parts(file, Preamble(n), Printed(es), Le32(0), rest);
    PreambleBack(file, n);
    U32Back(file, 10 + 12 * n, 0);
    EntriesBack(file, 10, es);
  }

  lemma Parts(file: seq<byte>, head: seq<byte>, body: seq<byte>, tail: seq<byte>, rest: seq<byte>)
    requires file == head + body + tail + rest
    ensures file[..|head|] == head && file[|head|..|head| + |body|] == body
    ensures file[|head| + |body|..|head| + |body| + |tail|] == tail
  {
    Split(file, head, body, tail, rest);
  }

  /** A file printed for a tile has exactly its entries, no second directory, and the data where the entries say. */
  lemma DirectoryOfTile(file: seq<byte>, t: Tile)
    requires LaidOut(file, t) && t.Size() < U32
    ensures ReadDirectory(file) == Some(Directory(Entries(t), 0))
    ensures HoldsData(file, t)
  {
    EntriesCounted(t);
    assert file == Preamble(t.EntryCount()) + Printed(Entries(t)) + Le32(0) + (t.Tables() + t.data);
    DirectoryBack(file, Entries(t), t.Tables() + t.data);
  }

  // What a list of entries says about a tile.

  ghost predicate HasImage(es: seq<Entry>, t: Tile) {
    && Lookup(es, 256) == Some(Entry(256, LONG, 1, t.width))
    && Lookup(es, 257) == Some(Entry(257, LONG, 1, t.height))
    && Lookup(es, 258) == Some(Entry(258, SHORT, 1, t.bitsPerSample))
    && Lookup(es, 259) == Some(Entry(259, SHORT, 1, t.compression))
    && Lookup(es, 262) == Some(Entry(262, SHORT, 1, t.photometric))
    && Lookup(es, 277) == Some(Entry(277, SHORT, 1, t.samplesPerPixel))
    && Lookup(es, 284) == Some(Entry(284, SHORT, 1, t.planarConfig))
  }

  ghost predicate HasLayout(es: seq<Entry>, t: Tile) {
    && Lookup(es, 322) == Some(Entry(322, LONG, 1, t.width))
    && Lookup(es, 323) == Some(Entry(323, LONG, 1, t.height))
    && Lookup(es, 324) == Some(Entry(324, LONG, 1, AsU32(t.DataOffset())))
    && Lookup(es, 325) == Some(Entry(325, LONG, 1, AsU32(|t.data|)))
    && Lookup(es, 339) == Some(Entry(339, SHORT, 1, t.sampleFormat))
  }

  ghost predicate HasOptions(es: seq<Entry>, t: Tile) {
    && Lookup(es, 317) == (if t.predictor == 1 then None else Some(Entry(317, SHORT, 1, t.predictor)))
    && Lookup(es, 347) == (if t.jpegTables.None? then None
                           else Some(Entry(347, UNDEFINED, AsU32(|t.Tables()|), AsU32(t.TablesOffset()))))
  }

  /** Every field of the tile is found under its tag, and the optional ones only when they apply. */
  lemma EntriesDescribe(t: Tile)
    ensures HasImage(Entries(t), t) && HasLayout(Entries(t), t) && HasOptions(Entries(t), t)
  {
    ImageFields(t);
    LayoutFields(t);
    OptionalFields(t);
  }

  lemma ImageFields(t: Tile)
    ensures HasImage(Entries(t), t)
  {
    EntriesAscend(t);
    var es := Entries(t);
    LookupAt(es, 0);
    LookupAt(es, 1);
    LookupAt(es, 2);
    LookupAt(es, 3);
    LookupAt(es, 4);
    LookupAt(es, 5);
    LookupAt(es, 6);
  }

  lemma LayoutFields(t: Tile)
    ensures HasLayout(Entries(t), t)
  {
    EntriesAscend(t);
    var es, first := Entries(t), |ImageEntries(t)|;
    LookupAt(es, first);
    LookupAt(es, first + 1);
    LookupAt(es, first + 2);
    LookupAt(es, first + 3);
    LookupAt(es, first + 4);
  }

  lemma OptionalFields(t: Tile)
    ensures HasOptions(Entries(t), t)
  {
    EntriesAscend(t);
    var es := Entries(t);
    if t.predictor == 1 {
      LookupAbsent(es, 317);
    } else {
      LookupAt(es, 7);
    }
    if t.jpegTables.None? {
      LookupAbsent(es, 347);
    } else {
      LookupAt(es, |es| - 1);
    }
  }

  /** The tables are found again: always when longer than four bytes, otherwise only if they happen to begin their own offset. */
  predicate TablesRecoverable(t: Tile) {
    t.jpegTables.Some? && |t.jpegTables.value| <= 4 ==> t.jpegTables.value <= Le32(t.TablesOffset())
  }

  /** The file holds the tables and the data of the tile at the announced places. */
  ghost predicate HoldsData(file: seq<byte>, t: Tile) {
    && |file| == t.Size() < U32
    && file[t.TablesOffset()..t.DataOffset()] == t.Tables()
    && file[t.DataOffset()..] == t.data
  }

  lemma TablesFound(file: seq<byte>, es: seq<Entry>, t: Tile)
    requires HoldsData(file, t) && HasOptions(es, t)
    ensures JpegTablesOf(file, es) == t.jpegTables <==> TablesRecoverable(t)
  {
    var offset, n := t.TablesOffset(), |t.Tables()|;
    assert AsU32(offset) == offset && AsU32(n) == n;
    if t.jpegTables.Some? && n <= 4 {
      PrefixIsTake(t.Tables(), Le32(offset));
    }
  }

  lemma PrefixIsTake<T>(a: seq<T>, b: seq<T>)
    requires |a| <= |b|
    ensures a <= b <==> b[..|a|] == a
  {
  }

  lemma DataFound(file: seq<byte>, es: seq<Entry>, t: Tile)
    requires HoldsData(file, t) && HasLayout(es, t)
    ensures TileBytes(file, es) == Some(t.data)
  {
    assert AsU32(t.DataOffset()) == t.DataOffset() && AsU32(|t.data|) == |t.data|;
    assert file[t.DataOffset()..t.DataOffset() + |t.data|] == file[t.DataOffset()..];
  }

  lemma TileFound(file: seq<byte>, es: seq<Entry>, t: Tile)
    requires HasImage(es, t) && HasLayout(es, t) && HasOptions(es, t)
    requires TileBytes(file, es) == Some(t.data)
    ensures TileFrom(file, es) == Some(t.(jpegTables := JpegTablesOf(file, es)))
  {
  }

  /**
   Printing and reading are inverse: every field, the tile data and the JPEG tables come back,
   exactly when tables of at most four bytes, which the format keeps in the entry itself, are not lost.
   */
  lemma TileBack(file: seq<byte>, t: Tile)
    requires LaidOut(file, t) && t.Size() < 0x1_0000_0000
    ensures ReadTile(file).Some? && ReadTile(file).value.(jpegTables := t.jpegTables) == t
    ensures ReadTile(file) == Some(t) <==> TablesRecoverable(t)
  {
    DirectoryOfTile(file, t);
    EntriesDescribe(t);
    var es := Entries(t);
    DataFound(file, es, t);
    TileFound(file, es, t);
    TablesFound(file, es, t);
  }

  /** Tables of one to four bytes that do not begin with the low byte of their offset are lost: the entry holds the offset instead. */
  lemma ShortTablesAreLost(t: Tile)
    requires t.jpegTables.Some? && 0 < |t.jpegTables.value| <= 4
    requires t.jpegTables.value[0] != (if t.predictor == 1 then 170 else 182)
    ensures !TablesRecoverable(t)
  {
    assert Le32(t.TablesOffset())[0] == t.TablesOffset() as byte;
  }

  /** The file determines the tile, short tables included. */
  lemma PrintingIsInjective(t: Tile, u: Tile, file: seq<byte>)
    requires LaidOut(file, t) && LaidOut(file, u) && t.Size() < U32 && u.Size() < U32
    ensures t == u
  {
    TileBack(file, t);
    TileBack(file, u);
    DirectoryOfTile(file, t);
    DirectoryOfTile(file, u);
    OptionalFields(t);
    OptionalFields(u);
  }
}
