/**
 Sub-byte samples (1, 2 or 4 bits), packed from the most significant bits down, each row
 padded to a byte boundary (TIFF Revision 6.0, section 3).

 A byte has 8 / bits slots. Slot k of byte j of a row holds sample column j * (8 / bits) + k.
 */
module BitPack {
  import opened Bsq
  import opened BlockGrid

  predicate Width(bits: nat) { bits == 1 || bits == 2 || bits == 4 }

  function BytesPerRow(bits: nat, samplesPerRow: nat): nat { CeilDiv(samplesPerRow * bits, 8) }

  /** Samples in a byte: 8 / bits. */
  function PerByte(bits: nat): nat
    requires Width(bits)
  {
    if bits == 1 then 8 else if bits == 2 then 4 else 2
  }

  /** The byte of a row that holds column col, and the slot in it: col / (8 / bits) and col % (8 / bits). */
  function ByteOf(bits: nat, col: nat): nat
    requires Width(bits)
  {
    if bits == 1 then col / 8 else if bits == 2 then col / 4 else col / 2
  }

  function SlotOf(bits: nat, col: nat): (k: nat)
    requires Width(bits)
    ensures k < PerByte(bits)
  {
    if bits == 1 then col % 8 else if bits == 2 then col % 4 else col % 2
  }

  // ----- bits of one byte -----

  /** A shift count as the bit vector that Dafny shifts by. */
  function Count(n: nat): (c: bv4)
    requires n <= 8
  {
    if n == 0 then 0 else if n == 1 then 1 else if n == 2 then 2 else if n == 3 then 3 else if n == 4 then 4
    else if n == 5 then 5 else if n == 6 then 6 else if n == 7 then 7 else 8
  }

  /** A byte with its low w bits set. */
  function Mask(w: bv4): bv8 requires w < 8 { (1 << w) - 1 }

  /** The w bits of b that sit s above its lowest bit. */
  function Bits(b: bv8, w: bv4, s: bv4): bv8 requires w < 8 && s < 8 { (b >> s) & Mask(w) }

  /** A field of width w may start at distance s. */
  predicate Aligned(w: bv4, s: bv4) { (w == 1 || w == 2 || w == 4) && s < 8 && s & (w - 1) == 0 }

  /** Writing into an empty field sets that field and no other. */
  lemma OrBits(b: bv8, v: bv8, w: bv4, s: bv4, t: bv4)
    requires Aligned(w, s) && Aligned(w, t) && v & Mask(w) == v && Bits(b, w, s) == 0
    ensures Bits(b | (v << s), w, t) == if t == s then v else Bits(b, w, t)
  {}

  /** Distance of slot k from the lowest bit, and the field there. */
  function SlotShift(bits: nat, k: nat): (shift: nat)
    requires Width(bits) && k < PerByte(bits)
    ensures shift + bits <= 8
  {
    if bits == 1 then 7 - k else if bits == 2 then 6 - 2 * k else 4 - 4 * k
  }

  /** The column in slot k of byte j: j * (8 / bits) + k. */
  function Column(bits: nat, j: nat, k: nat): nat
    requires Width(bits)
  {
    if bits == 1 then 8 * j + k else if bits == 2 then 4 * j + k else 2 * j + k
  }

  lemma CountBelow(n: nat)
    requires n < 8
    ensures Count(n) < 8
  {}

  lemma CountInjective(a: nat, b: nat)
    requires a <= 8 && b <= 8 && Count(a) == Count(b)
    ensures a == b
  {}

  /** Width and place of slot k, as bit vectors. */
  function W(bits: nat): (w: bv4)
    requires Width(bits)
    ensures w < 8
  {
    CountBelow(bits);
    Count(bits)
  }

  function S(bits: nat, k: nat): (s: bv4)
    requires Width(bits) && k < PerByte(bits)
    ensures s < 8
  {
    CountBelow(SlotShift(bits, k));
    Count(SlotShift(bits, k))
  }

  lemma AlignedSlot(bits: nat, k: nat)
    requires Width(bits) && k < PerByte(bits)
    ensures Aligned(W(bits), S(bits, k))
  {
    if bits == 2 {
      if k == 0 {} else if k == 1 {} else if k == 2 {} else {}
    } else if bits == 4 {
      if k == 0 {} else {}
    }
  }

  /** Two slots are the same field exactly when they are the same slot. */
  lemma SlotFields(bits: nat, k: nat, m: nat)
    requires Width(bits) && k < PerByte(bits) && m < PerByte(bits)
    ensures S(bits, m) == S(bits, k) <==> m == k
  {
    if S(bits, m) == S(bits, k) {
      CountInjective(SlotShift(bits, m), SlotShift(bits, k));
    }
  }

  lemma SameBits1(a: bv8, b: bv8)
    requires Bits(a, 1, 0) == Bits(b, 1, 0) && Bits(a, 1, 1) == Bits(b, 1, 1) && Bits(a, 1, 2) == Bits(b, 1, 2) && Bits(a, 1, 3) == Bits(b, 1, 3)
    requires Bits(a, 1, 4) == Bits(b, 1, 4) && Bits(a, 1, 5) == Bits(b, 1, 5) && Bits(a, 1, 6) == Bits(b, 1, 6) && Bits(a, 1, 7) == Bits(b, 1, 7)
    ensures a == b
  {}

  lemma SameBits2(a: bv8, b: bv8)
    requires Bits(a, 2, 0) == Bits(b, 2, 0) && Bits(a, 2, 2) == Bits(b, 2, 2) && Bits(a, 2, 4) == Bits(b, 2, 4) && Bits(a, 2, 6) == Bits(b, 2, 6)
    ensures a == b
  {}

  lemma SameBits4(a: bv8, b: bv8)
    requires Bits(a, 4, 0) == Bits(b, 4, 0) && Bits(a, 4, 4) == Bits(b, 4, 4)
    ensures a == b
  {}

  function Slot(b: bv8, bits: nat, k: nat): bv8
    requires Width(bits) && k < PerByte(bits)
  {
    Bits(b, W(bits), S(bits, k))
  }

  /** A byte is its slots. */
  lemma SameSlots(a: bv8, b: bv8, bits: nat)
    requires Width(bits)
    requires forall k: nat | k < PerByte(bits) :: Slot(a, bits, k) == Slot(b, bits, k)
    ensures a == b
  {
    if bits == 1 {
      assert forall k: nat | k < 8 :: Slot(a, 1, k) == Slot(b, 1, k);
      SlotPair(a, b, 1, 0); SlotPair(a, b, 1, 1); SlotPair(a, b, 1, 2); SlotPair(a, b, 1, 3);
      SlotPair(a, b, 1, 4); SlotPair(a, b, 1, 5); SlotPair(a, b, 1, 6); SlotPair(a, b, 1, 7);
      SameBits1(a, b);
    } else if bits == 2 {
      SlotPair(a, b, 2, 0); SlotPair(a, b, 2, 1); SlotPair(a, b, 2, 2); SlotPair(a, b, 2, 3);
      SameBits2(a, b);
    } else {
      SlotPair(a, b, 4, 0); SlotPair(a, b, 4, 1);
      SameBits4(a, b);
    }
  }

  lemma SlotPair(a: bv8, b: bv8, bits: nat, k: nat)
    requires Width(bits) && k < PerByte(bits) && Slot(a, bits, k) == Slot(b, bits, k)
    ensures Bits(a, W(bits), S(bits, k)) == Bits(b, W(bits), S(bits, k))
  {}

  /** b with v ored into slot k. */
  function Put(b: bv8, v: bv8, bits: nat, k: nat): bv8
    requires Width(bits) && k < PerByte(bits)
  {
    b | (v << S(bits, k))
  }

  /** The value fits in a slot. */
  predicate Masked(v: bv8, bits: nat)
    requires Width(bits)
  {
    v & Mask(W(bits)) == v
  }

  lemma EmptyBits(w: bv4, s: bv4)
    requires w < 8 && s < 8
    ensures Bits(0, w, s) == 0
  {}

  lemma EmptySlot(bits: nat, m: nat)
    requires Width(bits) && m < PerByte(bits)
    ensures Slot(0, bits, m) == 0
  {
    EmptyBits(W(bits), S(bits, m));
  }

  /** The fields of two slots are aligned, and they are one field only if the slots are the same. */
  lemma TwoSlots(bits: nat, k: nat, m: nat)
    requires Width(bits) && k < PerByte(bits) && m < PerByte(bits)
    ensures Aligned(W(bits), S(bits, k)) && Aligned(W(bits), S(bits, m))
    ensures S(bits, m) == S(bits, k) <==> m == k
  {
    AlignedSlot(bits, k);
    AlignedSlot(bits, m);
    SlotFields(bits, k, m);
  }

  /** Putting a value into an empty slot sets that slot and no other. */
  lemma PutSlot(b: bv8, v: bv8, bits: nat, k: nat, m: nat)
    requires Width(bits) && k < PerByte(bits) && m < PerByte(bits) && Masked(v, bits) && Slot(b, bits, k) == 0
    ensures Slot(Put(b, v, bits, k), bits, m) == if m == k then v else Slot(b, bits, m)
  {
    TwoSlots(bits, k, m);
    OrBits(b, v, W(bits), S(bits, k), S(bits, m));
  }

  /** The values written into slots 0, 1, ... of an empty byte. */
  function OrAll(bits: nat, vals: seq<bv8>): bv8
    requires Width(bits) && |vals| <= PerByte(bits)
  {
    if vals == [] then 0
    else Put(OrAll(bits, vals[..|vals| - 1]), vals[|vals| - 1], bits, |vals| - 1)
  }

  predicate AllMasked(vals: seq<bv8>, bits: nat)
    requires Width(bits)
  {
    forall i | 0 <= i < |vals| :: Masked(vals[i], bits)
  }

  /** Slot m holds its value once it is written, and nothing before. */
  predicate SlotWritten(b: bv8, bits: nat, vals: seq<bv8>, m: nat)
    requires Width(bits) && m < PerByte(bits)
  {
    Slot(b, bits, m) == if m < |vals| then vals[m] else 0
  }

  lemma SlotStays(b: bv8, bits: nat, vals: seq<bv8>, k: nat, m: nat)
    requires Width(bits) && k < |vals| <= PerByte(bits) && m < PerByte(bits) && Masked(vals[k], bits) && k == |vals| - 1
    requires SlotWritten(b, bits, vals[..k], m) && SlotWritten(b, bits, vals[..k], k)
    ensures SlotWritten(Put(b, vals[k], bits, k), bits, vals, m)
  {
    PutSlot(b, vals[k], bits, k, m);
  }

  /** The slots written hold their values; the others are still empty. */
  lemma {:induction false} OrAllSlots(bits: nat, vals: seq<bv8>, m: nat)
    requires Width(bits) && |vals| <= PerByte(bits) && m < PerByte(bits) && AllMasked(vals, bits)
    ensures SlotWritten(OrAll(bits, vals), bits, vals, m)
  {
    if vals == [] {
      EmptySlot(bits, m);
    } else {
      var k := |vals| - 1;
      OrAllSlots(bits, vals[..k], m);
      OrAllSlots(bits, vals[..k], k);
      SlotStays(OrAll(bits, vals[..k]), bits, vals, k, m);
    }
  }

  // ----- rows of samples -----

  /** The low bits of sample i, 0 past the end of the samples. */
  function LowBits(samples: seq<bv8>, i: nat, bits: nat): bv8
    requires Width(bits)
  {
    if i < |samples| then samples[i] & Mask(W(bits)) else 0
  }

  /** The packed geometry: rows of n samples of the given width, each in a number of bytes. */
  datatype Rows = Rows(bits: nat, n: nat, bytes: nat) {

    /** A row's bytes hold all its columns. */
    predicate Holds()
      requires Width(bits)
    {
      forall col: nat | col < n :: ByteOf(bits, col) < bytes
    }

    /** Sample (row, col) of a packed buffer; 0 past its end. */
    function Sample(packed: seq<bv8>, row: nat, col: nat): bv8
      requires Width(bits)
    {
      var i := row * bytes + ByteOf(bits, col);
      if i < |packed| then Slot(packed[i], bits, SlotOf(bits, col)) else 0
    }

    /** The samples of a packed buffer, row by row. */
    function Unpacked(packed: seq<bv8>, rows: nat): seq<bv8>
      requires Width(bits)
    {
      seq(n * rows, (i: nat) => if n == 0 then 0 else Sample(packed, i / n, i % n))
    }

    /** The value stored for column col of a row: the sample's low bits, 0 past the end of the row or of the samples. */
    function Value(samples: seq<bv8>, row: nat, col: nat): bv8
      requires Width(bits)
    {
      if col < n then LowBits(samples, row * n + col, bits) else 0
    }

    function ByteValues(samples: seq<bv8>, row: nat, j: nat): seq<bv8>
      requires Width(bits)
    {
      seq(PerByte(bits), (k: nat) => Value(samples, row, Column(bits, j, k)))
    }

    function PackedByte(samples: seq<bv8>, row: nat, j: nat): bv8
      requires Width(bits)
    {
      OrAll(bits, ByteValues(samples, row, j))
    }

    /** The packed buffer, row by row. */
    function Packed(samples: seq<bv8>, rows: nat): seq<bv8>
      requires Width(bits)
    {
      seq(bytes * rows, (i: nat) => if bytes == 0 then 0 else PackedByte(samples, i / bytes, i % bytes))
    }

    lemma ValueMasked(samples: seq<bv8>, row: nat, col: nat)
      requires Width(bits)
      ensures Masked(Value(samples, row, col), bits)
    {}

    /** Every slot of a packed byte holds its column's value. */
    lemma PackedSlot(samples: seq<bv8>, row: nat, j: nat, m: nat)
      requires Width(bits) && m < PerByte(bits)
      ensures Slot(PackedByte(samples, row, j), bits, m) == Value(samples, row, Column(bits, j, m))
    {
      forall i | 0 <= i < PerByte(bits)
        ensures Masked(ByteValues(samples, row, j)[i], bits)
      {
        ValueMasked(samples, row, Column(bits, j, i));
      }
      OrAllSlots(bits, ByteValues(samples, row, j), m);
    }

    /** Place of sample (row, col) among the unpacked samples, and of byte j of a row among the packed bytes. */
    lemma UnpackedAt(packed: seq<bv8>, rows: nat, row: nat, col: nat)
      requires Width(bits) && row < rows && col < n
      ensures row * n + col < |Unpacked(packed, rows)|
      ensures Unpacked(packed, rows)[row * n + col] == Sample(packed, row, col)
    {
      MulMono(row + 1, rows, n);
      DivUnique(row, n, col);
    }

    lemma PackedAt(samples: seq<bv8>, rows: nat, row: nat, j: nat)
      requires Width(bits) && row < rows && j < bytes
      ensures row * bytes + j < |Packed(samples, rows)|
      ensures Packed(samples, rows)[row * bytes + j] == PackedByte(samples, row, j)
    {
      MulMono(row + 1, rows, bytes);
      DivUnique(row, bytes, j);
    }
  }

  /** Where the loops look for column col. */
  lemma ColumnSlot(bits: nat, col: nat)
    requires Width(bits)
    ensures col * bits / 8 == ByteOf(bits, col)
    ensures SlotShift(bits, SlotOf(bits, col)) == 8 - bits - col * bits % 8
    ensures Column(bits, ByteOf(bits, col), SlotOf(bits, col)) == col
  {
    if bits == 1 {} else if bits == 2 {} else {}
  }

  /** The geometry of the format: rows padded to whole bytes. */
  function RowsOf(bits: nat, n: nat): Rows { Rows(bits, n, BytesPerRow(bits, n)) }

  /** Every column of a row lies in one of the row's bytes. */
  lemma RowsOfHold(bits: nat, n: nat)
    requires Width(bits)
    ensures RowsOf(bits, n).Holds()
  {
    forall col: nat | col < n ensures ByteOf(bits, col) < BytesPerRow(bits, n) {
      if bits == 1 {} else if bits == 2 {} else {}
    }
  }

  // ----- the format, spelled out -----

  /** The bits of b that start `offset` bits below its highest one. */
  function TopField(b: bv8, bits: nat, offset: nat): bv8 {
    if bits == 1 then
      if offset == 0 then b >> 7
      else if offset == 1 then (b >> 6) & 1
      else if offset == 2 then (b >> 5) & 1
      else if offset == 3 then (b >> 4) & 1
      else if offset == 4 then (b >> 3) & 1
      else if offset == 5 then (b >> 2) & 1
      else if offset == 6 then (b >> 1) & 1
      else b & 1
    else if bits == 2 then
      if offset == 0 then b >> 6
      else if offset == 2 then (b >> 4) & 3
      else if offset == 4 then (b >> 2) & 3
      else b & 3
    else if offset == 0 then b >> 4
    else b & 15
  }

  /** A sample cut to its lowest bits, 0 where there is none. */
  function Low(samples: seq<bv8>, i: nat, bits: nat): bv8 {
    if i >= |samples| then 0
    else if bits == 1 then samples[i] & 1
    else if bits == 2 then samples[i] & 3
    else samples[i] & 15
  }

  /** k is the least number of bytes that holds n samples. */
  predicate RowFills(bits: nat, n: nat, k: nat) { n * bits <= 8 * k < n * bits + 8 }

  lemma RowLength(bits: nat, n: nat, k: nat)
    requires Width(bits)
    ensures RowFills(bits, n, k) <==> k == RowsOf(bits, n).bytes
  {}

  lemma Field1(b: bv8, k: nat)
    requires k < 8
    ensures Slot(b, 1, k) == TopField(b, 1, k)
  {
    if k == 0 {} else if k == 1 {} else if k == 2 {} else if k == 3 {} else if k == 4 {} else if k == 5 {} else if k == 6 {} else {}
  }

  lemma Field2(b: bv8, k: nat)
    requires k < 4
    ensures Slot(b, 2, k) == TopField(b, 2, 2 * k)
  {
    if k == 0 {} else if k == 1 {} else if k == 2 {} else {}
  }

  lemma Field4(b: bv8, k: nat)
    requires k < 2
    ensures Slot(b, 4, k) == TopField(b, 4, 4 * k)
  {
    if k == 0 {} else {}
  }

  /** Where column col starts, in bits from the start of its byte. */
  lemma FieldOffset(bits: nat, col: nat)
    requires Width(bits)
    ensures col * bits % 8 == if bits == 1 then SlotOf(bits, col) else if bits == 2 then 2 * SlotOf(bits, col) else 4 * SlotOf(bits, col)
  {
    if bits == 1 {} else if bits == 2 {} else {}
  }

  lemma InsideRow(bits: nat, col: nat, k: nat)
    requires Width(bits) && col * bits < 8 * k
    ensures ByteOf(bits, col) < k
  {
    if bits == 1 {} else if bits == 2 {} else {}
  }

  /** Slots are counted from the highest bit down. */
  lemma SlotIsField(b: bv8, bits: nat, col: nat)
    requires Width(bits)
    ensures Slot(b, bits, SlotOf(bits, col)) == TopField(b, bits, col * bits % 8)
  {
    FieldOffset(bits, col);
    if bits == 1 {
      Field1(b, SlotOf(bits, col));
    } else if bits == 2 {
      Field2(b, SlotOf(bits, col));
    } else {
      Field4(b, SlotOf(bits, col));
    }
  }

  lemma LowIs(samples: seq<bv8>, i: nat, bits: nat)
    requires Width(bits)
    ensures LowBits(samples, i, bits) == Low(samples, i, bits)
  {}

  /** Sample (row, col) is what stands col * bits bits into row `row` of the packed buffer, whose rows take k bytes; 0 past its end. */
  predicate ReadFrom(samples: seq<bv8>, packed: seq<bv8>, bits: nat, n: nat, k: nat, row: nat, col: nat) {
    var i := row * k + col * bits / 8;
    && row * n + col < |samples|
    && samples[row * n + col] == if i < |packed| then TopField(packed[i], bits, col * bits % 8) else 0
  }

  lemma UnpackedFrom(packed: seq<bv8>, bits: nat, n: nat, rows: nat, row: nat, col: nat, k: nat)
    requires Width(bits) && RowFills(bits, n, k) && row < rows && col < n
    ensures ReadFrom(RowsOf(bits, n).Unpacked(packed, rows), packed, bits, n, k, row, col)
  {
    var g := RowsOf(bits, n);
    RowLength(bits, n, k);
    ColumnSlot(bits, col);
    g.UnpackedAt(packed, rows, row, col);
    var i := row * k + ByteOf(bits, col);
    if i < |packed| {
      SlotIsField(packed[i], bits, col);
    }
  }

  /** col * bits bits into row `row` of the packed buffer stand the lowest bits of sample (row, col), and zeros past the row's last sample. */
  predicate WrittenTo(packed: seq<bv8>, samples: seq<bv8>, bits: nat, n: nat, k: nat, row: nat, col: nat) {
    var i := row * k + col * bits / 8;
    i < |packed| && TopField(packed[i], bits, col * bits % 8) == if col < n then Low(samples, row * n + col, bits) else 0
  }

  lemma PackedField(g: Rows, samples: seq<bv8>, row: nat, col: nat)
    requires Width(g.bits)
    ensures TopField(g.PackedByte(samples, row, ByteOf(g.bits, col)), g.bits, col * g.bits % 8)
            == if col < g.n then Low(samples, row * g.n + col, g.bits) else 0
  {
    var j, m := ByteOf(g.bits, col), SlotOf(g.bits, col);
    ColumnSlot(g.bits, col);
    g.PackedSlot(samples, row, j, m);
    SlotIsField(g.PackedByte(samples, row, j), g.bits, col);
    LowIs(samples, row * g.n + col, g.bits);
  }

  lemma PackedFrom(samples: seq<bv8>, bits: nat, n: nat, rows: nat, row: nat, col: nat, k: nat)
    requires Width(bits) && RowFills(bits, n, k) && row < rows && col * bits < 8 * k
    ensures WrittenTo(RowsOf(bits, n).Packed(samples, rows), samples, bits, n, k, row, col)
  {
    var g, j := RowsOf(bits, n), ByteOf(bits, col);
    RowLength(bits, n, k);
    ColumnSlot(bits, col);
    InsideRow(bits, col, k);
    g.PackedAt(samples, rows, row, j);
    PackedField(g, samples, row, col);
  }

  // ----- unpacking -----

  /** The sample in column col of the row that starts at rowStart, read by byte index and shift. */
  function ReadSample(packed: seq<bv8>, bits: nat, rowStart: nat, col: nat): bv8
    requires Width(bits)
  {
    ColumnSlot(bits, col);
    var bitOffset := col * bits;
    var byteIndex := rowStart + bitOffset / 8;
    var shift := 8 - bits - bitOffset % 8;
    CountBelow(shift);
    if byteIndex < |packed| then Bits(packed[byteIndex], W(bits), Count(shift)) else 0
  }

  lemma SampleRead(g: Rows, packed: seq<bv8>, rows: nat, row: nat, col: nat)
    requires Width(g.bits) && row < rows && col < g.n
    ensures row * g.n + col < |g.Unpacked(packed, rows)|
    ensures g.Unpacked(packed, rows)[row * g.n + col] == ReadSample(packed, g.bits, row * g.bytes, col)
  {
    ColumnSlot(g.bits, col);
    g.UnpackedAt(packed, rows, row, col);
  }

  /** The samples of the row that starts at rowStart. */
  function RowSamples(packed: seq<bv8>, bits: nat, rowStart: nat, n: nat): seq<bv8>
    requires Width(bits)
  {
    seq(n, (col: nat) => ReadSample(packed, bits, rowStart, col))
  }

  /** The inner loop: pushes one row of samples. */
  method UnpackRow(packed: seq<bv8>, bits: nat, samplesPerRow: nat, rowStart: nat, sofar: seq<bv8>) returns (result: seq<bv8>)
    requires Width(bits)
    ensures result == sofar + RowSamples(packed, bits, rowStart, samplesPerRow)
  {
    result := sofar;
    for col := 0 to samplesPerRow
      invariant result == sofar + RowSamples(packed, bits, rowStart, samplesPerRow)[..col]
    {
      result := result + [ReadSample(packed, bits, rowStart, col)];
    }
  }

  lemma RowInside(n: nat, row: nat, rows: nat)
    requires row < rows
    ensures row * n + n == (row + 1) * n <= n * rows
  {
    MulMono(row + 1, rows, n);
  }

  lemma RowSampleAt(g: Rows, packed: seq<bv8>, rows: nat, row: nat, part: seq<bv8>, i: nat)
    requires Width(g.bits) && row < rows && |part| == row * g.n && |part| <= i < |part| + g.n
    ensures i < |g.Unpacked(packed, rows)|
    ensures RowSamples(packed, g.bits, row * g.bytes, g.n)[i - |part|] == g.Unpacked(packed, rows)[i]
  {
    SampleRead(g, packed, rows, row, i - |part|);
  }

  /** Extending a prefix of a sequence by what follows it. */
  lemma PrefixExtends<T>(all: seq<T>, part: seq<T>, more: seq<T>)
    requires part <= all && |part| + |more| <= |all|
    requires forall i | |part| <= i < |part| + |more| :: more[i - |part|] == all[i]
    ensures part + more == all[..|part| + |more|]
  {}

  lemma RowExtends(g: Rows, packed: seq<bv8>, rows: nat, row: nat, part: seq<bv8>)
    requires Width(g.bits) && row < rows && |part| == row * g.n && part <= g.Unpacked(packed, rows)
    ensures |part| + g.n == (row + 1) * g.n <= |g.Unpacked(packed, rows)|
    ensures part + RowSamples(packed, g.bits, row * g.bytes, g.n) <= g.Unpacked(packed, rows)
  {
    RowInside(g.n, row, rows);
    var all, more := g.Unpacked(packed, rows), RowSamples(packed, g.bits, row * g.bytes, g.n);
    assert |part| + |more| <= |all|;
    forall i | |part| <= i < |part| + |more| ensures more[i - |part|] == all[i] {
      RowSampleAt(g, packed, rows, row, part, i);
    }
    PrefixExtends(all, part, more);
  }

  method UnpackSubbyteMsbFirst(packed: seq<bv8>, bits: nat, samplesPerRow: nat, numRows: nat) returns (result: seq<bv8>)
    requires Width(bits)
    ensures result == RowsOf(bits, samplesPerRow).Unpacked(packed, numRows)
    ensures |result| == samplesPerRow * numRows
    ensures forall k: nat, row: nat, col: nat | RowFills(bits, samplesPerRow, k) && row < numRows && col < samplesPerRow ::
              ReadFrom(result, packed, bits, samplesPerRow, k, row, col)
  {
    result := UnpackRows(packed, RowsOf(bits, samplesPerRow), numRows);
    forall k: nat, row: nat, col: nat | RowFills(bits, samplesPerRow, k) && row < numRows && col < samplesPerRow
      ensures ReadFrom(result, packed, bits, samplesPerRow, k, row, col)
    {
      UnpackedFrom(packed, bits, samplesPerRow, numRows, row, col, k);
    }
  }

  /** The outer loop. */
  method UnpackRows(packed: seq<bv8>, g: Rows, numRows: nat) returns (result: seq<bv8>)
    requires Width(g.bits)
    ensures result == g.Unpacked(packed, numRows)
  {
    ghost var expected := g.Unpacked(packed, numRows);
    result := [];
    for row := 0 to numRows
      invariant |result| == row * g.n && result <= expected
    {
      RowExtends(g, packed, numRows, row, result);
      result := UnpackRow(packed, g.bits, g.n, row * g.bytes, result);
    }
    assert result == expected;
  }

  // ----- packing -----

  /** Slots of byte j filled once the columns before col are packed. */
  function Filled(bits: nat, col: nat, j: nat): (k: nat)
    requires Width(bits)
    ensures k <= PerByte(bits)
  {
    var first := Column(bits, j, 0);
    if col <= first then 0 else if col - first < PerByte(bits) then col - first else PerByte(bits)
  }

  /** Packing column col fills one more slot of its own byte and none of the others. */
  lemma FilledNext(bits: nat, col: nat, j: nat)
    requires Width(bits)
    ensures Filled(bits, col + 1, j) == Filled(bits, col, j) + if j == ByteOf(bits, col) then 1 else 0
    ensures j == ByteOf(bits, col) ==> Filled(bits, col, j) == SlotOf(bits, col)
  {
    if bits == 1 {} else if bits == 2 {} else {}
  }

  lemma PutZero(b: bv8, bits: nat, k: nat)
    requires Width(bits) && k < PerByte(bits)
    ensures Put(b, 0, bits, k) == b
  {}

  lemma LastZero(bits: nat, vals: seq<bv8>)
    requires Width(bits) && 0 < |vals| <= PerByte(bits) && vals[|vals| - 1] == 0
    ensures OrAll(bits, vals) == OrAll(bits, vals[..|vals| - 1])
  {
    PutZero(OrAll(bits, vals[..|vals| - 1]), bits, |vals| - 1);
  }

  /** Empty values change nothing. */
  lemma {:induction false} OrZeros(bits: nat, vals: seq<bv8>, k: nat)
    requires Width(bits) && k <= |vals| <= PerByte(bits)
    requires forall i | k <= i < |vals| :: vals[i] == 0
    ensures OrAll(bits, vals) == OrAll(bits, vals[..k])
  {
    if k < |vals| {
      var last := |vals| - 1;
      OrZeros(bits, vals[..last], k);
      LastZero(bits, vals);
      assert vals[..last][..k] == vals[..k];
    } else {
      assert vals[..k] == vals;
    }
  }

  /** Byte j of the row once the columns before col are packed. */
  function Packing(g: Rows, samples: seq<bv8>, row: nat, j: nat, col: nat): bv8
    requires Width(g.bits)
  {
    OrAll(g.bits, g.ByteValues(samples, row, j)[..Filled(g.bits, col, j)])
  }

  lemma OrAllNext(bits: nat, vals: seq<bv8>, k: nat)
    requires Width(bits) && k < |vals| <= PerByte(bits)
    ensures OrAll(bits, vals[..k + 1]) == Put(OrAll(bits, vals[..k]), vals[k], bits, k)
  {
    assert vals[..k + 1][..k] == vals[..k];
  }

  /** Packing column col writes its value into its slot and leaves the other bytes alone. */
  lemma PackingNext(g: Rows, samples: seq<bv8>, row: nat, j: nat, col: nat)
    requires Width(g.bits) && col < g.n
    ensures Packing(g, samples, row, j, col + 1)
            == if j == ByteOf(g.bits, col)
               then Put(Packing(g, samples, row, j, col), g.Value(samples, row, col), g.bits, SlotOf(g.bits, col))
               else Packing(g, samples, row, j, col)
  {
    FilledNext(g.bits, col, j);
    if j == ByteOf(g.bits, col) {
      var k := SlotOf(g.bits, col);
      ColumnSlot(g.bits, col);
      assert g.ByteValues(samples, row, j)[k] == g.Value(samples, row, col);
      OrAllNext(g.bits, g.ByteValues(samples, row, j), k);
    }
  }

  lemma PackingDone(g: Rows, samples: seq<bv8>, row: nat, j: nat)
    requires Width(g.bits)
    ensures Packing(g, samples, row, j, g.n) == g.PackedByte(samples, row, j)
  {
    OrZeros(g.bits, g.ByteValues(samples, row, j), Filled(g.bits, g.n, j));
  }

  /** A buffer that was `start`, once the columns before col are packed into the row that starts at rowStart. */
  ghost function PackedUpTo(g: Rows, samples: seq<bv8>, row: nat, rowStart: nat, start: seq<bv8>, col: nat): (buf: seq<bv8>)
    requires Width(g.bits)
    ensures |buf| == |start|
  {
    seq(|start|, i requires 0 <= i < |start| => PackedUpToAt(g, samples, row, rowStart, start, col, i))
  }

  ghost function PackedUpToAt(g: Rows, samples: seq<bv8>, row: nat, rowStart: nat, start: seq<bv8>, col: nat, i: nat): bv8
    requires Width(g.bits) && i < |start|
  {
    if rowStart <= i < rowStart + g.bytes then Packing(g, samples, row, i - rowStart, col) else start[i]
  }

  /** The bytes of the row are clear. */
  ghost predicate RowClear(g: Rows, rowStart: nat, buf: seq<bv8>) {
    rowStart + g.bytes <= |buf| && forall i: nat | rowStart <= i < rowStart + g.bytes :: buf[i] == 0
  }

  lemma RowStarts(g: Rows, samples: seq<bv8>, row: nat, rowStart: nat, start: seq<bv8>)
    requires Width(g.bits) && RowClear(g, rowStart, start)
    ensures PackedUpTo(g, samples, row, rowStart, start, 0) == start
  {}

  /** Writing the value of column col into its slot is packing one column more. */
  lemma RowAdvances(g: Rows, samples: seq<bv8>, row: nat, rowStart: nat, start: seq<bv8>, buf: seq<bv8>, col: nat,
                    value: bv8, at: nat, next: seq<bv8>)
    requires Width(g.bits) && g.Holds() && rowStart + g.bytes <= |start| && col < g.n
    requires buf == PackedUpTo(g, samples, row, rowStart, start, col)
    requires value == g.Value(samples, row, col) && at == rowStart + ByteOf(g.bits, col) < |buf|
    requires next == buf[at := Put(buf[at], value, g.bits, SlotOf(g.bits, col))]
    ensures next == PackedUpTo(g, samples, row, rowStart, start, col + 1)
  {
    var after := PackedUpTo(g, samples, row, rowStart, start, col + 1);
    forall i: nat | i < |next| ensures next[i] == after[i] {
      if rowStart <= i < rowStart + g.bytes {
        ByteAdvances(g, samples, row, i - rowStart, col, buf[i], next[i]);
      }
    }
  }

  lemma ByteAdvances(g: Rows, samples: seq<bv8>, row: nat, j: nat, col: nat, was: bv8, now: bv8)
    requires Width(g.bits) && col < g.n && was == Packing(g, samples, row, j, col)
    requires now == if j == ByteOf(g.bits, col) then Put(was, g.Value(samples, row, col), g.bits, SlotOf(g.bits, col)) else was
    ensures now == Packing(g, samples, row, j, col + 1)
  {
    PackingNext(g, samples, row, j, col);
  }

  lemma OrIsPut(b: bv8, v: bv8, bits: nat, k: nat, shift: nat)
    requires Width(bits) && k < PerByte(bits) && shift == SlotShift(bits, k)
    ensures Count(shift) < 8 && b | (v << Count(shift)) == Put(b, v, bits, k)
  {
    CountBelow(shift);
  }

  /** Ors a value into a byte, `shift` bits up. */
  method OrInto(value: bv8, bits: nat, k: nat, at: nat, shift: nat, result: array<bv8>)
    requires Width(bits) && k < PerByte(bits) && shift == SlotShift(bits, k) && at < result.Length
    modifies result
    ensures result[..] == old(result[..])[at := Put(old(result[at]), value, bits, k)]
  {
    OrIsPut(result[at], value, bits, k, shift);
    result[at] := result[at] | (value << Count(shift));
  }

  /** Ors a value into the slot of column col of the row that starts at rowStart. */
  method PackSample(value: bv8, bits: nat, col: nat, rowStart: nat, result: array<bv8>)
    requires Width(bits) && rowStart + ByteOf(bits, col) < result.Length
    modifies result
    ensures result[..] == old(result[..])[rowStart + ByteOf(bits, col) :=
                            Put(old(result[rowStart + ByteOf(bits, col)]), value, bits, SlotOf(bits, col))]
  {
    if value == 0 {
      PutZero(result[rowStart + ByteOf(bits, col)], bits, SlotOf(bits, col));
      return;
    }
    ColumnSlot(bits, col);
    var bitOffset := col * bits;
    var byteIndex := rowStart + bitOffset / 8;
    var shift := 8 - bits - bitOffset % 8;
    OrInto(value, bits, SlotOf(bits, col), byteIndex, shift, result);
  }

  /** The inner loop: writes one row's samples into the row's bytes, which start out empty. */
  method PackRow(unpacked: seq<bv8>, g: Rows, row: nat, rowStart: nat, result: array<bv8>)
    requires Width(g.bits) && g.Holds() && RowClear(g, rowStart, result[..])
    modifies result
    ensures result[..] == PackedUpTo(g, unpacked, row, rowStart, old(result[..]), g.n)
  {
    ghost var start := result[..];
    RowStarts(g, unpacked, row, rowStart, start);
    for col := 0 to g.n
      invariant result[..] == PackedUpTo(g, unpacked, row, rowStart, start, col)
    {
      PackColumn(unpacked, g, row, rowStart, start, col, result);
    }
  }

  /** One column more: its value is ored into its slot. */
  method PackColumn(unpacked: seq<bv8>, g: Rows, row: nat, rowStart: nat, ghost start: seq<bv8>, col: nat, result: array<bv8>)
    requires Width(g.bits) && g.Holds() && col < g.n && rowStart + g.bytes <= |start|
    requires result[..] == PackedUpTo(g, unpacked, row, rowStart, start, col)
    modifies result
    ensures result[..] == PackedUpTo(g, unpacked, row, rowStart, start, col + 1)
  {
    var value := g.Value(unpacked, row, col);
    ghost var was := result[..];
    PackSample(value, g.bits, col, rowStart, result);
    RowAdvances(g, unpacked, row, rowStart, start, was, col, value, rowStart + ByteOf(g.bits, col), result[..]);
  }

  /** The first bytes of the buffer are packed, and the rest of it is still clear. */
  ghost predicate PackedBefore(expected: seq<bv8>, buf: seq<bv8>, done: nat) {
    && |buf| == |expected| && done <= |buf|
    && (forall i: nat | i < done :: buf[i] == expected[i])
    && forall i: nat | done <= i < |buf| :: buf[i] == 0
  }

  /** A buffer of rows, each byte of which is the packed byte of its row. */
  ghost predicate HoldsRows(g: Rows, samples: seq<bv8>, rows: nat, buf: seq<bv8>)
    requires Width(g.bits)
  {
    |buf| == g.bytes * rows && forall row: nat, j: nat | row < rows && j < g.bytes :: HoldsByte(g, samples, buf, row, j)
  }

  ghost predicate HoldsByte(g: Rows, samples: seq<bv8>, buf: seq<bv8>, row: nat, j: nat)
    requires Width(g.bits)
  {
    row * g.bytes + j < |buf| && buf[row * g.bytes + j] == g.PackedByte(samples, row, j)
  }

  lemma PackedHoldsRows(g: Rows, samples: seq<bv8>, rows: nat)
    requires Width(g.bits)
    ensures HoldsRows(g, samples, rows, g.Packed(samples, rows))
  {
    forall row: nat, j: nat | row < rows && j < g.bytes ensures HoldsByte(g, samples, g.Packed(samples, rows), row, j) {
      g.PackedAt(samples, rows, row, j);
    }
  }

  /** The first rows of the buffer are packed, and the rest of it is still clear. */
  ghost predicate RowsPacked(g: Rows, rows: nat, expected: seq<bv8>, buf: seq<bv8>, row: nat) {
    |expected| == g.bytes * rows && row <= rows && PackedBefore(expected, buf, row * g.bytes)
  }

  lemma NoRowsPacked(g: Rows, rows: nat, expected: seq<bv8>, buf: seq<bv8>)
    requires |buf| == |expected| == g.bytes * rows && forall i | 0 <= i < |buf| :: buf[i] == 0
    ensures RowsPacked(g, rows, expected, buf, 0)
  {}

  lemma AllRowsPacked(g: Rows, rows: nat, expected: seq<bv8>, buf: seq<bv8>)
    requires RowsPacked(g, rows, expected, buf, rows)
    ensures buf == expected
  {}

  lemma NextRowClear(g: Rows, rows: nat, expected: seq<bv8>, buf: seq<bv8>, row: nat)
    requires RowsPacked(g, rows, expected, buf, row) && row < rows
    ensures RowClear(g, row * g.bytes, buf)
  {
    RowInside(g.bytes, row, rows);
  }

  lemma RowFinished(g: Rows, samples: seq<bv8>, rows: nat, row: nat, start: seq<bv8>, buf: seq<bv8>, expected: seq<bv8>)
    requires Width(g.bits) && row < rows && HoldsRows(g, samples, rows, expected)
    requires RowsPacked(g, rows, expected, start, row) && buf == PackedUpTo(g, samples, row, row * g.bytes, start, g.n)
    ensures RowsPacked(g, rows, expected, buf, row + 1)
  {
    var done := row * g.bytes;
    RowInside(g.bytes, row, rows);
    forall i: nat | done <= i < done + g.bytes ensures buf[i] == expected[i] {
      PackingDone(g, samples, row, i - done);
      assert HoldsByte(g, samples, expected, row, i - done);
    }
  }

  method PackSubbyteMsbFirst(unpacked: seq<bv8>, bits: nat, samplesPerRow: nat, numRows: nat) returns (packed: seq<bv8>)
    requires Width(bits)
    ensures packed == RowsOf(bits, samplesPerRow).Packed(unpacked, numRows)
    ensures forall k: nat | RowFills(bits, samplesPerRow, k) :: |packed| == k * numRows
    ensures forall k: nat, row: nat, col: nat | RowFills(bits, samplesPerRow, k) && row < numRows && col * bits < 8 * k ::
              WrittenTo(packed, unpacked, bits, samplesPerRow, k, row, col)
  {
    var g := RowsOf(bits, samplesPerRow);
    RowsOfHold(bits, samplesPerRow);
    PackedHoldsRows(g, unpacked, numRows);
    packed := PackRows(unpacked, g, numRows, g.Packed(unpacked, numRows));
    forall k: nat | RowFills(bits, samplesPerRow, k) ensures |packed| == k * numRows {
      RowLength(bits, samplesPerRow, k);
    }
    forall k: nat, row: nat, col: nat | RowFills(bits, samplesPerRow, k) && row < numRows && col * bits < 8 * k
      ensures WrittenTo(packed, unpacked, bits, samplesPerRow, k, row, col)
    {
      PackedFrom(unpacked, bits, samplesPerRow, numRows, row, col, k);
    }
  }

  /** The outer loop. */
  method PackRows(unpacked: seq<bv8>, g: Rows, numRows: nat, ghost expected: seq<bv8>) returns (packed: seq<bv8>)
    requires Width(g.bits) && g.Holds() && HoldsRows(g, unpacked, numRows, expected)
    ensures packed == expected
  {
    var result := new bv8[g.bytes * numRows](_ => 0);
    NoRowsPacked(g, numRows, expected, result[..]);
    for row := 0 to numRows
      invariant RowsPacked(g, numRows, expected, result[..], row)
    {
      ghost var start := result[..];
      NextRowClear(g, numRows, expected, start, row);
      PackRow(unpacked, g, row, row * g.bytes, result);
      RowFinished(g, unpacked, numRows, row, start, result[..], expected);
    }
    AllRowsPacked(g, numRows, expected, result[..]);
    packed := result[..];
  }

  // ----- packing and unpacking undo each other -----

  /** The samples reduced to their low bits, cut or zero-extended to the image. */
  function LowSamples(g: Rows, samples: seq<bv8>, rows: nat): seq<bv8>
    requires Width(g.bits)
  {
    seq(g.n * rows, (i: nat) => LowBits(samples, i, g.bits))
  }

  lemma UnpackedPacked(g: Rows, samples: seq<bv8>, rows: nat, row: nat, col: nat)
    requires Width(g.bits) && g.Holds() && row < rows && col < g.n
    ensures g.Sample(g.Packed(samples, rows), row, col) == LowBits(samples, row * g.n + col, g.bits)
  {
    ColumnSlot(g.bits, col);
    g.PackedAt(samples, rows, row, ByteOf(g.bits, col));
    g.PackedSlot(samples, row, ByteOf(g.bits, col), SlotOf(g.bits, col));
  }

  /** Unpacking what was packed gives every sample back, reduced to its low bits; missing samples read as 0. */
  lemma UnpackAfterPack(g: Rows, samples: seq<bv8>, rows: nat)
    requires Width(g.bits) && g.Holds()
    ensures g.Unpacked(g.Packed(samples, rows), rows) == LowSamples(g, samples, rows)
  {
    var u, low := g.Unpacked(g.Packed(samples, rows), rows), LowSamples(g, samples, rows);
    forall i: nat | i < |u|
      ensures u[i] == low[i]
    {
      var row, col := RowOf(g.n, rows, i);
      g.UnpackedAt(g.Packed(samples, rows), rows, row, col);
      UnpackedPacked(g, samples, rows, row, col);
    }
  }

  lemma RowOf(n: nat, rows: nat, i: nat) returns (row: nat, col: nat)
    requires i < n * rows
    ensures row < rows && col < n && i == row * n + col
  {
    row, col := i / n, i % n;
    if rows <= row {
      MulMono(rows, row, n);
    }
  }

  /** A byte with its first k slots set and the others clear. */
  function Keep(bits: nat, k: nat): bv8
    requires Width(bits) && k <= PerByte(bits)
  {
    255 << Count(if bits == 1 then 8 - k else if bits == 2 then 8 - 2 * k else 8 - 4 * k)
  }

  lemma KeepBits(b: bv8, w: bv4, s: bv4, c: bv4)
    requires Aligned(w, s) && c <= 8 && c & (w - 1) == 0
    ensures Bits(b & (255 << c), w, s) == if s >= c then Bits(b, w, s) else 0
  {}

  lemma KeepShift(bits: nat, k: nat, m: nat)
    requires Width(bits) && k <= PerByte(bits) && m < PerByte(bits)
    ensures var c := Count(if bits == 1 then 8 - k else if bits == 2 then 8 - 2 * k else 8 - 4 * k);
            c <= 8 && c & (W(bits) - 1) == 0 && (S(bits, m) >= c <==> m < k)
  {
    if bits == 1 {
    } else if bits == 2 {
      if k == 0 {} else if k == 1 {} else if k == 2 {} else if k == 3 {} else {}
    } else {
      if k == 0 {} else if k == 1 {} else {}
    }
  }

  lemma KeepSlot(b: bv8, bits: nat, k: nat, m: nat)
    requires Width(bits) && k <= PerByte(bits) && m < PerByte(bits)
    ensures Slot(b & Keep(bits, k), bits, m) == if m < k then Slot(b, bits, m) else 0
  {
    AlignedSlot(bits, m);
    KeepShift(bits, k, m);
    KeepBits(b, W(bits), S(bits, m), Count(if bits == 1 then 8 - k else if bits == 2 then 8 - 2 * k else 8 - 4 * k));
  }

  /** Byte i of a packed buffer, 0 past its end. */
  function ByteAt(packed: seq<bv8>, i: nat): bv8 { if i < |packed| then packed[i] else 0 }

  /** Byte j of a row, with the padding bits past the row's last sample cleared. */
  function NormalByte(g: Rows, packed: seq<bv8>, row: nat, j: nat): bv8
    requires Width(g.bits)
  {
    ByteAt(packed, row * g.bytes + j) & Keep(g.bits, Filled(g.bits, g.n, j))
  }

  /** A packed buffer cut or zero-extended to its rows, with the padding bits at the row ends cleared. */
  function Normal(g: Rows, packed: seq<bv8>, rows: nat): seq<bv8>
    requires Width(g.bits)
  {
    seq(g.bytes * rows, (i: nat) => if g.bytes == 0 then 0 else NormalByte(g, packed, i / g.bytes, i % g.bytes))
  }

  lemma NormalAt(g: Rows, packed: seq<bv8>, rows: nat, row: nat, j: nat)
    requires Width(g.bits) && row < rows && j < g.bytes
    ensures row * g.bytes + j < |Normal(g, packed, rows)|
    ensures Normal(g, packed, rows)[row * g.bytes + j] == NormalByte(g, packed, row, j)
  {
    MulMono(row + 1, rows, g.bytes);
    DivUnique(row, g.bytes, j);
  }

  lemma BitsMasked(b: bv8, w: bv4, s: bv4)
    requires w < 8 && s < 8
    ensures Bits(b, w, s) & Mask(w) == Bits(b, w, s)
    ensures Bits(0, w, s) == 0
  {}

  lemma SampleMasked(g: Rows, packed: seq<bv8>, row: nat, col: nat)
    requires Width(g.bits)
    ensures g.Sample(packed, row, col) & Mask(W(g.bits)) == g.Sample(packed, row, col)
    ensures g.Sample(packed, row, col) == Slot(ByteAt(packed, row * g.bytes + ByteOf(g.bits, col)), g.bits, SlotOf(g.bits, col))
  {
    BitsMasked(ByteAt(packed, row * g.bytes + ByteOf(g.bits, col)), W(g.bits), S(g.bits, SlotOf(g.bits, col)));
  }

  lemma ColumnFilled(bits: nat, n: nat, j: nat, m: nat)
    requires Width(bits) && m < PerByte(bits)
    ensures Column(bits, j, m) < n <==> m < Filled(bits, n, j)
    ensures ByteOf(bits, Column(bits, j, m)) == j && SlotOf(bits, Column(bits, j, m)) == m
  {}

  /** What is stored for a column of the unpacked samples is the packed slot itself. */
  lemma RepackedValue(g: Rows, packed: seq<bv8>, rows: nat, row: nat, j: nat, m: nat)
    requires Width(g.bits) && row < rows && m < PerByte(g.bits)
    ensures g.Value(g.Unpacked(packed, rows), row, Column(g.bits, j, m))
            == if m < Filled(g.bits, g.n, j) then Slot(ByteAt(packed, row * g.bytes + j), g.bits, m) else 0
  {
    var col := Column(g.bits, j, m);
    ColumnFilled(g.bits, g.n, j, m);
    if col < g.n {
      g.UnpackedAt(packed, rows, row, col);
      SampleMasked(g, packed, row, col);
    }
  }

  lemma KeptSlot(g: Rows, packed: seq<bv8>, row: nat, j: nat, m: nat)
    requires Width(g.bits) && m < PerByte(g.bits)
    ensures Slot(NormalByte(g, packed, row, j), g.bits, m)
            == if m < Filled(g.bits, g.n, j) then Slot(ByteAt(packed, row * g.bytes + j), g.bits, m) else 0
  {
    KeepSlot(ByteAt(packed, row * g.bytes + j), g.bits, Filled(g.bits, g.n, j), m);
  }

  lemma RepackedSlot(g: Rows, packed: seq<bv8>, rows: nat, row: nat, j: nat, m: nat)
    requires Width(g.bits) && row < rows && m < PerByte(g.bits)
    ensures Slot(g.PackedByte(g.Unpacked(packed, rows), row, j), g.bits, m) == Slot(NormalByte(g, packed, row, j), g.bits, m)
  {
    g.PackedSlot(g.Unpacked(packed, rows), row, j, m);
    RepackedValue(g, packed, rows, row, j, m);
    KeptSlot(g, packed, row, j, m);
  }

  lemma RepackedByte(g: Rows, packed: seq<bv8>, rows: nat, row: nat, j: nat)
    requires Width(g.bits) && row < rows
    ensures g.PackedByte(g.Unpacked(packed, rows), row, j) == NormalByte(g, packed, row, j)
  {
    forall m: nat | m < PerByte(g.bits)
      ensures Slot(g.PackedByte(g.Unpacked(packed, rows), row, j), g.bits, m) == Slot(NormalByte(g, packed, row, j), g.bits, m)
    {
      RepackedSlot(g, packed, rows, row, j, m);
    }
    SameSlots(g.PackedByte(g.Unpacked(packed, rows), row, j), NormalByte(g, packed, row, j), g.bits);
  }

  /** Packing what was unpacked gives the buffer back with only its padding bits cleared. */
  lemma PackAfterUnpack(g: Rows, packed: seq<bv8>, rows: nat)
    requires Width(g.bits)
    ensures g.Packed(g.Unpacked(packed, rows), rows) == Normal(g, packed, rows)
  {
    var again, normal := g.Packed(g.Unpacked(packed, rows), rows), Normal(g, packed, rows);
    forall i: nat | i < |again|
      ensures again[i] == normal[i]
    {
      var row, j := RowOf(g.bytes, rows, i);
      g.PackedAt(g.Unpacked(packed, rows), rows, row, j);
      RepackedByte(g, packed, rows, row, j);
      NormalAt(g, packed, rows, row, j);
    }
  }

  lemma AndTwice(b: bv8, k: bv8)
    ensures b & k & k == b & k
  {}

  lemma NormalAgain(g: Rows, packed: seq<bv8>, rows: nat, row: nat, j: nat)
    requires Width(g.bits) && row < rows && j < g.bytes
    ensures NormalByte(g, Normal(g, packed, rows), row, j) == NormalByte(g, packed, row, j)
  {
    NormalAt(g, packed, rows, row, j);
    AndTwice(ByteAt(packed, row * g.bytes + j), Keep(g.bits, Filled(g.bits, g.n, j)));
  }

  /** The padding bits of every row are clear. */
  ghost predicate PaddingClear(g: Rows, packed: seq<bv8>, rows: nat)
    requires Width(g.bits)
  {
    forall row: nat, j: nat | row < rows && j < g.bytes :: NormalByte(g, packed, row, j) == ByteAt(packed, row * g.bytes + j)
  }

  /** The normal form is idempotent, and is the buffer itself exactly when it has the packed length and clear padding. */
  lemma NormalForm(g: Rows, packed: seq<bv8>, rows: nat)
    requires Width(g.bits)
    ensures Normal(g, Normal(g, packed, rows), rows) == Normal(g, packed, rows)
    ensures Normal(g, packed, rows) == packed <==> |packed| == g.bytes * rows && PaddingClear(g, packed, rows)
  {
    var normal := Normal(g, packed, rows);
    var again := Normal(g, normal, rows);
    forall i: nat | i < |normal|
      ensures again[i] == normal[i]
    {
      var row, j := RowOf(g.bytes, rows, i);
      NormalAgain(g, packed, rows, row, j);
      NormalAt(g, normal, rows, row, j);
      NormalAt(g, packed, rows, row, j);
    }
    if |packed| == g.bytes * rows {
      NormalIsIdentity(g, packed, rows);
    }
  }

  lemma NormalIsIdentity(g: Rows, packed: seq<bv8>, rows: nat)
    requires Width(g.bits) && |packed| == g.bytes * rows
    ensures Normal(g, packed, rows) == packed <==> PaddingClear(g, packed, rows)
  {
    if PaddingClear(g, packed, rows) {
      ClearIsNormal(g, packed, rows);
    } else {
      var row: nat, j: nat :| row < rows && j < g.bytes && NormalByte(g, packed, row, j) != ByteAt(packed, row * g.bytes + j);
      NormalAt(g, packed, rows, row, j);
    }
  }

  lemma ClearIsNormal(g: Rows, packed: seq<bv8>, rows: nat)
    requires Width(g.bits) && |packed| == g.bytes * rows && PaddingClear(g, packed, rows)
    ensures Normal(g, packed, rows) == packed
  {
    var normal := Normal(g, packed, rows);
    forall i: nat | i < |packed| ensures normal[i] == packed[i] {
      var row, j := RowOf(g.bytes, rows, i);
      NormalAt(g, packed, rows, row, j);
    }
  }
}
