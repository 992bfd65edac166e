/**
 Elevation records: one record a column, posts stored south to north as big-endian
 signed-magnitude numbers, decoded to a grid stored row after row from the north.
 */
module Dted {
  import opened Wrappers
  import opened Bsq

  datatype DtedError = SizeMismatch | RowTrims | ColumnTrims | Panicked

  /** How many posts and records there are, the size of a record, and what is cut off on each side. */
  datatype Layout = Layout(rows: nat, cols: nat, recordSize: nat, top: nat, bottom: nat, left: nat, right: nat) {
    predicate Trimmed() { top + bottom < rows && left + right < cols }

    function OutRows(): nat
      requires Trimmed()
    {
      rows - top - bottom
    }

    function OutCols(): nat
      requires Trimmed()
    {
      cols - left - right
    }

    function Untrimmed(): Layout { Layout(rows, cols, recordSize, 0, 0, 0, 0) }

    /** The records are long enough for the northernmost post that is kept. */
    predicate RecordsHold() { 8 + 2 * (rows - top) <= recordSize }

    /** Where the post of output cell (r, c) starts. */
    function PostPosition(r: nat, c: nat): nat
      requires Trimmed() && r < OutRows()
    {
      Start(recordSize, c + left) + 8 + 2 * (rows - 1 - (r + top))
    }
  }

  /** Where record c of records of n bytes starts. */
  function Start(n: nat, c: nat): nat { c * n }

  lemma RecordInside(n: nat, c: nat, count: nat)
    requires c < count
    ensures Start(n, c) + n <= Start(n, count)
  {
    assert (c + 1) * n <= count * n;
  }

  /** Position of row r, column c in a grid of w columns. */
  function Cell(w: nat, r: nat, c: nat): nat { r * w + c }

  lemma CellInside(h: nat, w: nat, r: nat, c: nat)
    requires r < h && c < w
    ensures Cell(w, r, c) < Cell(w, h, 0)
  {
    assert (r + 1) * w <= h * w;
  }

  lemma CellsDiffer(w: nat, r: nat, c: nat, s: nat, d: nat)
    requires c < w && d < w && (r != s || c != d)
    ensures Cell(w, r, c) != Cell(w, s, d)
  {
    if r < s {
      assert (r + 1) * w <= s * w;
    } else if s < r {
      assert (s + 1) * w <= r * w;
    }
  }

  // One post.

  /** A post as the decoder reads it: the sign is the top bit, all ones stands for missing. */
  function PostValue(high: byte, low: byte): int {
    var raw := high as int * 256 + low as int;
    if raw == 0xFFFF then -32767
    else if raw >= 0x8000 then -(raw - 0x8000)
    else raw
  }

  /** The same number in signed magnitude. */
  function RawOf(v: int): int
    requires -32767 <= v <= 32767
  {
    if v < 0 then 0x8000 - v else v
  }

  function EncodePost(v: int): (b: seq<byte>)
    requires -32767 <= v <= 32767
    ensures |b| == 2
  {
    [(RawOf(v) / 256) as byte, (RawOf(v) % 256) as byte]
  }

  lemma PostBack(v: int)
    requires -32767 <= v <= 32767
    ensures PostValue(EncodePost(v)[0], EncodePost(v)[1]) == v
  {
  }

  /** Encoding a decoded post gives its bytes back, except for a negative zero, which loses its sign. */
  lemma PostForth(high: byte, low: byte)
    ensures -32767 <= PostValue(high, low) <= 32767
    ensures EncodePost(PostValue(high, low)) == [high, low] <==> !(high == 0x80 && low == 0)
  {
    var v := PostValue(high, low);
    var raw := high as int * 256 + low as int;
    if raw != 0x8000 {
      assert RawOf(v) == raw;
    }
  }

  // The decoder.

  function PostAt(data: seq<byte>, p: nat): int
    requires p + 2 <= |data|
  {
    PostValue(data[p], data[p + 1])
  }

  /** Output cell (r, c) holds its post. */
  ghost predicate CellDone(data: seq<byte>, l: Layout, out: seq<int>, r: nat, c: nat)
    requires l.Trimmed() && r < l.OutRows()
  {
    && l.PostPosition(r, c) + 2 <= |data|
    && Cell(l.OutCols(), r, c) < |out|
    && out[Cell(l.OutCols(), r, c)] == PostAt(data, l.PostPosition(r, c))
  }

  /** The columns before c are done. */
  ghost predicate ColumnsDone(data: seq<byte>, l: Layout, out: seq<int>, c: nat)
    requires l.Trimmed()
  {
    forall r: nat, d: nat | r < l.OutRows() && d < c :: CellDone(data, l, out, r, d)
  }

  /** The rows of column c before r are done. */
  ghost predicate RowsDone(data: seq<byte>, l: Layout, out: seq<int>, c: nat, r: nat)
    requires l.Trimmed() && r <= l.OutRows()
  {
    forall s: nat | s < r :: CellDone(data, l, out, s, c)
  }

  /** What decoding answers. */
  ghost predicate Decoded(data: seq<byte>, l: Layout, answer: Result<seq<int>, DtedError>) {
    if |data| != Start(l.recordSize, l.cols) then answer == Err(SizeMismatch)
    else if l.top + l.bottom >= l.rows then answer == Err(RowTrims)
    else if l.left + l.right >= l.cols then answer == Err(ColumnTrims)
    else if !l.RecordsHold() then answer == Err(Panicked)
    else
      && answer.Ok?
      && |answer.value| == Cell(l.OutCols(), l.OutRows(), 0)
      && ColumnsDone(data, l, answer.value, l.OutCols())
  }

  /** One record: its posts go to column c from the top, or reading past its end panics. */
  method DecodeColumn(data: seq<byte>, l: Layout, c: nat, record: seq<byte>, output: array<int>) returns (ok: bool)
    requires l.Trimmed() && c < l.OutCols()
    requires Start(l.recordSize, c + l.left) + l.recordSize <= |data|
    requires record == data[Start(l.recordSize, c + l.left)..Start(l.recordSize, c + l.left) + l.recordSize]
    requires output.Length == Cell(l.OutCols(), l.OutRows(), 0)
    requires ColumnsDone(data, l, output[..], c)
    modifies output
    ensures ok <==> l.RecordsHold()
    ensures ok ==> ColumnsDone(data, l, output[..], c + 1)
  {
    var outRows, outCols := l.rows - l.top - l.bottom, l.cols - l.left - l.right;
    for row := 0 to outRows
      invariant row > 0 ==> l.RecordsHold()
      invariant ColumnsDone(data, l, output[..], c)
      invariant RowsDone(data, l, output[..], c, row)
    {
      var postIndex := l.rows - 1 - (row + l.top);
      var byteOffset := 8 + postIndex * 2;
      if byteOffset + 1 >= |record| {
        return false;
      }
      var value := PostValue(record[byteOffset], record[byteOffset + 1]);
      CellInside(outRows, outCols, row, c);
      ghost var before := output[..];
      output[Cell(outCols, row, c)] := value;
      WriteKeeps(data, l, before, output[..], row, c, value);
    }
    ok := true;
  }

  method DecodeDtedTile(data: seq<byte>, l: Layout) returns (answer: Result<seq<int>, DtedError>)
    ensures Decoded(data, l, answer)
    ensures |data| != l.cols * l.recordSize ==> answer == Err(SizeMismatch)
    ensures answer.Ok? ==> l.top + l.bottom < l.rows && l.left + l.right < l.cols
                           && |answer.value| == (l.rows - l.top - l.bottom) * (l.cols - l.left - l.right)
  {
    if |data| != Start(l.recordSize, l.cols) {
      return Err(SizeMismatch);
    }
    if l.top + l.bottom >= l.rows {
      return Err(RowTrims);
    }
    if l.left + l.right >= l.cols {
      return Err(ColumnTrims);
    }
    var outRows, outCols := l.rows - l.top - l.bottom, l.cols - l.left - l.right;
    var output := new int[Cell(outCols, outRows, 0)](_ => 0);
    for col := 0 to outCols
      invariant col > 0 ==> l.RecordsHold()
      invariant ColumnsDone(data, l, output[..], col)
    {
      var srcCol := col + l.left;
      RecordInside(l.recordSize, srcCol, l.cols);
      var recordOffset := Start(l.recordSize, srcCol);
      var ok := DecodeColumn(data, l, col, data[recordOffset..recordOffset + l.recordSize], output);
      if !ok {
        return Err(Panicked);
      }
    }
    answer := Ok(output[..]);
  }

  lemma WriteKeeps(data: seq<byte>, l: Layout, before: seq<int>, after: seq<int>, row: nat, col: nat, value: int)
    requires l.Trimmed() && row < l.OutRows() && col < l.OutCols()
    requires Cell(l.OutCols(), row, col) < |before| && after == before[Cell(l.OutCols(), row, col) := value]
    requires l.PostPosition(row, col) + 2 <= |data| && value == PostAt(data, l.PostPosition(row, col))
    ensures CellDone(data, l, after, row, col)
    ensures ColumnsDone(data, l, before, col) ==> ColumnsDone(data, l, after, col)
    ensures RowsDone(data, l, before, col, row) ==> RowsDone(data, l, after, col, row)
  {
    forall r: nat, c: nat | r < l.OutRows() && c < l.OutCols() && CellDone(data, l, before, r, c)
      ensures CellDone(data, l, after, r, c)
    {
      if r != row || c != col {
        CellsDiffer(l.OutCols(), r, c, row, col);
      }
    }
  }

  // The encoder: what a DTED writer stores.

  /** Rows from the north, all of w posts. */
  ghost predicate IsGrid(grid: seq<seq<int>>, w: nat) {
    forall r | 0 <= r < |grid| :: |grid[r]| == w && forall c | 0 <= c < w :: -32767 <= grid[r][c] <= 32767
  }

  /** Column c from the south. */
  function Column(grid: seq<seq<int>>, w: nat, c: nat): (vs: seq<int>)
    requires IsGrid(grid, w) && c < w
    ensures |vs| == |grid| && forall k | 0 <= k < |vs| :: -32767 <= vs[k] <= 32767
  {
    seq(|grid|, k requires 0 <= k < |grid| => grid[|grid| - 1 - k][c])
  }

  function Posts(vs: seq<int>): (b: seq<byte>)
    requires forall k | 0 <= k < |vs| :: -32767 <= vs[k] <= 32767
    ensures |b| == 2 * |vs|
  {
    if vs == [] then [] else Posts(vs[..|vs| - 1]) + EncodePost(vs[|vs| - 1])
  }

  /** Records of n bytes one after the other. */
  function Join(records: seq<seq<byte>>, n: nat): (b: seq<byte>)
    requires forall c | 0 <= c < |records| :: |records[c]| == n
    ensures |b| == Start(n, |records|)
  {
    if records == [] then []
    else
      assert Start(n, |records|) == Start(n, |records| - 1) + n;
      Join(records[..|records| - 1], n) + records[|records| - 1]
  }

  /** A grid and the eight bytes before and the checksum bytes after the posts of each record. */
  datatype Cells = Cells(grid: seq<seq<int>>, heads: seq<seq<byte>>, tails: seq<seq<byte>>, tailSize: nat) {
    function Width(): nat { |heads| }

    function Height(): nat { |grid| }

    ghost predicate Valid() {
      && Width() > 0 && Height() > 0
      && IsGrid(grid, Width())
      && |tails| == Width()
      && forall c | 0 <= c < Width() :: |heads[c]| == 8 && |tails[c]| == tailSize
    }

    function RecordSize(): nat { 8 + 2 * Height() + tailSize }

    ghost function Record(c: nat): (b: seq<byte>)
      requires Valid() && c < Width()
      ensures |b| == RecordSize()
    {
      heads[c] + Posts(Column(grid, Width(), c)) + tails[c]
    }

    ghost function Encoded(): seq<byte>
      requires Valid()
    {
      Join(seq(Width(), c requires 0 <= c < Width() => Record(c)), RecordSize())
    }

    function Plain(): Layout { Layout(Height(), Width(), RecordSize(), 0, 0, 0, 0) }
  }

  /** The rows of a grid one after the other, from the north. */
  function RowMajor(grid: seq<seq<int>>, w: nat): (s: seq<int>)
    requires forall r | 0 <= r < |grid| :: |grid[r]| == w
    ensures |s| == Cell(w, |grid|, 0)
  {
    if grid == [] then []
    else
      assert Cell(w, |grid|, 0) == Cell(w, |grid| - 1, 0) + w;
      RowMajor(grid[..|grid| - 1], w) + grid[|grid| - 1]
  }

  lemma {:induction false} RowMajorAt(grid: seq<seq<int>>, w: nat, r: nat, c: nat)
    requires forall k | 0 <= k < |grid| :: |grid[k]| == w
    requires r < |grid| && c < w
    ensures Cell(w, r, c) < |RowMajor(grid, w)| && RowMajor(grid, w)[Cell(w, r, c)] == grid[r][c]
  {
    CellInside(|grid|, w, r, c);
    var front := grid[..|grid| - 1];
    if r < |front| {
      CellInside(|front|, w, r, c);
      RowMajorAt(front, w, r, c);
    } else {
      assert Cell(w, r, c) == |RowMajor(front, w)| + c;
    }
  }

  /** A grid is determined by its cells. */
  lemma CellsDetermine(a: seq<int>, b: seq<int>, h: nat, w: nat)
    requires |a| == |b| == Cell(w, h, 0)
    requires forall r: nat, c: nat | r < h && c < w ::
               Cell(w, r, c) < |a| && a[Cell(w, r, c)] == b[Cell(w, r, c)]
    ensures a == b
  {
    forall i | 0 <= i < |a| ensures a[i] == b[i] {
      CellOfPosition(h, w, i);
    }
  }

  lemma CellOfPosition(h: nat, w: nat, i: nat)
    requires i < Cell(w, h, 0)
    ensures w > 0 && i / w < h && i % w < w && Cell(w, i / w, i % w) == i
  {
    DivMod(i, w);
  }

  lemma {:induction false} PostsAt(vs: seq<int>, k: nat)
    requires forall j | 0 <= j < |vs| :: -32767 <= vs[j] <= 32767
    requires k < |vs|
    ensures Posts(vs)[2 * k] == EncodePost(vs[k])[0] && Posts(vs)[2 * k + 1] == EncodePost(vs[k])[1]
  {
    if k < |vs| - 1 {
      PostsAt(vs[..|vs| - 1], k);
    }
  }

  lemma {:induction false} JoinAt(records: seq<seq<byte>>, n: nat, c: nat, j: nat)
    requires forall k | 0 <= k < |records| :: |records[k]| == n
    requires c < |records| && j < n
    ensures Start(n, c) + j < |Join(records, n)| && Join(records, n)[Start(n, c) + j] == records[c][j]
  {
    RecordInside(n, c, |records|);
    var front := records[..|records| - 1];
    if c < |front| {
      RecordInside(n, c, |front|);
      JoinAt(front, n, c, j);
    }
  }

  /** The bytes of the post of the grid's row r in column c, where the decoder looks for them. */
  lemma EncodedPost(x: Cells, r: nat, c: nat)
    requires x.Valid() && r < x.Height() && c < x.Width()
    ensures var p := x.Plain().PostPosition(r, c);
            p + 2 <= |x.Encoded()| && PostAt(x.Encoded(), p) == x.grid[r][c]
  {
    var records := seq(x.Width(), d requires 0 <= d < x.Width() => x.Record(d));
    var k := x.Height() - 1 - r;
    var vs := Column(x.grid, x.Width(), c);
    PostsAt(vs, k);
    JoinAt(records, x.RecordSize(), c, 8 + 2 * k);
    JoinAt(records, x.RecordSize(), c, 8 + 2 * k + 1);
    PostBack(vs[k]);
  }

  /** Decoding an encoded grid gives the grid, north row first, whatever the headers and checksums. */
  lemma DecodeOfEncoded(x: Cells, answer: Result<seq<int>, DtedError>)
    requires x.Valid() && Decoded(x.Encoded(), x.Plain(), answer)
    ensures answer == Ok(RowMajor(x.grid, x.Width()))
  {
    var l, h, w := x.Plain(), x.Height(), x.Width();
    assert answer.Ok?;
    forall r: nat, c: nat | r < h && c < w
      ensures Cell(w, r, c) < |answer.value| && answer.value[Cell(w, r, c)] == RowMajor(x.grid, w)[Cell(w, r, c)]
    {
      assert CellDone(x.Encoded(), l, answer.value, r, c);
      EncodedPost(x, r, c);
      RowMajorAt(x.grid, w, r, c);
    }
    CellsDetermine(answer.value, RowMajor(x.grid, w), h, w);
  }

  /** The grid without `top` and `bottom` rows, and `left` and `right` posts of each of the others. */
  function Cropped(grid: seq<seq<int>>, w: nat, top: nat, bottom: nat, left: nat, right: nat): seq<seq<int>>
    requires (forall r | 0 <= r < |grid| :: |grid[r]| == w) && top + bottom <= |grid| && left + right <= w
  {
    seq(|grid| - top - bottom, r requires 0 <= r < |grid| - top - bottom => grid[top..|grid| - bottom][r][left..w - right])
  }

  /** Decoding an encoded grid with trims gives the rows and columns that are left, north row first. */
  lemma DecodeOfTrimmed(x: Cells, top: nat, bottom: nat, left: nat, right: nat, answer: Result<seq<int>, DtedError>)
    requires x.Valid() && top + bottom < x.Height() && left + right < x.Width()
    requires Decoded(x.Encoded(), Layout(x.Height(), x.Width(), x.RecordSize(), top, bottom, left, right), answer)
    ensures answer == Ok(RowMajor(Cropped(x.grid, x.Width(), top, bottom, left, right), x.Width() - left - right))
  {
    var l := Layout(x.Height(), x.Width(), x.RecordSize(), top, bottom, left, right);
    var h, w := x.Height() - top - bottom, x.Width() - left - right;
    var crop := Cropped(x.grid, x.Width(), top, bottom, left, right);
    assert answer.Ok?;
    forall r: nat, c: nat | r < h && c < w
      ensures Cell(w, r, c) < |answer.value| && answer.value[Cell(w, r, c)] == RowMajor(crop, w)[Cell(w, r, c)]
    {
      assert CellDone(x.Encoded(), l, answer.value, r, c);
      EncodedPost(x, r + top, c + left);
      RowMajorAt(crop, w, r, c);
      CroppedAt(x.grid, x.Width(), top, bottom, left, right, r, c);
    }
    CellsDetermine(answer.value, RowMajor(crop, w), h, w);
  }

  lemma CroppedAt(grid: seq<seq<int>>, w: nat, top: nat, bottom: nat, left: nat, right: nat, r: nat, c: nat)
    requires (forall k | 0 <= k < |grid| :: |grid[k]| == w) && top + bottom + r < |grid| && left + right + c < w
    ensures Cropped(grid, w, top, bottom, left, right)[r][c] == grid[r + top][c + left]
  {
    assert grid[top..|grid| - bottom][r] == grid[r + top];
  }

  /** Cell (r, c) of the trimmed grid is the cell of the whole grid below the trimmed rows, right of the trimmed columns. */
  ghost predicate SameCell(l: Layout, trimmed: seq<int>, whole: seq<int>, r: nat, c: nat)
    requires l.Trimmed()
  {
    && Cell(l.OutCols(), r, c) < |trimmed| && Cell(l.cols, r + l.top, c + l.left) < |whole|
    && trimmed[Cell(l.OutCols(), r, c)] == whole[Cell(l.cols, r + l.top, c + l.left)]
  }

  /**
   Decoding with trims is cropping what decoding without them gives; it may also succeed where
   the untrimmed decoding runs past the end of a record, and then only because northern rows are cut off.
   */
  lemma TrimIsCrop(data: seq<byte>, l: Layout, whole: Result<seq<int>, DtedError>, trimmed: Result<seq<int>, DtedError>)
    requires l.Trimmed() && Decoded(data, l, trimmed) && Decoded(data, l.Untrimmed(), whole)
    ensures whole.Ok? ==> trimmed.Ok?
    ensures trimmed.Ok? ==> |trimmed.value| == (l.rows - l.top - l.bottom) * (l.cols - l.left - l.right)
    ensures trimmed.Ok? && whole.Err? ==> whole == Err(Panicked) && l.top > 0
    ensures whole.Ok? ==> forall r: nat, c: nat | r < l.OutRows() && c < l.OutCols() ::
                SameCell(l, trimmed.value, whole.value, r, c)
  {
    if whole.Ok? {
      forall r: nat, c: nat | r < l.OutRows() && c < l.OutCols()
        ensures SameCell(l, trimmed.value, whole.value, r, c)
      {
        assert CellDone(data, l, trimmed.value, r, c);
        assert CellDone(data, l.Untrimmed(), whole.value, r + l.top, c + l.left);
        CroppedCell(data, l, trimmed.value, whole.value, r, c);
      }
    }
  }

  lemma CroppedCell(data: seq<byte>, l: Layout, trimmed: seq<int>, whole: seq<int>, r: nat, c: nat)
    requires l.Trimmed() && r < l.OutRows() && c < l.OutCols()
    requires CellDone(data, l, trimmed, r, c) && CellDone(data, l.Untrimmed(), whole, r + l.top, c + l.left)
    ensures SameCell(l, trimmed, whole, r, c)
  {
  }
}
