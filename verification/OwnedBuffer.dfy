/**
 Sliceable byte views. Mapped and heap views are resident; a remote view holds no bytes and
 fetches a range when it is sliced.
 */
module OwnedBuffer {
  import opened Wrappers
  import opened Bsq

  const USIZE_LIMIT := 0x1_0000_0000_0000_0000

  /** The sum of two machine words, wrapping around. */
  function WrappingAdd(a: nat, b: nat): nat { (a + b) % USIZE_LIMIT }

  datatype BufferError = InvalidRange | OutOfBounds | Overflow | Remote | Panicked

  type BufferResult<+T> = Result<T, BufferError>

  /** Access to a remote source: any behaviour, one range or a batch at a time. */
  datatype Fetcher = Fetcher(source: seq<byte>,
                             readRange: (nat, nat) -> BufferResult<seq<byte>>,
                             readRanges: seq<(nat, nat)> -> BufferResult<seq<seq<byte>>>)
  {
    /** A fetch inside the source gives exactly its bytes, or fails. */
    predicate ExactAt(offset: nat, len: nat) {
      offset + len <= |source| ==>
        readRange(offset, len) == Ok(source[offset..offset + len]) || readRange(offset, len) == Err(BufferError.Remote)
    }

    predicate ExactBatch(ranges: seq<(nat, nat)>) {
      AllInside(source, ranges) ==>
        readRanges(ranges) == Ok(Cut(source, ranges)) || readRanges(ranges) == Err(BufferError.Remote)
    }

    ghost predicate Faithful() {
      && (forall o: nat, n: nat :: ExactAt(o, n))
      && (forall rs: seq<(nat, nat)> :: ExactBatch(rs))
    }

    predicate AnswersAt(offset: nat, len: nat) {
      offset + len <= |source| ==> readRange(offset, len).Ok?
    }

    /** It never fails inside the source. */
    ghost predicate Reliable() {
      && (forall o: nat, n: nat :: AnswersAt(o, n))
      && (forall rs: seq<(nat, nat)> | AllInside(source, rs) :: readRanges(rs).Ok?)
    }
  }

  predicate AllInside(bytes: seq<byte>, ranges: seq<(nat, nat)>) {
    forall k | 0 <= k < |ranges| :: ranges[k].0 + ranges[k].1 <= |bytes|
  }

  /** The bytes of each (offset, length). */
  function Cut(bytes: seq<byte>, ranges: seq<(nat, nat)>): seq<seq<byte>>
    requires AllInside(bytes, ranges)
  {
    seq(|ranges|, k requires 0 <= k < |ranges| => bytes[ranges[k].0..ranges[k].0 + ranges[k].1])
  }

  datatype Backing = Mapped(data: seq<byte>) | Heap(data: seq<byte>) | Fetched(fetcher: Fetcher) {
    /** The bytes behind the view, resident or not. */
    function Bytes(): seq<byte> { if Fetched? then fetcher.source else data }
  }

  /** One of the calls that derive a buffer from a buffer. */
  datatype ViewCall = Narrow(a: nat, b: nat) | Slice(a: nat, b: nat) | All

  datatype OwnedBuffer = OwnedBuffer(store: Backing, start: nat, end: nat) {

    /** The range invariant. */
    ghost predicate Valid() {
      && start <= end <= |store.Bytes()| < USIZE_LIMIT
      && (store.Fetched? ==> store.fetcher.Faithful())
    }

    /** The bytes the buffer stands for. */
    function View(): (bytes: seq<byte>)
      requires start <= end <= |store.Bytes()|
    {
      store.Bytes()[start..end]
    }

    function Len(): nat { if start <= end then end - start else 0 }

    static function FromVec(data: seq<byte>): OwnedBuffer { OwnedBuffer(Heap(data), 0, |data|) }

    static function FromRemote(fetcher: Fetcher): OwnedBuffer { OwnedBuffer(Fetched(fetcher), 0, |fetcher.source|) }

    function SliceUnchecked(a: nat, b: nat): OwnedBuffer {
      if a >= b then OwnedBuffer(store, 0, 0) else OwnedBuffer(store, start + a, start + b)
    }

    function FetchRemoteSlice(fetcher: Fetcher, a: nat, b: nat): BufferResult<OwnedBuffer>
      requires a <= b
    {
      if a == b then Ok(FromVec([]))
      else
        match fetcher.readRange(start + a, b - a)
        case Ok(bytes) => Ok(FromVec(bytes))
        case Err(e) => Err(e)
    }

    /** Bytes [a, b) of this buffer; the fetch point of a remote one. */
    function TrySlice(a: nat, b: nat): BufferResult<OwnedBuffer> {
      if a > b then Err(InvalidRange)
      else if b > Len() then Err(OutOfBounds)
      else if store.Fetched? then FetchRemoteSlice(store.fetcher, a, b)
      else Ok(SliceUnchecked(a, b))
    }

    /** Narrows the buffer without fetching; panics out of bounds. */
    function Subview(a: nat, b: nat): BufferResult<OwnedBuffer> {
      if a <= b <= Len() then Ok(SliceUnchecked(a, b)) else Err(Panicked)
    }

    function Materialize(): BufferResult<OwnedBuffer> {
      if store.Fetched? then TrySlice(0, Len()) else Ok(this)
    }

    /** Bytes [offset, offset + len), the end computed in machine arithmetic. */
    function ReadRange(offset: nat, len: nat): BufferResult<seq<byte>>
      requires Valid()
    {
      match TrySlice(offset, WrappingAdd(offset, len))
      case Err(e) => Err(e)
      case Ok(slice) =>
        SliceIsExact(this, offset, WrappingAdd(offset, len));
        Ok(slice.View())
    }

    function Call(c: ViewCall): BufferResult<OwnedBuffer> {
      match c
      case Narrow(a, b) => Subview(a, b)
      case Slice(a, b) => TrySlice(a, b)
      case All => Materialize()
    }

    /** A chain of calls, each on the buffer the one before returned. */
    function Chain(calls: seq<ViewCall>): BufferResult<OwnedBuffer>
      decreases |calls|
    {
      if calls == [] then Ok(this)
      else
        match Call(calls[0])
        case Err(e) => Err(e)
        case Ok(next) => next.Chain(calls[1..])
    }
  }

  /** What a call on [a, b) may answer: the exact bytes, resident, or a failed fetch. */
  ghost predicate SliceAnswer(x: OwnedBuffer, a: nat, b: nat, answer: BufferResult<OwnedBuffer>)
    requires x.Valid()
  {
    if a > b then answer == Err(InvalidRange)
    else if b > x.Len() then answer == Err(OutOfBounds)
    else
      || (x.store.Fetched? && answer == Err(BufferError.Remote))
      || (answer.Ok? && answer.value.Valid() && !answer.value.store.Fetched? && answer.value.View() == x.View()[a..b])
  }

  lemma SliceOfSlice<T>(s: seq<T>, a: nat, b: nat, c: nat, d: nat)
    requires a <= b <= |s| && c <= d <= b - a
    ensures s[a..b][c..d] == s[a + c..a + d]
  {
    var inner, direct := s[a..b][c..d], s[a + c..a + d];
    forall k | 0 <= k < d - c ensures inner[k] == direct[k] {
      assert inner[k] == s[a..b][c + k];
    }
  }

  lemma FetchIsExact(x: OwnedBuffer, a: nat, b: nat)
    requires x.Valid() && x.store.Fetched? && a <= b <= x.Len()
    ensures SliceAnswer(x, a, b, x.FetchRemoteSlice(x.store.fetcher, a, b))
  {
    var f := x.store.fetcher;
    if a < b {
      assert f.ExactAt(x.start + a, b - a);
      SliceOfSlice(f.source, x.start, x.end, a, b);
    }
  }

  lemma NarrowIsExact(x: OwnedBuffer, a: nat, b: nat)
    requires x.Valid() && a <= b <= x.Len()
    ensures var s := x.SliceUnchecked(a, b); s.Valid() && s.store == x.store && s.View() == x.View()[a..b]
  {
    if a < b {
      SliceOfSlice(x.store.Bytes(), x.start, x.end, a, b);
    }
  }

  /** Slicing checks its bounds the same way for every backing and yields exactly the bytes asked for. */
  lemma SliceIsExact(x: OwnedBuffer, a: nat, b: nat)
    requires x.Valid()
    ensures SliceAnswer(x, a, b, x.TrySlice(a, b))
  {
    if a <= b <= x.Len() {
      if x.store.Fetched? {
        FetchIsExact(x, a, b);
      } else {
        NarrowIsExact(x, a, b);
      }
    }
  }

  /** Materializing makes a view resident and leaves its bytes as they are, or fails to fetch them; a resident view stays as it is. */
  lemma MaterializeIsExact(x: OwnedBuffer)
    requires x.Valid()
    ensures !x.store.Fetched? ==> x.Materialize() == Ok(x)
    ensures match x.Materialize()
            case Ok(y) => y.Valid() && !y.store.Fetched? && y.View() == x.View()
            case Err(e) => x.store.Fetched? && e == BufferError.Remote
    ensures x.store.Fetched? && x.store.fetcher.Reliable() ==> x.Materialize().Ok?
  {
    SliceIsExact(x, 0, x.Len());
    assert x.View()[0..x.Len()] == x.View();
    if x.store.Fetched? && x.store.fetcher.Reliable() {
      assert x.store.fetcher.AnswersAt(x.start, x.Len());
    }
  }

  // Remote refines resident.

  /** The two buffers stand for the same bytes and the second one is resident. */
  ghost predicate Agree(remote: OwnedBuffer, resident: OwnedBuffer) {
    && remote.Valid() && resident.Valid() && !resident.store.Fetched?
    && remote.View() == resident.View()
  }

  /** The two answers are the same, errors included, unless a fetch failed. */
  ghost predicate Refines(remote: BufferResult<OwnedBuffer>, resident: BufferResult<OwnedBuffer>) {
    || remote == Err(BufferError.Remote)
    || (remote.Err? && remote == resident)
    || (remote.Ok? && resident.Ok? && Agree(remote.value, resident.value))
  }

  lemma CallRefines(x: OwnedBuffer, y: OwnedBuffer, c: ViewCall)
    requires Agree(x, y)
    ensures Refines(x.Call(c), y.Call(c))
  {
    assert |x.View()| == x.Len() && |y.View()| == y.Len();
    match c {
      case Narrow(a, b) =>
        if a <= b <= x.Len() {
          NarrowIsExact(x, a, b);
          NarrowIsExact(y, a, b);
        }
      case Slice(a, b) =>
        SliceIsExact(x, a, b);
        SliceIsExact(y, a, b);
      case All =>
        SliceIsExact(x, 0, x.Len());
        assert x.View()[0..x.Len()] == x.View();
    }
  }

  /**
   A remote buffer refines a resident one: after any chain of narrowing, slicing and
   materializing, both stand for the same bytes or fail with the same error, unless a fetch failed.
   */
  lemma {:induction false} ChainRefines(x: OwnedBuffer, y: OwnedBuffer, calls: seq<ViewCall>)
    requires Agree(x, y)
    ensures Refines(x.Chain(calls), y.Chain(calls))
    decreases |calls|
  {
    if calls != [] {
      CallRefines(x, y, calls[0]);
      var r, s := x.Call(calls[0]), y.Call(calls[0]);
      if r.Ok? {
        ChainRefines(r.value, s.value, calls[1..]);
      }
    }
  }

  lemma RemoteRefinesHeap(fetcher: Fetcher, calls: seq<ViewCall>)
    requires fetcher.Faithful() && |fetcher.source| < USIZE_LIMIT
    ensures Refines(OwnedBuffer.FromRemote(fetcher).Chain(calls), OwnedBuffer.FromVec(fetcher.source).Chain(calls))
  {
    ChainRefines(OwnedBuffer.FromRemote(fetcher), OwnedBuffer.FromVec(fetcher.source), calls);
  }

  /** A buffer whose fetches never fail. */
  ghost predicate Dependable(x: OwnedBuffer) {
    x.Valid() && (x.store.Fetched? ==> x.store.fetcher.Reliable())
  }

  lemma CallAnswers(x: OwnedBuffer, c: ViewCall)
    requires Dependable(x)
    ensures x.Call(c) != Err(BufferError.Remote)
    ensures x.Call(c).Ok? ==> Dependable(x.Call(c).value)
  {
    match c {
      case Narrow(a, b) =>
        if a <= b <= x.Len() {
          NarrowIsExact(x, a, b);
        }
      case Slice(a, b) => SliceAnswers(x, a, b);
      case All => SliceAnswers(x, 0, x.Len());
    }
  }

  lemma SliceAnswers(x: OwnedBuffer, a: nat, b: nat)
    requires Dependable(x)
    ensures x.TrySlice(a, b) != Err(BufferError.Remote)
    ensures x.TrySlice(a, b).Ok? ==> Dependable(x.TrySlice(a, b).value)
  {
    SliceIsExact(x, a, b);
    if x.store.Fetched? && a < b <= x.Len() {
      assert x.store.fetcher.AnswersAt(x.start + a, b - a);
    }
  }

  /** When no fetch fails, neither does any chain for that reason, so the two kinds of buffer cannot be told apart. */
  lemma {:induction false} ChainAnswers(x: OwnedBuffer, calls: seq<ViewCall>)
    requires Dependable(x)
    ensures x.Chain(calls) != Err(BufferError.Remote)
    decreases |calls|
  {
    if calls != [] {
      CallAnswers(x, calls[0]);
      if x.Call(calls[0]).Ok? {
        ChainAnswers(x.Call(calls[0]).value, calls[1..]);
      }
    }
  }

  // What a chain does to the bytes.

  /** The calls made on plain bytes: each takes a slice of what the one before left, if its bounds allow. */
  function SliceBytes(bytes: seq<byte>, calls: seq<ViewCall>): Option<seq<byte>>
    decreases |calls|
  {
    if calls == [] then Some(bytes)
    else
      match calls[0]
      case All => SliceBytes(bytes, calls[1..])
      case Narrow(a, b) => if a <= b <= |bytes| then SliceBytes(bytes[a..b], calls[1..]) else None
      case Slice(a, b) => if a <= b <= |bytes| then SliceBytes(bytes[a..b], calls[1..]) else None
  }

  /** One call shows the bytes it should, and fails only out of bounds or for want of a fetch. */
  lemma CallSlices(x: OwnedBuffer, c: ViewCall)
    requires x.Valid()
    ensures x.Call(c).Ok? ==> x.Call(c).value.Valid() && SliceBytes(x.View(), [c]) == Some(x.Call(c).value.View())
    ensures x.Call(c).Err? ==> x.Call(c) == Err(BufferError.Remote) || SliceBytes(x.View(), [c]) == None
  {
    assert |x.View()| == x.Len();
    match c {
      case Narrow(a, b) =>
        if a <= b <= x.Len() {
          NarrowIsExact(x, a, b);
        }
      case Slice(a, b) => SliceIsExact(x, a, b);
      case All => MaterializeIsExact(x);
    }
  }

  /** Any chain shows what slicing the plain bytes does, whatever the backing; with fetches that do not fail, it succeeds exactly when that does. */
  lemma {:induction false} ChainSlices(x: OwnedBuffer, calls: seq<ViewCall>)
    requires x.Valid()
    ensures x.Chain(calls).Ok? ==> x.Chain(calls).value.Valid() && SliceBytes(x.View(), calls) == Some(x.Chain(calls).value.View())
    ensures x.Chain(calls).Err? ==> x.Chain(calls) == Err(BufferError.Remote) || SliceBytes(x.View(), calls) == None
    ensures Dependable(x) ==> (x.Chain(calls).Ok? <==> SliceBytes(x.View(), calls).Some?)
    decreases |calls|
  {
    if calls != [] {
      CallSlices(x, calls[0]);
      FirstSlice(x.View(), calls);
      if x.Call(calls[0]).Ok? {
        ChainSlices(x.Call(calls[0]).value, calls[1..]);
      }
      if Dependable(x) {
        CallAnswers(x, calls[0]);
        ChainAnswers(x, calls);
      }
    }
  }

  lemma FirstSlice(bytes: seq<byte>, calls: seq<ViewCall>)
    requires calls != []
    ensures var first := SliceBytes(bytes, [calls[0]]);
            SliceBytes(bytes, calls) == if first.Some? then SliceBytes(first.value, calls[1..]) else None
  {
    assert [calls[0]][1..] == [];
  }

  // Nested views add their offsets.

  /** Narrowing twice is narrowing once by the sum of the offsets, whatever the backing. */
  lemma NarrowComposes(x: OwnedBuffer, a: nat, b: nat, c: nat, d: nat)
    requires x.Valid() && a <= b <= x.Len()
    ensures var inner := x.Subview(a, b).value;
            && (inner.Subview(c, d).Ok? <==> c <= d <= b - a)
            && (c < d <= b - a ==> inner.Subview(c, d) == x.Subview(a + c, a + d))
            && (c <= d <= b - a ==> inner.Subview(c, d).value.View() == x.View()[a + c..a + d])
  {
    var inner := x.Subview(a, b).value;
    NarrowIsExact(x, a, b);
    if c <= d <= b - a {
      NarrowIsExact(inner, c, d);
      SliceOfSlice(x.View(), a, b, c, d);
    }
  }

  /** Slicing a narrowed buffer answers what slicing the original at the summed offsets does. */
  lemma SliceOfNarrow(x: OwnedBuffer, a: nat, b: nat, c: nat, d: nat)
    requires x.Valid() && a <= b <= x.Len() && c < d <= b - a
    ensures x.Subview(a, b).value.TrySlice(c, d) == x.TrySlice(a + c, a + d)
  {
    assert x.start + (a + c) == x.start + a + c;
  }

  // Reading ranges.

  /** Reading a range never reads anything else: it gives the bytes, an error of the bounds, or a failed fetch. */
  lemma ReadRangeIsExact(x: OwnedBuffer, offset: nat, len: nat)
    requires x.Valid() && offset < 0x1_0000_0000_0000_0000 && len < 0x1_0000_0000_0000_0000
    ensures offset + len <= x.Len() ==>
              || x.ReadRange(offset, len) == Ok(x.View()[offset..offset + len])
              || (x.store.Fetched? && x.ReadRange(offset, len) == Err(BufferError.Remote))
    ensures x.Len() < offset + len < 0x1_0000_0000_0000_0000 ==> x.ReadRange(offset, len) == Err(OutOfBounds)
    ensures 0x1_0000_0000_0000_0000 <= offset + len ==> x.ReadRange(offset, len) == Err(InvalidRange)
  {
    var end := WrappingAdd(offset, len);
    SliceIsExact(x, offset, end);
    if offset + len < USIZE_LIMIT {
      assert end == offset + len;
    } else {
      assert end == offset + len - USIZE_LIMIT;
    }
  }

  /** A list of ranges a caller can pass: machine words. */
  predicate Words(ranges: seq<(nat, nat)>) {
    forall k | 0 <= k < |ranges| :: ranges[k].0 < USIZE_LIMIT && ranges[k].1 < USIZE_LIMIT
  }

  /** When no fetch fails, each entry of the batch is what reading that range alone gives. */
  lemma BatchIsMapping(x: OwnedBuffer, ranges: seq<(nat, nat)>, k: nat)
    requires Dependable(x) && Words(ranges) && AllInside(x.View(), ranges) && k < |ranges|
    ensures x.ReadRange(ranges[k].0, ranges[k].1) == Ok(Cut(x.View(), ranges)[k])
  {
    var (offset, len) := ranges[k];
    ReadRangeIsExact(x, offset, len);
    SliceAnswers(x, offset, WrappingAdd(offset, len));
  }

  /** The position of the first range that is out of bounds, or their number. */
  function FirstOutside(ranges: seq<(nat, nat)>, len: nat): (k: nat)
    ensures k <= |ranges|
    ensures forall j | 0 <= j < k :: ranges[j].0 + ranges[j].1 <= len
    ensures k < |ranges| ==> ranges[k].0 + ranges[k].1 > len
  {
    if ranges == [] then 0
    else if ranges[0].0 + ranges[0].1 > len then 0
    else 1 + FirstOutside(ranges[1..], len)
  }

  /** The same ranges seen from the start of the source. */
  function Shifted(ranges: seq<(nat, nat)>, base: nat): seq<(nat, nat)> {
    seq(|ranges|, k requires 0 <= k < |ranges| => (base + ranges[k].0, ranges[k].1))
  }

  lemma ShiftedCut(x: OwnedBuffer, ranges: seq<(nat, nat)>)
    requires x.Valid() && AllInside(x.View(), ranges)
    ensures AllInside(x.store.Bytes(), Shifted(ranges, x.start))
    ensures Cut(x.store.Bytes(), Shifted(ranges, x.start)) == Cut(x.View(), ranges)
  {
    var bytes, moved := x.store.Bytes(), Shifted(ranges, x.start);
    forall k | 0 <= k < |ranges|
      ensures moved[k].0 + moved[k].1 <= |bytes|
      ensures bytes[moved[k].0..moved[k].0 + moved[k].1] == x.View()[ranges[k].0..ranges[k].0 + ranges[k].1]
    {
      assert ranges[k].0 + ranges[k].1 <= |x.View()|;
      SliceOfSlice(bytes, x.start, x.end, ranges[k].0, ranges[k].0 + ranges[k].1);
    }
  }

  /** The error of the first range that is out of bounds. */
  function BoundsError(remote: bool, range: (nat, nat)): BufferError {
    if range.0 + range.1 < USIZE_LIMIT then OutOfBounds else if remote then Overflow else InvalidRange
  }

  lemma {:induction false} FirstOutsideAt(ranges: seq<(nat, nat)>, len: nat, k: nat)
    requires k <= |ranges|
    requires forall j | 0 <= j < k :: ranges[..k][j].0 + ranges[..k][j].1 <= len
    requires k < |ranges| ==> ranges[k].0 + ranges[k].1 > len
    ensures FirstOutside(ranges, len) == k
  {
    assert forall j | 0 <= j < k :: ranges[..k][j] == ranges[j];
  }

  /** What reading many ranges answers: the bytes of each in order, the error of the first one out of bounds, or a failed fetch. */
  ghost predicate BatchAnswer(x: OwnedBuffer, ranges: seq<(nat, nat)>, answer: BufferResult<seq<seq<byte>>>)
    requires x.Valid()
  {
    var bad := FirstOutside(ranges, x.Len());
    if bad < |ranges| then answer == Err(BoundsError(x.store.Fetched?, ranges[bad]))
    else
      && AllInside(x.View(), ranges)
      && (answer == Ok(Cut(x.View(), ranges)) || (x.store.Fetched? && answer == Err(BufferError.Remote)))
  }

  lemma CutNext(bytes: seq<byte>, ranges: seq<(nat, nat)>, k: nat)
    requires k < |ranges| && AllInside(bytes, ranges[..k]) && ranges[k].0 + ranges[k].1 <= |bytes|
    ensures AllInside(bytes, ranges[..k + 1])
    ensures Cut(bytes, ranges[..k + 1]) == Cut(bytes, ranges[..k]) + [bytes[ranges[k].0..ranges[k].0 + ranges[k].1]]
  {
    assert ranges[..k + 1] == ranges[..k] + [ranges[k]];
  }

  /** The remote branch: every range is checked and shifted, then all are fetched in one batch. */
  method FetchRanges(x: OwnedBuffer, fetcher: Fetcher, ranges: seq<(nat, nat)>) returns (r: BufferResult<seq<seq<byte>>>)
    requires x.Valid() && x.store == Fetched(fetcher) && Words(ranges)
    ensures BatchAnswer(x, ranges, r)
    ensures fetcher.Reliable() ==> r != Err(BufferError.Remote)
  {
    var absolute: seq<(nat, nat)> := [];
    for k := 0 to |ranges|
      invariant AllInside(x.View(), ranges[..k])
      invariant absolute == Shifted(ranges[..k], x.start)
    {
      var (offset, len) := ranges[k];
      if offset + len >= USIZE_LIMIT {
        FirstOutsideAt(ranges, x.Len(), k);
        return Err(Overflow);
      }
      if offset + len > x.Len() {
        FirstOutsideAt(ranges, x.Len(), k);
        return Err(OutOfBounds);
      }
      absolute := absolute + [(x.start + offset, len)];
    }
    assert ranges[..|ranges|] == ranges;
    ShiftedCut(x, ranges);
    assert fetcher.ExactBatch(absolute);
    FirstOutsideAt(ranges, x.Len(), |ranges|);
    r := fetcher.readRanges(absolute);
  }

  /** The resident branch: ranges are copied out one by one, up to the first failure. */
  method CopyRanges(x: OwnedBuffer, ranges: seq<(nat, nat)>) returns (r: BufferResult<seq<seq<byte>>>)
    requires x.Valid() && !x.store.Fetched? && Words(ranges)
    ensures BatchAnswer(x, ranges, r)
  {
    var copies: seq<seq<byte>> := [];
    for k := 0 to |ranges|
      invariant AllInside(x.View(), ranges[..k])
      invariant copies == Cut(x.View(), ranges[..k])
    {
      var (offset, len) := ranges[k];
      ReadRangeIsExact(x, offset, len);
      var one := x.ReadRange(offset, len);
      if one.Err? {
        FirstOutsideAt(ranges, x.Len(), k);
        return Err(one.error);
      }
      CutNext(x.View(), ranges, k);
      copies := copies + [one.value];
    }
    assert ranges[..|ranges|] == ranges;
    FirstOutsideAt(ranges, x.Len(), |ranges|);
    r := Ok(copies);
  }

  /** Many ranges at once, whatever the backing. */
  method ReadRanges(x: OwnedBuffer, ranges: seq<(nat, nat)>) returns (r: BufferResult<seq<seq<byte>>>)
    requires x.Valid() && Words(ranges)
    ensures BatchAnswer(x, ranges, r)
    ensures Dependable(x) ==> r != Err(BufferError.Remote)
    ensures var k := FirstOutside(ranges, x.Len());
            k < |ranges| ==> r == Err(if ranges[k].0 + ranges[k].1 < 0x1_0000_0000_0000_0000 then OutOfBounds
                                      else if x.store.Fetched? then Overflow else InvalidRange)
  {
    if x.store.Fetched? {
      r := FetchRanges(x, x.store.fetcher, ranges);
    } else {
      r := CopyRanges(x, ranges);
    }
  }
}
