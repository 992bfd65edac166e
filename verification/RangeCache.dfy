/**
 The cache of fetched byte ranges: sorted, never overlapping nor touching, merged on insert.
 */
module RangeCache {
  import opened Wrappers
  import opened Bsq
  import StableSort
  import opened Overlay

  /** Contiguous bytes from absolute offset `start` on. */
  datatype CachedRange = CachedRange(start: nat, data: seq<byte>) {
    function End(): nat { start + |data| }

    predicate Covers(from: nat, to: nat) { start <= from && to <= End() }

    predicate Has(pos: nat) { start <= pos < End() }

    function At(pos: nat): byte
      requires Has(pos)
    {
      data[pos - start]
    }
  }

  predicate RangesTouch(a: CachedRange, b: CachedRange) { a.start <= b.End() && b.start <= a.End() }

  /** A buffer that starts at offset `start`, with the bytes of r written in their place. */
  function Laid(buf: seq<byte>, start: nat, r: CachedRange): seq<byte>
    requires start <= r.start
  {
    Spliced(buf, r.start - start, r.data, 0, |r.data|)
  }

  lemma LaidAt(buf: seq<byte>, start: nat, r: CachedRange, pos: nat)
    requires start <= r.start && r.End() <= start + |buf| && start <= pos < start + |buf|
    ensures |Laid(buf, start, r)| == |buf|
    ensures Laid(buf, start, r)[pos - start] == if r.Has(pos) then r.At(pos) else buf[pos - start]
  {
    SplicedAt(buf, r.start - start, r.data, 0, |r.data|, pos - start);
  }

  lemma LaidLength(buf: seq<byte>, start: nat, r: CachedRange)
    requires start <= r.start
    ensures |Laid(buf, start, r)| == |buf|
  {
  }

  /** One range over both: b's bytes laid down first, then a's over them. */
  function Merge(a: CachedRange, b: CachedRange): CachedRange {
    var start, end := Min(a.start, b.start), Max(a.End(), b.End());
    CachedRange(start, Laid(Laid(seq(end - start, _ => 0), start, b), start, a))
  }

  lemma MergeAt(a: CachedRange, b: CachedRange, pos: nat)
    requires RangesTouch(a, b)
    ensures Merge(a, b).start == Min(a.start, b.start) && Merge(a, b).End() == Max(a.End(), b.End())
    ensures Merge(a, b).Has(pos) <==> a.Has(pos) || b.Has(pos)
    ensures a.Has(pos) ==> Merge(a, b).At(pos) == a.At(pos)
    ensures b.Has(pos) && !a.Has(pos) ==> Merge(a, b).At(pos) == b.At(pos)
  {
    var start, end := Min(a.start, b.start), Max(a.End(), b.End());
    var zeros := seq(end - start, _ => 0);
    LaidLength(zeros, start, b);
    LaidLength(Laid(zeros, start, b), start, a);
    if start <= pos < end {
      LaidAt(zeros, start, b, pos);
      LaidAt(Laid(zeros, start, b), start, a, pos);
    }
  }

  /** Sorted, with a gap between any two ranges, none empty. */
  ghost predicate Separated(ranges: seq<CachedRange>) {
    && (forall i | 0 <= i < |ranges| :: ranges[i].data != [])
    && forall i, j | 0 <= i < j < |ranges| :: ranges[i].End() < ranges[j].start
  }

  /** The cached byte at an absolute position. */
  function Lookup(ranges: seq<CachedRange>, pos: nat): Option<byte> {
    if ranges == [] then None
    else if ranges[0].Has(pos) then Some(ranges[0].At(pos))
    else Lookup(ranges[1..], pos)
  }

  lemma {:induction false} LookupAppend(a: seq<CachedRange>, b: seq<CachedRange>, pos: nat)
    ensures Lookup(a + b, pos) == if Lookup(a, pos).Some? then Lookup(a, pos) else Lookup(b, pos)
  {
    if a == [] {
      assert a + b == b;
    } else {
      assert (a + b)[1..] == a[1..] + b;
      LookupAppend(a[1..], b, pos);
    }
  }

  lemma {:induction false} LookupFound(ranges: seq<CachedRange>, pos: nat)
    ensures Lookup(ranges, pos).Some? <==> exists i :: 0 <= i < |ranges| && ranges[i].Has(pos)
  {
    if ranges != [] {
      LookupFound(ranges[1..], pos);
      if i: int :| 0 <= i < |ranges[1..]| && ranges[1..][i].Has(pos) {
        assert ranges[i + 1].Has(pos);
      }
      if i: int :| 1 <= i < |ranges| && ranges[i].Has(pos) {
        assert ranges[1..][i - 1].Has(pos);
      }
    }
  }

  /** In separated ranges a position is in one range at most, so any range that has it gives the cached byte. */
  lemma {:induction false} LookupIs(ranges: seq<CachedRange>, i: nat, pos: nat)
    requires Separated(ranges) && i < |ranges| && ranges[i].Has(pos)
    ensures Lookup(ranges, pos) == Some(ranges[i].At(pos))
  {
    if i > 0 {
      assert ranges[0].End() < ranges[i].start;
      LookupIs(ranges[1..], i - 1, pos);
    }
  }

  // ----- sorting by start -----

  function StartOf(r: CachedRange): nat { r.start }

  function Place(ranges: seq<CachedRange>, r: CachedRange): seq<CachedRange> { StableSort.Insert(StartOf, ranges, r) }

  /** The stable sort by start offset. */
  function SortByStart(ranges: seq<CachedRange>): seq<CachedRange> { StableSort.SortBy(StartOf, ranges) }

  lemma PlaceLast(ranges: seq<CachedRange>, r: CachedRange)
    requires forall i | 0 <= i < |ranges| :: ranges[i].start <= r.start
    ensures Place(ranges, r) == ranges + [r]
  {
  }

  lemma {:induction false} SeparatedIsSorted(ranges: seq<CachedRange>)
    requires Separated(ranges)
    ensures SortByStart(ranges) == ranges
  {
    if ranges != [] {
      var front, last := ranges[..|ranges| - 1], ranges[|ranges| - 1];
      SeparatedIsSorted(front);
      PlaceLast(front, last);
      assert ranges == front + [last];
    }
  }

  /** r lies apart from every range. */
  ghost predicate Apart(ranges: seq<CachedRange>, r: CachedRange) {
    forall i | 0 <= i < |ranges| :: ranges[i].End() < r.start || r.End() < ranges[i].start
  }

  /** Every range ends before the offset. */
  ghost predicate AllBefore(ranges: seq<CachedRange>, offset: nat) {
    forall i | 0 <= i < |ranges| :: ranges[i].End() < offset
  }

  lemma {:induction false} PlaceBefore(ranges: seq<CachedRange>, r: CachedRange, offset: nat)
    requires AllBefore(ranges, offset) && r.End() < offset
    ensures AllBefore(Place(ranges, r), offset)
  {
    if ranges != [] && ranges[|ranges| - 1].start > r.start {
      PlaceBefore(ranges[..|ranges| - 1], r, offset);
    }
  }

  lemma SeparatedSnoc(front: seq<CachedRange>, last: CachedRange)
    requires Separated(front) && AllBefore(front, last.start) && last.data != []
    ensures Separated(front + [last])
  {}

  lemma SeparatedFront(ranges: seq<CachedRange>)
    requires Separated(ranges) && ranges != []
    ensures Separated(ranges[..|ranges| - 1]) && AllBefore(ranges[..|ranges| - 1], ranges[|ranges| - 1].start)
  {}

  /** A range apart from separated ranges is sorted into its gap. */
  lemma {:induction false} PlaceSeparated(ranges: seq<CachedRange>, r: CachedRange)
    requires Separated(ranges) && r.data != [] && Apart(ranges, r)
    ensures Separated(Place(ranges, r))
  {
    if ranges != [] {
      var front, last := ranges[..|ranges| - 1], ranges[|ranges| - 1];
      SeparatedFront(ranges);
      if last.start <= r.start {
        assert AllBefore(ranges, r.start);
        SeparatedSnoc(ranges, r);
      } else {
        PlaceSeparated(front, r);
        PlaceBefore(front, r, last.start);
        SeparatedSnoc(Place(front, r), last);
      }
    }
  }

  lemma {:induction false} PlaceLookup(ranges: seq<CachedRange>, r: CachedRange, pos: nat)
    requires Apart(ranges, r)
    ensures Lookup(Place(ranges, r), pos) == if r.Has(pos) then Some(r.At(pos)) else Lookup(ranges, pos)
  {
    if ranges == [] || ranges[|ranges| - 1].start <= r.start {
      LookupAppend(ranges, [r], pos);
      LookupFound(ranges, pos);
    } else {
      var front, last := ranges[..|ranges| - 1], ranges[|ranges| - 1];
      assert ranges == front + [last];
      PlaceLookup(front, r, pos);
      LookupAppend(Place(front, r), [last], pos);
      LookupAppend(front, [last], pos);
    }
  }

  // ----- the cache -----

  /** All of [offset, offset + len) is cached. */
  ghost predicate AllCached(ranges: seq<CachedRange>, offset: nat, len: nat) {
    forall pos: nat | offset <= pos < offset + len :: Lookup(ranges, pos).Some?
  }

  /** The bytes of [offset, offset + len), if all of them are cached. */
  ghost function Served(ranges: seq<CachedRange>, offset: nat, len: nat): Option<seq<byte>> {
    if AllCached(ranges, offset, len)
    then Some(Bytes(ranges, offset, len))
    else None
  }

  ghost function Bytes(ranges: seq<CachedRange>, offset: nat, len: nat): seq<byte> {
    seq(len, (i: nat) => Lookup(ranges, offset + i).GetOr(0))
  }

  /** The cached bytes are given by their positions. */
  lemma BytesAre(ranges: seq<CachedRange>, offset: nat, len: nat, bytes: seq<byte>)
    requires |bytes| == len && forall pos: nat | offset <= pos < offset + len :: Lookup(ranges, pos) == Some(bytes[pos - offset])
    ensures Served(ranges, offset, len) == Some(bytes)
  {
    forall i: nat | i < len
      ensures Bytes(ranges, offset, len)[i] == bytes[i]
    {
      var pos := offset + i;
      assert Lookup(ranges, pos) == Some(bytes[pos - offset]);
      assert Bytes(ranges, offset, len)[i] == Lookup(ranges, pos).GetOr(0);
    }
    forall pos: nat | offset <= pos < offset + len
      ensures Lookup(ranges, pos).Some?
    {
      assert Lookup(ranges, pos) == Some(bytes[pos - offset]);
    }
    assert Bytes(ranges, offset, len) == bytes;
  }

  lemma ServedBy(ranges: seq<CachedRange>, offset: nat, len: nat, k: nat)
    requires Separated(ranges) && len > 0 && k < |ranges| && ranges[k].Covers(offset, offset + len)
    ensures Served(ranges, offset, len) == Some(ranges[k].data[offset - ranges[k].start..offset - ranges[k].start + len])
  {
    var from := offset - ranges[k].start;
    var bytes := ranges[k].data[from..from + len];
    forall pos: nat | offset <= pos < offset + len
      ensures Lookup(ranges, pos) == Some(bytes[pos - offset])
    {
      LookupIs(ranges, k, pos);
    }
    BytesAre(ranges, offset, len, bytes);
  }

  /** Separated ranges leave gaps: bytes that no single range covers are not all cached. */
  lemma NotServed(ranges: seq<CachedRange>, offset: nat, len: nat)
    requires Separated(ranges) && len > 0
    requires forall i | 0 <= i < |ranges| :: !ranges[i].Covers(offset, offset + len)
    ensures Served(ranges, offset, len) == None
  {
    LookupFound(ranges, offset);
    if Lookup(ranges, offset).Some? {
      var i :| 0 <= i < |ranges| && ranges[i].Has(offset);
      var gap := ranges[i].End();
      assert !ranges[i].Covers(offset, offset + len);
      LookupFound(ranges, gap);
      forall j | 0 <= j < |ranges|
        ensures !ranges[j].Has(gap)
      {
        if j < i {
          assert ranges[j].End() < ranges[i].start;
        } else if i < j {
          assert ranges[i].End() < ranges[j].start;
        }
      }
      assert Lookup(ranges, gap).None?;
    }
  }

  // ----- inserting -----

  /** The byte at pos once [start, start + |data|) is cached: what was there stays, the rest of the range is new. */
  function After(before: seq<CachedRange>, start: nat, data: seq<byte>, pos: nat): Option<byte> {
    if Lookup(before, pos).Some? then Lookup(before, pos)
    else if start <= pos < start + |data| then Some(data[pos - start]) else None
  }

  /** Loop state: the ranges seen so far are absorbed into `next` or kept apart from it in `merged`. */
  ghost predicate Absorbed(seen: seq<CachedRange>, rest: seq<CachedRange>, start: nat, data: seq<byte>,
                           merged: seq<CachedRange>, next: CachedRange)
  {
    && Separated(merged) && next.data != [] && Apart(merged, next)
    && (forall i | 0 <= i < |rest| :: AllBefore(merged, rest[i].start))
    && forall pos: nat :: (if next.Has(pos) then Some(next.At(pos)) else Lookup(merged, pos)) == After(seen, start, data, pos)
  }

  /** Nothing seen before x shares a position with it. */
  lemma SeenBefore(seen: seq<CachedRange>, x: CachedRange, pos: nat)
    requires AllBefore(seen, x.start) && x.Has(pos)
    ensures Lookup(seen, pos) == None
  {
    LookupFound(seen, pos);
  }

  /** The next range touches what is being inserted and is absorbed. */
  lemma Absorb(seen: seq<CachedRange>, x: CachedRange, rest: seq<CachedRange>, start: nat, data: seq<byte>,
               merged: seq<CachedRange>, next: CachedRange)
    requires Absorbed(seen, [x] + rest, start, data, merged, next) && RangesTouch(x, next) && AllBefore(seen, x.start)
    ensures Absorbed(seen + [x], rest, start, data, merged, Merge(x, next))
  {
    var wider := Merge(x, next);
    assert ([x] + rest)[0] == x;
    assert forall i | 0 <= i < |rest| :: ([x] + rest)[i + 1] == rest[i];
    MergeAt(x, next, x.start);
    forall pos: nat
      ensures (if wider.Has(pos) then Some(wider.At(pos)) else Lookup(merged, pos)) == After(seen + [x], start, data, pos)
    {
      MergeAt(x, next, pos);
      LookupAppend(seen, [x], pos);
      if x.Has(pos) {
        SeenBefore(seen, x, pos);
      }
      assert (if next.Has(pos) then Some(next.At(pos)) else Lookup(merged, pos)) == After(seen, start, data, pos);
    }
  }

  /** The next range lies apart from what is being inserted and is kept. */
  lemma KeepApart(seen: seq<CachedRange>, x: CachedRange, rest: seq<CachedRange>, start: nat, data: seq<byte>,
                  merged: seq<CachedRange>, next: CachedRange)
    requires Absorbed(seen, [x] + rest, start, data, merged, next) && !RangesTouch(x, next) && AllBefore(seen, x.start)
    requires x.data != [] && forall i | 0 <= i < |rest| :: x.End() < rest[i].start
    ensures Absorbed(seen + [x], rest, start, data, merged + [x], next)
  {
    assert ([x] + rest)[0] == x;
    assert forall i | 0 <= i < |rest| :: ([x] + rest)[i + 1] == rest[i];
    SeparatedSnoc(merged, x);
    forall pos: nat
      ensures (if next.Has(pos) then Some(next.At(pos)) else Lookup(merged + [x], pos)) == After(seen + [x], start, data, pos)
    {
      LookupAppend(seen, [x], pos);
      LookupAppend(merged, [x], pos);
      LookupFound(merged, pos);
      if x.Has(pos) {
        SeenBefore(seen, x, pos);
      }
      assert (if next.Has(pos) then Some(next.At(pos)) else Lookup(merged, pos)) == After(seen, start, data, pos);
    }
  }

  /** Sorted into place, what was kept and what was absorbed are the new cache. */
  lemma SortedIn(seen: seq<CachedRange>, start: nat, data: seq<byte>, merged: seq<CachedRange>, next: CachedRange)
    requires Absorbed(seen, [], start, data, merged, next)
    ensures Separated(SortByStart(merged + [next])) && Inserted(seen, start, data, SortByStart(merged + [next]))
  {
    assert (merged + [next])[..|merged|] == merged;
    SeparatedIsSorted(merged);
    PlaceSeparated(merged, next);
    forall pos: nat
      ensures Lookup(SortByStart(merged + [next]), pos) == After(seen, start, data, pos)
    {
      PlaceLookup(merged, next, pos);
    }
  }

  /** The cache holds everything it held, and the rest of the new range. */
  ghost predicate Inserted(before: seq<CachedRange>, start: nat, data: seq<byte>, after: seq<CachedRange>) {
    forall pos: nat :: Lookup(after, pos) == After(before, start, data, pos)
  }

  class Cache {
    var ranges: seq<CachedRange>

    ghost predicate Valid() reads this { Separated(ranges) }

    constructor ()
      ensures ranges == [] && Valid()
    {
      ranges := [];
    }

    /** The bytes of [offset, offset + len) if a single range covers them: exactly when all of them are cached. */
    method Get(offset: nat, len: nat) returns (bytes: Option<seq<byte>>)
      requires Valid()
      ensures bytes == Served(ranges, offset, len)
    {
      if len == 0 {
        BytesAre(ranges, offset, 0, []);
        return Some([]);
      }
      for k := 0 to |ranges|
        invariant forall i | 0 <= i < k :: !ranges[i].Covers(offset, offset + len)
      {
        if ranges[k].Covers(offset, offset + len) {
          var local := offset - ranges[k].start;
          ServedBy(ranges, offset, len, k);
          return Some(ranges[k].data[local..local + len]);
        }
      }
      NotServed(ranges, offset, len);
      return None;
    }

    method Contains(offset: nat, len: nat) returns (covered: bool)
      requires Valid()
      ensures covered == AllCached(ranges, offset, len)
    {
      var bytes := Get(offset, len);
      covered := bytes.Some?;
    }

    /** Caches a fetched range, merging it with every range it touches. */
    method Insert(start: nat, data: seq<byte>)
      requires Valid()
      modifies this
      ensures Valid() && Inserted(old(ranges), start, data, ranges)
    {
      if data == [] {
        return;
      }
      var next, merged, existing := CachedRange(start, data), [], ranges;
      for k := 0 to |existing|
        invariant Absorbed(existing[..k], existing[k..], start, data, merged, next)
      {
        var x := existing[k];
        assert existing[k..] == [x] + existing[k + 1..];
        assert existing[..k + 1] == existing[..k] + [x];
        if RangesTouch(x, next) {
          Absorb(existing[..k], x, existing[k + 1..], start, data, merged, next);
          next := Merge(x, next);
        } else {
          KeepApart(existing[..k], x, existing[k + 1..], start, data, merged, next);
          merged := merged + [x];
        }
      }
      assert existing[..|existing|] == existing;
      assert existing[|existing|..] == [];
      SortedIn(existing, start, data, merged, next);
      ranges := SortByStart(merged + [next]);
    }
  }

  // ----- coherence with the source -----

  /** Every cached byte is the source's byte at that offset. */
  ghost predicate Coherent(ranges: seq<CachedRange>, source: seq<byte>) {
    forall pos: nat :: Lookup(ranges, pos).Some? ==> pos < |source| && Lookup(ranges, pos).value == source[pos]
  }

  /** Whatever is served from a coherent cache is the source's bytes. */
  lemma ServedIsExact(ranges: seq<CachedRange>, source: seq<byte>, offset: nat, len: nat)
    requires Coherent(ranges, source) && Served(ranges, offset, len).Some? && offset <= |source|
    ensures offset + len <= |source| && Served(ranges, offset, len).value == source[offset..offset + len]
  {
    if len > 0 {
      assert Lookup(ranges, offset + len - 1).Some?;
    }
    BytesAre(ranges, offset, len, source[offset..offset + len]);
  }
}
