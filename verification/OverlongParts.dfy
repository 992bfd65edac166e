/**
 Reordering tile-parts of which the last claims more bytes than there are. Only the last part of a
 codestream that splits can do so, because splitting ends there.
 */
module OverlongParts {
  import opened Wrappers
  import opened Bsq
  import opened TileParts

  /** The part's own bytes say its indices, and a length they do not have. */
  predicate Overlong(p: Part) {
    && 12 <= |p.bytes| && IsSot(p.bytes, 0)
    && |p.bytes| < U32(p.bytes, 6) && U16(p.bytes, 4) == p.isot && p.bytes[10] as nat == p.tpsot
  }

  /** Every Psot from i on is at least the size of its SOT segment. */
  ghost predicate PsotsCoverSot(cs: seq<byte>, i: nat)
    decreases |cs| - i
  {
    IsSot(cs, i) && i + 12 <= |cs| ==> 12 <= U32(cs, i + 6) && PsotsCoverSot(cs, i + U32(cs, i + 6))
  }

  // ----- what splitting finds -----

  lemma OverlongExactly(cs: seq<byte>, i: nat)
    requires IsSot(cs, i) && i + 12 <= |cs| < i + U32(cs, i + 6)
    ensures Overlong(PartAt(cs, i))
  {
    var b := PartAt(cs, i).bytes;
    assert cs[i..i + |b|] == b;
    SameFields(cs, i, b);
  }

  /** A part whose Psot reaches past the end takes all the rest. */
  lemma OverlongPart(cs: seq<byte>, i: nat)
    requires IsSot(cs, i) && i + 12 <= |cs| < i + U32(cs, i + 6)
    ensures SplitFrom(cs, i) == Ok(([PartAt(cs, i)], i + U32(cs, i + 6)))
  {
    var m := i + U32(cs, i + 6);
    SplitHere(cs, i, m);
    SplitPastEnd(cs, m);
    assert [PartAt(cs, i)] + [] == [PartAt(cs, i)];
  }

  /** Whole parts, the last of which may be overlong; then splitting has run past the end. */
  ghost predicate Kinds(cs: seq<byte>, parts: seq<Part>, end: nat) {
    parts != [] ==>
      && AllWhole(parts[..|parts| - 1])
      && (Whole(parts[|parts| - 1]) || (Overlong(parts[|parts| - 1]) && end > |cs|))
  }

  lemma KindsCons(cs: seq<byte>, part: Part, rest: seq<Part>, end: nat)
    requires Whole(part) && Kinds(cs, rest, end)
    ensures Kinds(cs, [part] + rest, end)
  {
    var all := [part] + rest;
    if rest != [] {
      assert all[..|all| - 1] == [part] + rest[..|rest| - 1];
      AllWholeCons(part, rest[..|rest| - 1]);
    }
  }

  lemma {:induction false} SplitKinds(cs: seq<byte>, i: nat)
    requires SplitFrom(cs, i).Ok? && PsotsCoverSot(cs, i)
    ensures Kinds(cs, SplitFrom(cs, i).value.0, SplitFrom(cs, i).value.1)
    decreases |cs| - i
  {
    if IsSot(cs, i) {
      var m := i + U32(cs, i + 6);
      if m <= |cs| {
        SplitHere(cs, i, m);
        WholeExactly(cs, i);
        SplitKinds(cs, m);
        KindsCons(cs, PartAt(cs, i), SplitFrom(cs, m).value.0, SplitFrom(cs, m).value.1);
      } else {
        OverlongPart(cs, i);
        OverlongExactly(cs, i);
      }
    }
  }

  // ----- splitting again -----

  /** Where the bytes of an overlong part stand, its fields are read, and its Psot is the claimed one. */
  lemma OverlongStands(cs: seq<byte>, i: nat, p: Part)
    requires Overlong(p) && Stands(cs, i, p)
    ensures IsSot(cs, i) && i + 12 <= |cs| && U32(cs, i + 6) == U32(p.bytes, 6)
    ensures U16(cs, i + 4) == p.isot && cs[i + 10] as nat == p.tpsot
  {
    SameFields(cs, i, p.bytes);
  }

  /** At the end of the codestream an overlong part is read back as it is. */
  lemma OverlongAtEnd(cs: seq<byte>, i: nat, p: Part)
    requires Overlong(p) && i + |p.bytes| == |cs| && cs[i..] == p.bytes
    ensures IsSot(cs, i) && SplitFrom(cs, i).Ok? && SplitFrom(cs, i).value.0 == [p] && SplitFrom(cs, i).value.1 > |cs|
  {
    assert cs[i..i + |p.bytes|] == cs[i..];
    OverlongStands(cs, i, p);
    OverlongPart(cs, i);
    assert PartAt(cs, i) == p;
  }

  /** Anywhere else it takes bytes of the part behind it. */
  lemma OverlongBefore(cs: seq<byte>, i: nat, p: Part)
    requires Overlong(p) && Stands(cs, i, p) && i + |p.bytes| < |cs|
    ensures SplitFrom(cs, i).Ok? ==> SplitFrom(cs, i).value.0 != [] && SplitFrom(cs, i).value.0[0] != p
  {
    OverlongStands(cs, i, p);
    SplitHere(cs, i, i + U32(cs, i + 6));
    assert |PartAt(cs, i).bytes| > |p.bytes|;
  }

  /** The first part of a run of parts stands where the run starts, and the others behind it. */
  lemma FirstStands(cs: seq<byte>, i: nat, parts: seq<Part>)
    requires parts != [] && i + |Join(parts)| == |cs| && cs[i..] == Join(parts)
    ensures Stands(cs, i, parts[0])
    ensures var m := i + |parts[0].bytes|; m + |Join(parts[1..])| == |cs| && cs[m..] == Join(parts[1..])
  {
    assert cs[i..i + |Join(parts)|] == cs[i..];
    CutRun(cs, i, parts[0].bytes, Join(parts[1..]));
    var m := i + |parts[0].bytes|;
    assert cs[m..m + |Join(parts[1..])|] == cs[m..];
  }

  lemma {:induction false} ResplitLast(cs: seq<byte>, i: nat, parts: seq<Part>)
    requires parts != [] && AllWhole(parts[..|parts| - 1]) && Overlong(parts[|parts| - 1])
    requires i + |Join(parts)| == |cs| && cs[i..] == Join(parts)
    ensures SplitFrom(cs, i).Ok? && SplitFrom(cs, i).value.0 == parts && SplitFrom(cs, i).value.1 > |cs|
    decreases |parts|
  {
    var p, rest := parts[0], parts[1..];
    FirstStands(cs, i, parts);
    assert [p] + rest == parts;
    if rest == [] {
      assert cs[i..] == p.bytes;
      OverlongAtEnd(cs, i, p);
    } else {
      assert parts[..|parts| - 1] == [p] + rest[..|rest| - 1];
      AllWholeCons(p, rest[..|rest| - 1]);
      var m := i + |p.bytes|;
      ResplitLast(cs, m, rest);
      SplitStep(cs, i, p, m, SplitFrom(cs, m));
    }
  }

  lemma {:induction false} ResplitDiffers(cs: seq<byte>, i: nat, parts: seq<Part>, k: nat)
    requires k < |parts| - 1 && Overlong(parts[k]) && AllWhole(parts[..k]) && 12 <= |parts[k + 1].bytes|
    requires i + |Join(parts)| == |cs| && cs[i..] == Join(parts)
    ensures SplitFrom(cs, i).Ok? ==> SplitFrom(cs, i).value.0 != parts
    decreases k
  {
    var p, rest := parts[0], parts[1..];
    FirstStands(cs, i, parts);
    var m := i + |p.bytes|;
    if k == 0 {
      assert rest[0] == parts[1];
      assert |Join(rest)| >= |rest[0].bytes|;
      OverlongBefore(cs, i, p);
    } else {
      assert parts[..k] == [p] + rest[..k - 1];
      AllWholeCons(p, rest[..k - 1]);
      ResplitDiffers(cs, m, rest, k - 1);
      SplitStep(cs, i, p, m, SplitFrom(cs, m));
      if SplitFrom(cs, i).Ok? {
        assert SplitFrom(cs, i).value.0[1..] == SplitFrom(cs, m).value.0;
      }
    }
  }

  // ----- where the sort puts the last part -----

  /** No other part has a larger key than the last one. */
  predicate LastStays(parts: seq<Part>) {
    forall j | 0 <= j < |parts| :: !KeyLess(parts[|parts| - 1], parts[j])
  }

  /** A stable order of all the parts. */
  ghost predicate Sorts(parts: seq<Part>, order: seq<nat>) {
    && |order| == |parts| && Below(order, |parts|) && StableSorted(parts, order)
    && forall j | 0 <= j < |parts| :: j in order
  }

  lemma OrderSorts(parts: seq<Part>)
    ensures Sorts(parts, SortedOrder(parts, |parts|))
  {
    var order := SortedOrder(parts, |parts|);
    OrderIsStableSort(parts, |parts|);
    OrderIsPermutation(parts, |parts|);
    forall j | 0 <= j < |parts| ensures j in order {
      assert Indices(|parts|)[j] == j;
      assert j in multiset(order);
    }
  }

  lemma Distinct(parts: seq<Part>, order: seq<nat>, a: nat, b: nat)
    requires Sorts(parts, order) && a < b < |parts|
    ensures order[a] != order[b]
  {
    assert Precedes(parts, order[a], order[b]);
  }

  lemma PlacedLastIsLargest(parts: seq<Part>, order: seq<nat>, j: nat)
    requires Sorts(parts, order) && j < |parts| && order[|parts| - 1] == |parts| - 1
    ensures !KeyLess(parts[|parts| - 1], parts[j])
  {
    assert j in order;
    var m :| 0 <= m < |order| && order[m] == j;
    if m < |parts| - 1 {
      assert Precedes(parts, order[m], order[|parts| - 1]);
    }
  }

  /** The last part stays last in a stable order exactly when no other part has a larger key. */
  lemma LastStaysExactly(parts: seq<Part>, order: seq<nat>, k: nat)
    requires Sorts(parts, order) && k < |parts| && order[k] == |parts| - 1
    ensures LastStays(parts) <==> k == |parts| - 1
  {
    if k == |parts| - 1 {
      forall j | 0 <= j < |parts| ensures !KeyLess(parts[|parts| - 1], parts[j]) {
        PlacedLastIsLargest(parts, order, j);
      }
    } else {
      Distinct(parts, order, k, |parts| - 1);
      assert Precedes(parts, order[k], order[|parts| - 1]);
      assert KeyLess(parts[|parts| - 1], parts[order[|parts| - 1]]);
    }
  }

  /** Sorted, the last part stands at position k, and whole parts everywhere else. */
  lemma SortedKinds(parts: seq<Part>, order: seq<nat>, k: nat)
    requires Sorts(parts, order) && k < |parts| && order[k] == |parts| - 1 && AllWhole(parts[..|parts| - 1])
    ensures Select(parts, order)[k] == parts[|parts| - 1]
    ensures forall j | 0 <= j < |parts| && j != k :: Whole(Select(parts, order)[j])
  {
    forall j | 0 <= j < |parts| && j != k ensures Whole(Select(parts, order)[j]) {
      Distinct(parts, order, if j < k then j else k, if j < k then k else j);
      assert Select(parts, order)[j] == parts[..|parts| - 1][order[j]];
    }
  }

  // ----- the exact condition -----

  lemma HeadThen(head: seq<byte>, rest: seq<byte>)
    ensures var cs := head + rest; cs[..|head|] == head && cs[|head|..] == rest
  {}

  lemma ResplitStays(cs: seq<byte>, i: nat, parts: seq<Part>)
    requires parts != [] && AllWhole(parts[..|parts| - 1]) && Overlong(parts[|parts| - 1])
    requires i + |Join(parts)| == |cs| && cs[i..] == Join(parts) && CleanHead(cs[..i])
    ensures Split(cs) == Ok(Pieces(cs[..i], parts, []))
  {
    ResplitLast(cs, i, parts);
    assert cs[i..i + |Join(parts)|] == cs[i..];
    assert |parts| > 1 ==> parts[0] == parts[..|parts| - 1][0];
    StartsWithMarker(cs, i, parts);
    HeadStaysClean(cs[..i], cs);
    SplitIs(cs, i, parts, SplitFrom(cs, i).value.1);
  }

  lemma ResplitLoses(cs: seq<byte>, i: nat, parts: seq<Part>, k: nat, tail: seq<byte>)
    requires k < |parts| - 1 && Overlong(parts[k]) && AllWhole(parts[..k]) && 12 <= |parts[k + 1].bytes|
    requires i + |Join(parts)| == |cs| && cs[i..] == Join(parts)
    ensures Split(cs) != Ok(Pieces(cs[..i], parts, tail))
  {
    ResplitDiffers(cs, i, parts, k);
  }

  /** Splitting head and parts again, with an overlong part at position k of the parts, gives them back only if it is the last. */
  lemma ResplitOverlong(head: seq<byte>, parts: seq<Part>, k: nat)
    requires k < |parts| && Overlong(parts[k]) && CleanHead(head)
    requires forall j | 0 <= j < |parts| && j != k :: Whole(parts[j])
    ensures Split(head + Join(parts)) == Ok(Pieces(head, parts, [])) <==> k == |parts| - 1
  {
    HeadThen(head, Join(parts));
    if k == |parts| - 1 {
      ResplitStays(head + Join(parts), |head|, parts);
    } else {
      ResplitLoses(head + Join(parts), |head|, parts, k, []);
    }
  }

  /**
   For Psot values of at least 12: splitting the reordered stream gives the same head and tail around
   exactly the sorted parts if and only if every Psot is in range, or the one part that is overlong,
   the last one, has no part with a larger key and so stays last.
   */
  lemma ResplitExactly(cs: seq<byte>)
    requires Split(cs).Ok? && PsotsCoverSot(cs, FirstSot(cs, 0).value)
    ensures InterleaveTileParts(cs).Ok?
    ensures var p := Split(cs).value;
            Split(InterleaveTileParts(cs).value) == Ok(Pieces(p.head, SortedParts(p.parts), p.tail))
            <==> PsotsInRange(cs, FirstSot(cs, 0).value) || LastStays(p.parts)
  {
    var p, i := Split(cs).value, FirstSot(cs, 0).value;
    SplitShape(cs);
    SplitKinds(cs, i);
    WholeIffInRange(cs, i);
    if PsotsInRange(cs, i) {
      ResplitInterleaved(cs);
    } else {
      LastIsOverlong(p.parts);
      ResplitSorted(p.head, p.parts);
      assert p.head + Join(SortedParts(p.parts)) + [] == p.head + Join(SortedParts(p.parts));
    }
  }

  lemma ResplitSorted(head: seq<byte>, parts: seq<Part>)
    requires parts != [] && AllWhole(parts[..|parts| - 1]) && Overlong(parts[|parts| - 1]) && CleanHead(head)
    ensures Split(head + Join(SortedParts(parts))) == Ok(Pieces(head, SortedParts(parts), [])) <==> LastStays(parts)
  {
    var order := SortedOrder(parts, |parts|);
    OrderSorts(parts);
    var last := |parts| - 1;
    assert last in order;
    var k :| 0 <= k < |order| && order[k] == last;
    SortedKinds(parts, order, k);
    LastStaysExactly(parts, order, k);
    ResplitOverlong(head, SortedParts(parts), k);
  }

  lemma LastIsOverlong(parts: seq<Part>)
    requires parts != [] && AllWhole(parts[..|parts| - 1]) && !AllWhole(parts)
    ensures !Whole(parts[|parts| - 1])
  {
    if Whole(parts[|parts| - 1]) {
      forall k | 0 <= k < |parts| ensures Whole(parts[k]) {
        assert k < |parts| - 1 ==> parts[k] == parts[..|parts| - 1][k];
      }
    }
  }

  // ----- a stream that does not survive -----

  // A tile-part of tile 1, and one of tile 0 whose Psot claims 255 bytes.
  const LAST_TILE: seq<byte> := [0xFF, 0x90, 0, 10, 0, 1, 0, 0, 0, 12, 0, 1]
  const TOO_LONG: seq<byte> := [0xFF, 0x90, 0, 10, 0, 0, 0, 0, 0, 255, 0, 1]

  lemma NumbersOf(cs: seq<byte>, i: nat)
    requires i + 12 <= |cs|
    ensures U16(cs, i + 4) == cs[i + 4] as nat * 0x100 + cs[i + 5] as nat
    ensures U32(cs, i + 6) == ((cs[i + 6] as nat * 0x100 + cs[i + 7] as nat) * 0x100 + cs[i + 8] as nat) * 0x100 + cs[i + 9] as nat
  {
    assert BigEndian(cs, i + 4, 1) == cs[i + 4] as nat;
    assert BigEndian(cs, i + 6, 1) == cs[i + 6] as nat;
    assert BigEndian(cs, i + 6, 2) == cs[i + 6] as nat * 0x100 + cs[i + 7] as nat;
    assert BigEndian(cs, i + 6, 3) == (cs[i + 6] as nat * 0x100 + cs[i + 7] as nat) * 0x100 + cs[i + 8] as nat;
  }

  lemma TwoPartsSplit()
    ensures Split(LAST_TILE + TOO_LONG) == Ok(Pieces([], [Part(1, 0, LAST_TILE), Part(0, 0, TOO_LONG)], []))
  {
    var cs := LAST_TILE + TOO_LONG;
    NumbersOf(cs, 0);
    NumbersOf(cs, 12);
    OverlongPart(cs, 12);
    SplitHere(cs, 0, 12);
    assert PartAt(cs, 12) == Part(0, 0, TOO_LONG);
    assert PartAt(cs, 0) == Part(1, 0, LAST_TILE);
    assert [Part(1, 0, LAST_TILE)] + [Part(0, 0, TOO_LONG)] == [Part(1, 0, LAST_TILE), Part(0, 0, TOO_LONG)];
    SplitIs(cs, 0, [Part(1, 0, LAST_TILE), Part(0, 0, TOO_LONG)], 267);
  }

  lemma TwoPartsSwap()
    ensures var parts := [Part(1, 0, LAST_TILE), Part(0, 0, TOO_LONG)];
            Join(SortedParts(parts)) == TOO_LONG + LAST_TILE
  {
    var parts := [Part(1, 0, LAST_TILE), Part(0, 0, TOO_LONG)];
    assert SortedOrder(parts, 1) == [0];
    assert KeyLess(parts[1], parts[0]);
    assert Insert(parts, [0], 1) == [1, 0];
    assert SortedParts(parts) == [parts[1]] + [parts[0]];
    JoinFirst(parts[1], [parts[0]], []);
    JoinFirst(parts[0], [], []);
  }

  lemma OnePartSplit()
    ensures Split(TOO_LONG + LAST_TILE) == Ok(Pieces([], [Part(0, 0, TOO_LONG + LAST_TILE)], []))
  {
    var moved := TOO_LONG + LAST_TILE;
    NumbersOf(moved, 0);
    OverlongPart(moved, 0);
    assert PartAt(moved, 0) == Part(0, 0, moved);
    SplitIs(moved, 0, [Part(0, 0, moved)], 255);
  }

  /** Moved in front of another part, a part with too large a Psot swallows it. */
  lemma OverlongPartSwallows()
    ensures var cs := LAST_TILE + TOO_LONG;
            && Split(cs) == Ok(Pieces([], [Part(1, 0, LAST_TILE), Part(0, 0, TOO_LONG)], []))
            && InterleaveTileParts(cs) == Ok(TOO_LONG + LAST_TILE)
            && Split(TOO_LONG + LAST_TILE) == Ok(Pieces([], [Part(0, 0, TOO_LONG + LAST_TILE)], []))
  {
    TwoPartsSplit();
    TwoPartsSwap();
    OnePartSplit();
    InterleaveIs(LAST_TILE + TOO_LONG, [Part(1, 0, LAST_TILE), Part(0, 0, TOO_LONG)]);
  }

  lemma InterleaveIs(cs: seq<byte>, parts: seq<Part>)
    requires Split(cs) == Ok(Pieces([], parts, []))
    ensures InterleaveTileParts(cs) == Ok(Join(SortedParts(parts)))
  {
    var joined := Join(SortedParts(parts));
    assert [] + joined + [] == joined;
  }
}
