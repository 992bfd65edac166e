/**
 Splitting a JPEG 2000 codestream at its tile-parts and putting them back in resolution-major
 order (ISO/IEC 15444-1, A.4.2: the SOT marker segment).
 */
module TileParts {
  import opened Wrappers
  import opened Bsq

  /** Tile index, tile-part index within the tile, and the whole tile-part with its SOT segment. */
  datatype Part = Part(isot: nat, tpsot: nat, bytes: seq<byte>)

  datatype Pieces = Pieces(head: seq<byte>, parts: seq<Part>, tail: seq<byte>)

  datatype SplitError = NoSot | ShortSegment(at: nat) | PsotZero(at: nat)

  type SplitResult<+T> = Result<T, SplitError>

  // ----- fields -----

  predicate IsSot(cs: seq<byte>, i: nat) { i + 1 < |cs| && cs[i] == 0xFF && cs[i + 1] == 0x90 }

  /** The n bytes at i, most significant first. */
  function BigEndian(s: seq<byte>, i: nat, n: nat): nat
    requires i + n <= |s|
  {
    if n == 0 then 0 else BigEndian(s, i, n - 1) * 0x100 + s[i + n - 1] as nat
  }

  function U16(s: seq<byte>, i: nat): nat
    requires i + 2 <= |s|
  {
    BigEndian(s, i, 2)
  }

  function U32(s: seq<byte>, i: nat): nat
    requires i + 4 <= |s|
  {
    BigEndian(s, i, 4)
  }

  /** The same bytes have the same value. */
  lemma {:induction false} SameNumber(a: seq<byte>, i: nat, b: seq<byte>, j: nat, n: nat)
    requires i + n <= |a| && j + n <= |b|
    requires forall k | j <= k < j + n :: a[k - j + i] == b[k]
    ensures BigEndian(a, i, n) == BigEndian(b, j, n)
  {
    if n > 0 {
      SameNumber(a, i, b, j, n - 1);
    }
  }

  /** `s[i..j]` where a bound past the end means the end. */
  function Slice(s: seq<byte>, i: nat, j: nat): seq<byte> {
    if i <= j <= |s| then s[i..j] else if i <= |s| <= j then s[i..] else []
  }

  // ----- splitting -----

  /** The first marker at or after i. */
  function FirstSot(cs: seq<byte>, i: nat): (r: SplitResult<nat>)
    ensures r.Ok? ==> i <= r.value && IsSot(cs, r.value) && forall k | i <= k < r.value :: !IsSot(cs, k)
    ensures r.Err? ==> r.error == NoSot && forall k | i <= k :: !IsSot(cs, k)
    decreases |cs| - i
  {
    if IsSot(cs, i) then Ok(i)
    else if i + 1 < |cs| then FirstSot(cs, i + 1)
    else Err(NoSot)
  }

  /** The tile-parts from i on, and where they end. */
  function SplitFrom(cs: seq<byte>, i: nat): SplitResult<(seq<Part>, nat)>
    decreases |cs| - i
  {
    if !IsSot(cs, i) then Ok(([], i))
    else if |cs| < i + 12 then Err(ShortSegment(i))
    else
      var psot := U32(cs, i + 6);
      if psot == 0 then Err(PsotZero(i))
      else
        WithParts([PartAt(cs, i)], SplitFrom(cs, i + psot))
  }

  /** The tile-part whose marker stands at i. */
  function PartAt(cs: seq<byte>, i: nat): Part
    requires i + 12 <= |cs|
  {
    Part(U16(cs, i + 4), cs[i + 10] as nat, Slice(cs, i, i + U32(cs, i + 6)))
  }

  function Split(cs: seq<byte>): SplitResult<Pieces> {
    match FirstSot(cs, 0)
    case Err(e) => Err(e)
    case Ok(i) =>
      match SplitFrom(cs, i)
      case Err(e) => Err(e)
      case Ok((parts, end)) => Ok(Pieces(cs[..i], parts, Slice(cs, end, |cs|)))
  }

  function WithParts(parts: seq<Part>, rest: SplitResult<(seq<Part>, nat)>): SplitResult<(seq<Part>, nat)> {
    match rest
    case Err(e) => Err(e)
    case Ok((more, end)) => Ok((parts + more, end))
  }

  /** Walks the codestream from marker to marker. The loop ends because a Psot of 0 is rejected. */
  method WalkTileParts(cs: seq<byte>, start: nat) returns (result: SplitResult<(seq<Part>, nat)>)
    ensures result == SplitFrom(cs, start)
  {
    var i, parts := start, [];
    PrependNothing(SplitFrom(cs, i));
    while IsSot(cs, i)
      invariant Walked(cs, start, i, parts)
      decreases |cs| - i
    {
      WalkEnds(cs, start, i, parts);
      if |cs| < i + 12 {
        return Err(ShortSegment(i));
      }
      var psot := U32(cs, i + 6);
      if psot == 0 {
        return Err(PsotZero(i));
      }
      AnotherPart(cs, start, i, parts);
      parts := parts + [PartAt(cs, i)];
      i := i + psot;
    }
    WalkEnds(cs, start, i, parts);
    return Ok((parts, i));
  }

  /** What precedes the first marker, the tile-parts, and what follows them. */
  method SplitTileParts(cs: seq<byte>) returns (result: SplitResult<Pieces>)
    ensures result == Split(cs)
  {
    var first := FirstSot(cs, 0);
    if first.Err? {
      return Err(first.error);
    }
    var walked := WalkTileParts(cs, first.value);
    if walked.Err? {
      return Err(walked.error);
    }
    var (parts, end) := walked.value;
    return Ok(Pieces(cs[..first.value], parts, Slice(cs, end, |cs|)));
  }

  lemma PrependNothing(rest: SplitResult<(seq<Part>, nat)>)
    ensures WithParts([], rest) == rest
  {
    match rest
    case Err(_) =>
    case Ok((more, end)) => assert [] + more == more;
  }

  lemma PrependMoves(parts: seq<Part>, part: Part, rest: SplitResult<(seq<Part>, nat)>)
    ensures WithParts(parts, WithParts([part], rest)) == WithParts(parts + [part], rest)
  {
    match rest
    case Err(_) =>
    case Ok((more, end)) => assert parts + ([part] + more) == parts + [part] + more;
  }

  /** The walk from the start has found the parts and has got to i. */
  ghost predicate Walked(cs: seq<byte>, start: nat, i: nat, parts: seq<Part>) {
    SplitFrom(cs, start) == WithParts(parts, SplitFrom(cs, i))
  }

  /** One turn of the loop moves one part from the rest to the parts. */
  lemma AnotherPart(cs: seq<byte>, start: nat, i: nat, parts: seq<Part>)
    requires Walked(cs, start, i, parts) && IsSot(cs, i) && i + 12 <= |cs| && U32(cs, i + 6) > 0
    ensures Walked(cs, start, i + U32(cs, i + 6), parts + [PartAt(cs, i)])
  {
    var m := i + U32(cs, i + 6);
    SplitHere(cs, i, m);
    PrependMoves(parts, PartAt(cs, i), SplitFrom(cs, m));
  }

  /** The walk ends at the first position without a marker, or at a marker that cannot be read. */
  lemma WalkEnds(cs: seq<byte>, start: nat, i: nat, parts: seq<Part>)
    requires Walked(cs, start, i, parts)
    ensures !IsSot(cs, i) ==> SplitFrom(cs, start) == Ok((parts, i))
    ensures IsSot(cs, i) && |cs| < i + 12 ==> SplitFrom(cs, start) == Err(ShortSegment(i))
    ensures IsSot(cs, i) && i + 12 <= |cs| && U32(cs, i + 6) == 0 ==> SplitFrom(cs, start) == Err(PsotZero(i))
  {
    assert parts + [] == parts;
  }

  // ----- the walk, told by its positions -----

  /** The walk passes position i: a marker stands there, its segment is complete, and its Psot leads on to the next position. */
  ghost predicate Passes(cs: seq<byte>, i: nat, next: nat) {
    IsSot(cs, i) && i + 12 <= |cs| && U32(cs, i + 6) > 0 && next == i + U32(cs, i + 6)
  }

  /** The positions of a walk, each passed but the last. */
  ghost predicate IsWalk(cs: seq<byte>, ps: seq<nat>) {
    ps != [] && forall k | 0 <= k < |ps| - 1 :: Passes(cs, ps[k], ps[k + 1])
  }

  /** The part that lies between two positions of a walk, its indices as its segment gives them. */
  ghost predicate LiesBetween(cs: seq<byte>, part: Part, i: nat, next: nat) {
    && i + 12 <= |cs| && part.bytes == Slice(cs, i, next)
    && part.isot == cs[i + 4] as nat * 0x100 + cs[i + 5] as nat && part.tpsot == cs[i + 10] as nat
  }

  /** What the walk gives: one part for each position it passes; or the reason why it cannot pass its last position. */
  ghost predicate WalkGives(cs: seq<byte>, ps: seq<nat>, split: SplitResult<(seq<Part>, nat)>)
    requires ps != []
  {
    var last := ps[|ps| - 1];
    match split
    case Ok((parts, end)) =>
      && !IsSot(cs, last) && end == last && |parts| == |ps| - 1
      && forall k | 0 <= k < |parts| :: LiesBetween(cs, parts[k], ps[k], ps[k + 1])
    case Err(ShortSegment(at)) => at == last && IsSot(cs, last) && |cs| < last + 12
    case Err(PsotZero(at)) => at == last && IsSot(cs, last) && last + 12 <= |cs| && U32(cs, last + 6) == 0
    case Err(NoSot) => false
  }

  lemma U16Is(cs: seq<byte>, i: nat)
    requires i + 2 <= |cs|
    ensures U16(cs, i) == cs[i] as nat * 0x100 + cs[i + 1] as nat
  {
    assert BigEndian(cs, i, 1) == cs[i] as nat;
  }

  lemma WalkOn(cs: seq<byte>, i: nat, m: nat, ps: seq<nat>, rest: SplitResult<(seq<Part>, nat)>)
    requires Passes(cs, i, m) && IsWalk(cs, ps) && ps[0] == m && WalkGives(cs, ps, rest)
    ensures IsWalk(cs, [i] + ps) && WalkGives(cs, [i] + ps, WithParts([PartAt(cs, i)], rest))
  {
    U16Is(cs, i + 4);
    var all := [i] + ps;
    forall k | 0 <= k < |all| - 1 ensures Passes(cs, all[k], all[k + 1]) {
      assert k > 0 ==> all[k] == ps[k - 1];
    }
    if rest.Ok? {
      var parts := [PartAt(cs, i)] + rest.value.0;
      forall k | 0 <= k < |parts| ensures LiesBetween(cs, parts[k], all[k], all[k + 1]) {
        assert k > 0 ==> parts[k] == rest.value.0[k - 1] && all[k] == ps[k - 1];
      }
    }
  }

  /** Splitting from position i is what the walk from there gives. */
  lemma {:induction false} SplitFollowsWalk(cs: seq<byte>, i: nat) returns (ps: seq<nat>)
    ensures IsWalk(cs, ps) && ps[0] == i && WalkGives(cs, ps, SplitFrom(cs, i))
    decreases |cs| - i
  {
    if IsSot(cs, i) && i + 12 <= |cs| && U32(cs, i + 6) > 0 {
      var m := i + U32(cs, i + 6);
      var rest := SplitFollowsWalk(cs, m);
      SplitHere(cs, i, m);
      WalkOn(cs, i, m, rest, SplitFrom(cs, m));
      ps := [i] + rest;
    } else {
      ps := [i];
    }
  }

  /** A codestream fails to split for want of a marker, or as the walk from its first marker fails. */
  lemma SplitAnswers(cs: seq<byte>)
    ensures Split(cs) == Err(NoSot) <==> forall k: nat :: !(k + 1 < |cs| && cs[k] == 0xFF && cs[k + 1] == 0x90)
    ensures FirstSot(cs, 0).Ok? ==>
              exists ps :: IsWalk(cs, ps) && ps[0] == FirstSot(cs, 0).value && WalkGives(cs, ps, SplitFrom(cs, ps[0]))
                           && (Split(cs).Ok? <==> !IsSot(cs, ps[|ps| - 1]))
  {
    if FirstSot(cs, 0).Ok? {
      var i := FirstSot(cs, 0).value;
      assert IsSot(cs, i);
      var ps := SplitFollowsWalk(cs, i);
      assert WalkGives(cs, ps, SplitFrom(cs, ps[0]));
    } else {
      forall k: nat ensures !(k + 1 < |cs| && cs[k] == 0xFF && cs[k + 1] == 0x90) {
        assert !IsSot(cs, k);
      }
    }
  }

  // ----- joining -----

  function Join(parts: seq<Part>): seq<byte> {
    if parts == [] then [] else parts[0].bytes + Join(parts[1..])
  }

  lemma CutHere(cs: seq<byte>, i: nat, psot: nat)
    requires i <= |cs|
    ensures i + psot <= |cs| ==> Slice(cs, i, i + psot) + cs[i + psot..] == cs[i..]
    ensures i + psot > |cs| ==> Slice(cs, i, i + psot) + Slice(cs, i + psot, |cs|) == cs[i..]
  {}

  lemma JoinFirst(part: Part, rest: seq<Part>, tail: seq<byte>)
    ensures Join([part] + rest) + tail == part.bytes + (Join(rest) + tail)
  {
    assert ([part] + rest)[1..] == rest;
  }

  /** The parts found from i on and what follows them are all there is from i on. */
  ghost predicate Covers(cs: seq<byte>, i: nat, split: SplitResult<(seq<Part>, nat)>)
    requires i <= |cs|
  {
    split.Ok? ==> cs[i..] == Join(split.value.0) + Slice(cs, split.value.1, |cs|)
  }

  lemma CoversStep(cs: seq<byte>, i: nat, m: nat, part: Part, rest: SplitResult<(seq<Part>, nat)>,
                   whole: SplitResult<(seq<Part>, nat)>)
    requires i <= |cs| && i <= m && part.bytes == Slice(cs, i, m)
    requires if m <= |cs| then Covers(cs, m, rest) else rest == Ok(([], m))
    requires whole == WithParts([part], rest)
    ensures Covers(cs, i, whole)
  {
    if rest.Ok? {
      JoinFirst(part, rest.value.0, Slice(cs, rest.value.1, |cs|));
      CutHere(cs, i, m - i);
    }
  }

  lemma SplitPastEnd(cs: seq<byte>, m: nat)
    requires m > |cs|
    ensures SplitFrom(cs, m) == Ok(([], m))
  {}

  lemma SplitHere(cs: seq<byte>, i: nat, m: nat)
    requires i + 12 <= |cs| && IsSot(cs, i) && m == i + U32(cs, i + 6) > i
    ensures SplitFrom(cs, i) == WithParts([PartAt(cs, i)], SplitFrom(cs, m))
    ensures PartAt(cs, i).bytes == Slice(cs, i, m)
  {}

  lemma CoversHere(cs: seq<byte>, i: nat, m: nat)
    requires i + 12 <= |cs| && IsSot(cs, i) && m == i + U32(cs, i + 6) > i
    requires m <= |cs| ==> Covers(cs, m, SplitFrom(cs, m))
    ensures Covers(cs, i, SplitFrom(cs, i))
  {
    if m > |cs| {
      SplitPastEnd(cs, m);
    }
    SplitHere(cs, i, m);
    CoversStep(cs, i, m, PartAt(cs, i), SplitFrom(cs, m), SplitFrom(cs, i));
  }

  lemma {:induction false} SplitFromCovers(cs: seq<byte>, i: nat)
    requires i <= |cs|
    ensures Covers(cs, i, SplitFrom(cs, i))
    decreases |cs| - i
  {
    if !IsSot(cs, i) {
      assert cs[i..|cs|] == cs[i..];
    } else if i + 12 <= |cs| && U32(cs, i + 6) != 0 {
      var m := i + U32(cs, i + 6);
      if m <= |cs| {
        SplitFromCovers(cs, m);
      }
      CoversHere(cs, i, m);
    }
  }

  /** Head, tile-parts and tail rebuild every codestream that splits, whatever its Psot values. */
  lemma SplitRebuilds(cs: seq<byte>)
    requires Split(cs).Ok?
    ensures var p := Split(cs).value;
            p.head + Join(p.parts) + p.tail == cs
  {
    var i := FirstSot(cs, 0).value;
    SplitFromCovers(cs, i);
    var (parts, end) := SplitFrom(cs, i).value;
    Rejoin(cs, i, Join(parts), Slice(cs, end, |cs|));
  }

  lemma Rejoin(cs: seq<byte>, i: nat, a: seq<byte>, b: seq<byte>)
    requires i <= |cs| && cs[i..] == a + b
    ensures cs[..i] + a + b == cs
  {
    assert cs[..i] + a + b == cs[..i] + (a + b);
    assert cs == cs[..i] + cs[i..];
  }

  // ----- re-splitting -----

  /** The part's own bytes say what it is: its marker, its length and its indices. */
  predicate Whole(p: Part) {
    && 12 <= |p.bytes| && IsSot(p.bytes, 0)
    && U32(p.bytes, 6) == |p.bytes| && U16(p.bytes, 4) == p.isot && p.bytes[10] as nat == p.tpsot
  }

  ghost predicate AllWhole(parts: seq<Part>) {
    forall k | 0 <= k < |parts| :: Whole(parts[k])
  }

  lemma AllWholeCons(part: Part, rest: seq<Part>)
    ensures AllWhole([part] + rest) <==> Whole(part) && AllWhole(rest)
  {
    var all := [part] + rest;
    assert all[0] == part;
    forall k | 0 <= k < |rest| ensures all[k + 1] == rest[k] {
    }
    if AllWhole(all) {
      forall k | 0 <= k < |rest| ensures Whole(rest[k]) {
        assert Whole(all[k + 1]);
      }
    }
  }

  /** A whole part stands at i. */
  ghost predicate Stands(cs: seq<byte>, i: nat, p: Part) {
    i + |p.bytes| <= |cs| && cs[i..i + |p.bytes|] == p.bytes
  }

  /** A copy of the bytes at i has the fields that are read at i. */
  lemma SameFields(cs: seq<byte>, i: nat, b: seq<byte>)
    requires 12 <= |b| && i + |b| <= |cs| && cs[i..i + |b|] == b
    ensures IsSot(b, 0) == IsSot(cs, i) && b[10] == cs[i + 10]
    ensures U16(b, 4) == U16(cs, i + 4) && U32(b, 6) == U32(cs, i + 6)
  {
    forall k | 0 <= k < |b| ensures b[k] == cs[k + i] {
      assert cs[i..i + |b|][k] == cs[i + k];
    }
    SameNumber(cs, i + 4, b, 4, 2);
    SameNumber(cs, i + 6, b, 6, 4);
  }

  /** A whole part is read back where it stands. */
  lemma PartStands(cs: seq<byte>, i: nat, p: Part)
    requires Whole(p) && Stands(cs, i, p)
    ensures IsSot(cs, i) && i + 12 <= |cs| && U32(cs, i + 6) == |p.bytes| && PartAt(cs, i) == p
  {
    SameFields(cs, i, p.bytes);
  }

  /** Every Psot from i on is at least the size of its SOT segment and stays inside the codestream. */
  ghost predicate PsotsInRange(cs: seq<byte>, i: nat)
    decreases |cs| - i
  {
    IsSot(cs, i) && i + 12 <= |cs| ==>
      12 <= U32(cs, i + 6) <= |cs| - i && PsotsInRange(cs, i + U32(cs, i + 6))
  }

  lemma WholeExactly(cs: seq<byte>, i: nat)
    requires IsSot(cs, i) && i + 12 <= |cs|
    ensures Whole(PartAt(cs, i)) <==> 12 <= U32(cs, i + 6) <= |cs| - i
  {
    var b := PartAt(cs, i).bytes;
    assert cs[i..i + |b|] == b;
    if |b| >= 12 {
      SameFields(cs, i, b);
    }
  }

  /** The tile-parts of a codestream that splits are whole exactly when all its Psot values are in range. */
  lemma {:induction false} WholeIffInRange(cs: seq<byte>, i: nat)
    requires SplitFrom(cs, i).Ok?
    ensures PsotsInRange(cs, i) <==> AllWhole(SplitFrom(cs, i).value.0)
    decreases |cs| - i
  {
    if IsSot(cs, i) {
      var m := i + U32(cs, i + 6);
      WholeIffInRange(cs, m);
      WholeExactly(cs, i);
      WholeFrom(cs, i, m);
    }
  }

  lemma WholeFrom(cs: seq<byte>, i: nat, m: nat)
    requires i + 12 <= |cs| && IsSot(cs, i) && m == i + U32(cs, i + 6) > i && SplitFrom(cs, m).Ok?
    ensures SplitFrom(cs, i).Ok?
    ensures AllWhole(SplitFrom(cs, i).value.0) <==> Whole(PartAt(cs, i)) && AllWhole(SplitFrom(cs, m).value.0)
  {
    SplitHere(cs, i, m);
    AllWholeCons(PartAt(cs, i), SplitFrom(cs, m).value.0);
  }

  lemma SplitStep(cs: seq<byte>, i: nat, p: Part, m: nat, rest: SplitResult<(seq<Part>, nat)>)
    requires Whole(p) && Stands(cs, i, p) && m == i + |p.bytes| && SplitFrom(cs, m) == rest
    ensures SplitFrom(cs, i) == WithParts([p], rest)
  {
    PartStands(cs, i, p);
  }

  lemma CutRun(cs: seq<byte>, i: nat, a: seq<byte>, b: seq<byte>)
    requires i + |a + b| <= |cs| && cs[i..i + |a + b|] == a + b
    ensures cs[i..i + |a|] == a && cs[i + |a|..i + |a| + |b|] == b
  {
    var run := cs[i..i + |a + b|];
    assert run[..|a|] == a && run[|a|..] == b;
    assert cs[i..i + |a|] == run[..|a|] && cs[i + |a|..i + |a| + |b|] == run[|a|..];
  }

  lemma {:induction false} ResplitFrom(cs: seq<byte>, i: nat, parts: seq<Part>)
    requires AllWhole(parts)
    requires i + |Join(parts)| <= |cs| && cs[i..i + |Join(parts)|] == Join(parts)
    requires !IsSot(cs, i + |Join(parts)|)
    ensures SplitFrom(cs, i) == Ok((parts, i + |Join(parts)|))
    decreases |parts|
  {
    if parts != [] {
      var p, rest := parts[0], parts[1..];
      assert Whole(p);
      var m := i + |p.bytes|;
      CutRun(cs, i, p.bytes, Join(rest));
      ResplitFrom(cs, m, rest);
      SplitStep(cs, i, p, m, SplitFrom(cs, m));
      assert [p] + rest == parts;
    }
  }

  /** No marker starts in the head, even with the parts' first marker right behind it. */
  ghost predicate CleanHead(head: seq<byte>) {
    forall k | 0 <= k < |head| :: !IsSot(head, k)
  }

  lemma Concat3(a: seq<byte>, b: seq<byte>, c: seq<byte>)
    ensures var s := a + b + c;
            s[..|a|] == a && s[|a|..|a| + |b|] == b && s[|a| + |b|..] == c
  {
    var s := a + b + c;
    assert forall k | 0 <= k < |b| :: s[|a| + k] == b[k];
  }

  /** Whole parts between a clean head and a tail that no marker starts are read back as they are. */
  lemma Resplit(head: seq<byte>, parts: seq<Part>, tail: seq<byte>)
    requires parts != [] && AllWhole(parts)
    requires CleanHead(head) && !IsSot(tail, 0)
    ensures Split(head + Join(parts) + tail) == Ok(Pieces(head, parts, tail))
  {
    Concat3(head, Join(parts), tail);
    ResplitAt(head + Join(parts) + tail, head, parts, tail);
  }

  lemma ResplitAt(cs: seq<byte>, head: seq<byte>, parts: seq<Part>, tail: seq<byte>)
    requires parts != [] && AllWhole(parts)
    requires CleanHead(head) && !IsSot(tail, 0)
    requires |cs| == |head| + |Join(parts)| + |tail|
    requires cs[..|head|] == head && cs[|head|..|head| + |Join(parts)|] == Join(parts) && cs[|head| + |Join(parts)|..] == tail
    ensures Split(cs) == Ok(Pieces(head, parts, tail))
  {
    var i, end := |head|, |head| + |Join(parts)|;
    assert Whole(parts[0]);
    TailStarts(cs, end, tail);
    ResplitFrom(cs, i, parts);
    StartsWithMarker(cs, i, parts);
    HeadStaysClean(head, cs);
    SplitIs(cs, i, parts, end);
    assert cs[end..|cs|] == cs[end..];
  }

  lemma TailStarts(cs: seq<byte>, end: nat, tail: seq<byte>)
    requires end <= |cs| && cs[end..] == tail
    ensures IsSot(cs, end) == IsSot(tail, 0)
  {
    assert forall k | 0 <= k < |tail| :: cs[end + k] == cs[end..][k];
  }

  lemma StartsWithMarker(cs: seq<byte>, i: nat, parts: seq<Part>)
    requires parts != [] && IsSot(parts[0].bytes, 0)
    requires i + |Join(parts)| <= |cs| && cs[i..i + |Join(parts)|] == Join(parts)
    ensures IsSot(cs, i)
  {
    CutRun(cs, i, parts[0].bytes, Join(parts[1..]));
    var b := cs[i..i + |parts[0].bytes|];
    assert b[0] == cs[i] && b[1] == cs[i + 1];
  }

  lemma SplitIs(cs: seq<byte>, i: nat, parts: seq<Part>, end: nat)
    requires FirstSot(cs, 0) == Ok(i) && SplitFrom(cs, i) == Ok((parts, end))
    ensures Split(cs) == Ok(Pieces(cs[..i], parts, Slice(cs, end, |cs|)))
  {}

  lemma HeadStaysClean(head: seq<byte>, cs: seq<byte>)
    requires CleanHead(head) && head <= cs && IsSot(cs, |head|)
    ensures FirstSot(cs, 0) == Ok(|head|)
  {
    forall k | 0 <= k < |head|
      ensures !IsSot(cs, k)
    {
      assert !IsSot(head, k);
    }
  }

  /** What splitting always yields: a clean head, at least one part, and a tail that no marker starts. */
  lemma SplitShape(cs: seq<byte>)
    requires Split(cs).Ok?
    ensures var p := Split(cs).value;
            CleanHead(p.head) && p.parts != [] && !IsSot(p.tail, 0)
  {
    var i := FirstSot(cs, 0).value;
    forall k | 0 <= k < i
      ensures !IsSot(cs[..i], k)
    {
      assert !IsSot(cs, k);
    }
    SplitFromEnds(cs, i);
  }

  lemma {:induction false} SplitFromEnds(cs: seq<byte>, i: nat)
    requires SplitFrom(cs, i).Ok?
    ensures !IsSot(cs, SplitFrom(cs, i).value.1)
    decreases |cs| - i
  {
    if IsSot(cs, i) {
      SplitFromEnds(cs, i + U32(cs, i + 6));
    }
  }

  // ----- resolution-major order -----

  /** The sort key: tile-part index first, then tile index. */
  predicate KeyLess(a: Part, b: Part) {
    a.tpsot < b.tpsot || (a.tpsot == b.tpsot && a.isot < b.isot)
  }

  /** Every entry is an index below n. */
  predicate Below(order: seq<nat>, n: nat) { forall i | 0 <= i < |order| :: order[i] < n }

  /** Index j put after every index whose part does not come later. */
  function Insert(parts: seq<Part>, order: seq<nat>, j: nat): (r: seq<nat>)
    requires j < |parts| && Below(order, |parts|)
    ensures |r| == |order| + 1 && Below(r, |parts|)
  {
    if order == [] || !KeyLess(parts[j], parts[order[|order| - 1]]) then order + [j]
    else Insert(parts, order[..|order| - 1], j) + [order[|order| - 1]]
  }

  /** The stable order of the first n parts by key. */
  function SortedOrder(parts: seq<Part>, n: nat): (order: seq<nat>)
    requires n <= |parts|
    ensures |order| == n && Below(order, |parts|)
  {
    if n == 0 then [] else Insert(parts, SortedOrder(parts, n - 1), n - 1)
  }

  function Select(parts: seq<Part>, order: seq<nat>): seq<Part>
    requires Below(order, |parts|)
  {
    seq(|order|, i requires 0 <= i < |order| => parts[order[i]])
  }

  function SortedParts(parts: seq<Part>): seq<Part> { Select(parts, SortedOrder(parts, |parts|)) }

  /** The codestream with its tile-parts in resolution-major order. */
  function InterleaveTileParts(cs: seq<byte>): SplitResult<seq<byte>> {
    match Split(cs)
    case Err(e) => Err(e)
    case Ok(p) => Ok(p.head + Join(SortedParts(p.parts)) + p.tail)
  }

  // ----- what the sort does -----

  /** Index a may stand before index b: its part has a smaller key, or an equal one and came first. */
  predicate Precedes(parts: seq<Part>, a: nat, b: nat)
    requires a < |parts| && b < |parts|
  {
    KeyLess(parts[a], parts[b]) || (!KeyLess(parts[b], parts[a]) && a < b)
  }

  /** Sorted by key, parts with equal keys in their original order. */
  ghost predicate StableSorted(parts: seq<Part>, order: seq<nat>)
    requires Below(order, |parts|)
  {
    forall a, b | 0 <= a < b < |order| :: Precedes(parts, order[a], order[b])
  }

  lemma {:induction false} InsertBelow(parts: seq<Part>, order: seq<nat>, j: nat)
    requires j < |parts| && Below(order, j)
    ensures Below(Insert(parts, order, j), j + 1)
  {
    if order != [] && KeyLess(parts[j], parts[order[|order| - 1]]) {
      InsertBelow(parts, order[..|order| - 1], j);
    }
  }

  lemma {:induction false} InsertMultiset(parts: seq<Part>, order: seq<nat>, j: nat)
    requires j < |parts| && Below(order, |parts|)
    ensures multiset(Insert(parts, order, j)) == multiset(order) + multiset{j}
  {
    if order != [] && KeyLess(parts[j], parts[order[|order| - 1]]) {
      InsertMultiset(parts, order[..|order| - 1], j);
      assert order == order[..|order| - 1] + [order[|order| - 1]];
    }
  }

  /** An index that precedes j and everything in the order precedes everything in the result. */
  lemma {:induction false} InsertBounded(parts: seq<Part>, order: seq<nat>, j: nat, last: nat)
    requires j < |parts| && Below(order, |parts|) && last < |parts|
    requires Precedes(parts, j, last) && forall a | 0 <= a < |order| :: Precedes(parts, order[a], last)
    ensures forall a | 0 <= a <= |order| :: Precedes(parts, Insert(parts, order, j)[a], last)
  {
    if order != [] && KeyLess(parts[j], parts[order[|order| - 1]]) {
      InsertBounded(parts, order[..|order| - 1], j, last);
    }
  }

  lemma {:induction false} InsertSorts(parts: seq<Part>, order: seq<nat>, j: nat)
    requires j < |parts| && Below(order, j) && Below(order, |parts|) && StableSorted(parts, order)
    ensures StableSorted(parts, Insert(parts, order, j))
  {
    if order != [] {
      var front, last := order[..|order| - 1], order[|order| - 1];
      if KeyLess(parts[j], parts[last]) {
        InsertSorts(parts, front, j);
        InsertBounded(parts, front, j, last);
      } else {
        forall a | 0 <= a < |order|
          ensures Precedes(parts, order[a], j)
        {
          assert a < |order| - 1 ==> Precedes(parts, order[a], last);
        }
      }
    }
  }

  function Indices(n: nat): (r: seq<nat>)
    ensures |r| == n && forall i | 0 <= i < n :: r[i] == i
  {
    seq(n, (i: nat) => i)
  }

  /** The order is the stable sort: the indices sorted by key, ties in place. */
  lemma {:induction false} OrderIsStableSort(parts: seq<Part>, n: nat)
    requires n <= |parts|
    ensures Below(SortedOrder(parts, n), n) && StableSorted(parts, SortedOrder(parts, n))
  {
    if n > 0 {
      OrderIsStableSort(parts, n - 1);
      InsertBelow(parts, SortedOrder(parts, n - 1), n - 1);
      InsertSorts(parts, SortedOrder(parts, n - 1), n - 1);
    }
  }

  /**
   In the parts' own fields: of two reordered parts the first has the smaller tile-part index; of equal
   ones, the smaller tile index; and parts equal in both stay in the order they had.
   */
  lemma ResolutionMajor(parts: seq<Part>, a: nat, b: nat)
    requires a < b < |parts|
    ensures var order := SortedOrder(parts, |parts|);
            var x, y := SortedParts(parts)[a], SortedParts(parts)[b];
            && x == parts[order[a]] && y == parts[order[b]]
            && x.tpsot <= y.tpsot
            && (x.tpsot == y.tpsot ==> x.isot <= y.isot)
            && (x.tpsot == y.tpsot && x.isot == y.isot ==> order[a] < order[b])
  {
    OrderIsStableSort(parts, |parts|);
    assert Precedes(parts, SortedOrder(parts, |parts|)[a], SortedOrder(parts, |parts|)[b]);
  }

  /** The tile-part indices of the tile ascend. */
  predicate TileAscends(parts: seq<Part>, tile: nat) {
    forall j, k | 0 <= j < k < |parts| && parts[j].isot == tile && parts[k].isot == tile :: parts[j].tpsot <= parts[k].tpsot
  }

  lemma TileOrder(parts: seq<Part>, tile: nat, j: nat, k: nat)
    requires TileAscends(parts, tile) && j < |parts| && k < |parts| && parts[j].isot == tile && parts[k].isot == tile
    requires parts[j].tpsot <= parts[k].tpsot && (parts[j].tpsot == parts[k].tpsot ==> j < k)
    ensures j < k
  {}

  /** The parts of a tile whose tile-part indices ascended keep their order, as decoders demand. */
  lemma TileKeepsOrder(parts: seq<Part>, tile: nat, a: nat, b: nat)
    requires a < b < |parts| && TileAscends(parts, tile)
    requires SortedParts(parts)[a].isot == tile && SortedParts(parts)[b].isot == tile
    ensures SortedOrder(parts, |parts|)[a] < SortedOrder(parts, |parts|)[b]
  {
    ResolutionMajor(parts, a, b);
    TileOrder(parts, tile, SortedOrder(parts, |parts|)[a], SortedOrder(parts, |parts|)[b]);
  }

  /** It holds every index once. */
  lemma {:induction false} OrderIsPermutation(parts: seq<Part>, n: nat)
    requires n <= |parts|
    ensures multiset(SortedOrder(parts, n)) == multiset(Indices(n))
  {
    if n > 0 {
      OrderIsPermutation(parts, n - 1);
      InsertMultiset(parts, SortedOrder(parts, n - 1), n - 1);
      IndicesNext(n - 1);
    }
  }

  lemma IndicesNext(n: nat)
    ensures multiset(Indices(n + 1)) == multiset(Indices(n)) + multiset{n}
  {
    assert Indices(n + 1) == Indices(n) + [n];
  }

  /** Taking out one occurrence. */
  lemma TakeOut<T>(x: T, b: seq<T>) returns (i: nat)
    requires x in multiset(b)
    ensures i < |b| && b[i] == x && multiset(b[..i] + b[i + 1..]) == multiset(b) - multiset{x}
  {
    assert x in b;
    i :| i < |b| && b[i] == x;
    assert b == b[..i] + [x] + b[i + 1..];
  }

  lemma SameEmpty<T>(b: seq<T>)
    requires multiset(b) == multiset{}
    ensures b == []
  {
    assert |multiset(b)| == |b|;
  }

  lemma {:induction false} SelectMultiset(parts: seq<Part>, a: seq<nat>, b: seq<nat>)
    requires Below(a, |parts|) && Below(b, |parts|) && multiset(a) == multiset(b)
    ensures multiset(Select(parts, a)) == multiset(Select(parts, b))
    decreases |a|
  {
    if a == [] {
      SameEmpty(b);
    } else {
      var last, front := a[|a| - 1], a[..|a| - 1];
      assert a == front + [last];
      var i := TakeOut(last, b);
      SelectMultiset(parts, front, b[..i] + b[i + 1..]);
      assert Select(parts, a) == Select(parts, front) + [parts[last]];
      SelectAround(parts, b, i);
    }
  }

  lemma SelectAround(parts: seq<Part>, b: seq<nat>, i: nat)
    requires Below(b, |parts|) && i < |b|
    ensures multiset(Select(parts, b)) == multiset(Select(parts, b[..i] + b[i + 1..])) + multiset{parts[b[i]]}
  {
    assert Select(parts, b) == Select(parts, b[..i]) + [parts[b[i]]] + Select(parts, b[i + 1..]);
    assert Select(parts, b[..i] + b[i + 1..]) == Select(parts, b[..i]) + Select(parts, b[i + 1..]);
  }

  /** Sorting permutes the parts. */
  lemma SortPermutes(parts: seq<Part>)
    ensures multiset(SortedParts(parts)) == multiset(parts)
    ensures |SortedParts(parts)| == |parts|
    ensures |Join(SortedParts(parts))| == |Join(parts)|
  {
    OrderIsPermutation(parts, |parts|);
    SelectMultiset(parts, SortedOrder(parts, |parts|), Indices(|parts|));
    assert Select(parts, Indices(|parts|)) == parts;
    JoinLength(SortedParts(parts), parts);
  }

  lemma {:induction false} JoinAround(parts: seq<Part>, i: nat)
    requires i < |parts|
    ensures |Join(parts)| == |parts[i].bytes| + |Join(parts[..i] + parts[i + 1..])|
  {
    if i == 0 {
      assert parts[..0] + parts[1..] == parts[1..];
    } else {
      JoinAround(parts[1..], i - 1);
      var rest := parts[..i] + parts[i + 1..];
      assert rest[1..] == parts[1..][..i - 1] + parts[1..][i..];
    }
  }

  lemma {:induction false} JoinLength(a: seq<Part>, b: seq<Part>)
    requires multiset(a) == multiset(b)
    ensures |Join(a)| == |Join(b)|
  {
    if a == [] {
      SameEmpty(b);
    } else {
      assert a == [a[0]] + a[1..];
      var i := TakeOut(a[0], b);
      JoinLength(a[1..], b[..i] + b[i + 1..]);
      JoinAround(b, i);
    }
  }

  // ----- the reordered codestream -----

  /** Parts already in order by key stay where they are. */
  lemma {:induction false} SortedStay(parts: seq<Part>, n: nat)
    requires n <= |parts|
    requires forall a, b | 0 <= a < b < |parts| :: !KeyLess(parts[b], parts[a])
    ensures SortedOrder(parts, n) == Indices(n)
  {
    if n > 0 {
      SortedStay(parts, n - 1);
    }
  }

  /** The order is by key. */
  lemma SortedByKey(parts: seq<Part>)
    ensures var sorted := SortedParts(parts);
            forall a, b | 0 <= a < b < |sorted| :: !KeyLess(sorted[b], sorted[a])
  {
    OrderIsStableSort(parts, |parts|);
    var order := SortedOrder(parts, |parts|);
    forall a, b | 0 <= a < b < |order|
      ensures !KeyLess(parts[order[b]], parts[order[a]])
    {
      assert Precedes(parts, order[a], order[b]);
    }
  }

  /** Re-splitting the reordered stream gives the same head and tail around exactly the sorted parts. */
  lemma ResplitInterleaved(cs: seq<byte>)
    requires Split(cs).Ok? && PsotsInRange(cs, FirstSot(cs, 0).value)
    ensures var p := Split(cs).value;
            && InterleaveTileParts(cs).Ok? && |InterleaveTileParts(cs).value| == |cs|
            && Split(InterleaveTileParts(cs).value) == Ok(Pieces(p.head, SortedParts(p.parts), p.tail))
            && multiset(SortedParts(p.parts)) == multiset(p.parts)
  {
    var p := Split(cs).value;
    WholeIffInRange(cs, FirstSot(cs, 0).value);
    SplitShape(cs);
    SplitRebuilds(cs);
    SortPermutes(p.parts);
    forall k | 0 <= k < |p.parts|
      ensures Whole(SortedParts(p.parts)[k])
    {
      assert SortedParts(p.parts)[k] in multiset(p.parts);
    }
    Resplit(p.head, SortedParts(p.parts), p.tail);
  }

  /** Interleaving twice is interleaving once. */
  lemma InterleaveIdempotent(cs: seq<byte>)
    requires Split(cs).Ok? && PsotsInRange(cs, FirstSot(cs, 0).value)
    ensures InterleaveTileParts(cs).Ok? && InterleaveTileParts(InterleaveTileParts(cs).value) == InterleaveTileParts(cs)
  {
    ResplitInterleaved(cs);
    var sorted := SortedParts(Split(cs).value.parts);
    SortedByKey(Split(cs).value.parts);
    SortedStay(sorted, |sorted|);
    assert SortedParts(sorted) == sorted;
  }
}
