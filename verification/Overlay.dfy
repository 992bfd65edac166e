/**
 Laying one BSQ buffer over another. A frame places a buffer in the image: it is
 the rectangle of lines and byte columns that each band of the buffer holds.
 */
module Overlay {
  import opened Bsq

  datatype Frame = Frame(top: nat, left: nat, height: nat, width: nat) {

    predicate Contains(y: nat, j: nat) {
      top <= y < top + height && left <= j < left + width
    }

    /** The byte at an absolute position of a buffer that fills the frame. */
    function Read(buf: seq<byte>, b: nat, y: nat, j: nat): byte
      requires Contains(y, j)
    {
      At(buf, height, width, b, y - top, j - left)
    }
  }

  /** The source buffer `src` in frame `from`, to be laid over a buffer in frame `to`, in every one of n bands. */
  datatype Overlay = Overlay(src: seq<byte>, from: Frame, to: Frame, n: nat) {

    ghost predicate Fits() { |src| == n * from.height * from.width }

    /** Byte (b, y, j) of the destination once the source is laid over it. */
    function Value(dst: seq<byte>, b: nat, y: nat, j: nat): byte {
      if from.Contains(to.top + y, to.left + j) then from.Read(src, b, to.top + y, to.left + j)
      else At(dst, to.height, to.width, b, y, j)
    }

    /** The destination once the source is laid over it. */
    function Apply(dst: seq<byte>): seq<byte> {
      Render(n, to.height, to.width, (b: nat, y: nat, j: nat) => Value(dst, b, y, j))
    }

    lemma ApplyAt(dst: seq<byte>, b: nat, y: nat, j: nat)
      requires b < n && y < to.height && j < to.width
      ensures At(Apply(dst), to.height, to.width, b, y, j) == Value(dst, b, y, j)
    {
      RenderAt(n, to.height, to.width, (b: nat, y: nat, j: nat) => Value(dst, b, y, j), b, y, j);
    }

    // ----- the shared rectangle -----

    function Left(): nat { Max(from.left, to.left) }

    function Right(): nat { Min(from.left + from.width, to.left + to.width) }

    function Top(): nat { Max(from.top, to.top) }

    function Bottom(): nat { Min(from.top + from.height, to.top + to.height) }

    predicate Disjoint() { Left() >= Right() || Top() >= Bottom() }

    /** First byte of the run of band b and shared line r, in the destination and in the source. */
    function DstRun(b: nat, r: nat): nat
      requires !Disjoint()
    {
      Offset(to.height, to.width, b, Top() - to.top + r, Left() - to.left)
    }

    function SrcRun(b: nat, r: nat): nat
      requires !Disjoint()
    {
      Offset(from.height, from.width, b, Top() - from.top + r, Left() - from.left)
    }

    /** Copies the run of band b and shared line r. */
    function Step(dst: seq<byte>, b: nat, r: nat): seq<byte>
      requires !Disjoint()
    {
      Spliced(dst, DstRun(b, r), src, SrcRun(b, r), Right() - Left())
    }

    lemma RunsInside(b: nat, r: nat)
      requires Fits() && !Disjoint() && b < n && Top() + r < Bottom()
      ensures DstRun(b, r) + (Right() - Left()) <= n * to.height * to.width
      ensures SrcRun(b, r) + (Right() - Left()) <= |src|
    {
      RunInside(n, to.height, to.width, b, Top() - to.top + r, Left() - to.left, Right() - Left());
      RunInside(n, from.height, from.width, b, Top() - from.top + r, Left() - from.left, Right() - Left());
    }

    /** The shared columns, from pixels to bytes: the destination starts at pixel a and is p pixels wide, the source at b and q. */
    lemma SharedColumns(a: nat, p: nat, b: nat, q: nat, bpp: nat)
      requires bpp > 0
      requires to.left == a * bpp && to.width == p * bpp && from.left == b * bpp && from.width == q * bpp
      ensures var sx, ex := Max(a, b), Min(a + p, b + q);
              && (sx < ex <==> Left() < Right())
              && Left() == from.left + (sx - b) * bpp == to.left + (sx - a) * bpp
              && (sx < ex ==> Right() == Left() + (ex - sx) * bpp)
    {
      var sx, ex := Max(a, b), Min(a + p, b + q);
      ScaleSum(a, p, bpp);
      ScaleSum(b, q, bpp);
      ScaleMinMax(a, b, bpp);
      ScaleMinMax(a + p, b + q, bpp);
      assert Left() == sx * bpp && Right() == ex * bpp;
      ScaleDifference(sx, a, bpp);
      ScaleDifference(sx, b, bpp);
      if sx < ex {
        ScaleDifference(ex, sx, bpp);
        MulMono(1, ex - sx, bpp);
      } else {
        MulMono(ex, sx, bpp);
      }
    }

    // ----- the copying loops -----

    /** Bands below b0 are laid over, and the first r0 shared lines of band b0; nothing else has changed. */
    ghost predicate Progress(before: seq<byte>, now: seq<byte>, b0: nat, r0: nat) {
      && |before| == |now| == n * to.height * to.width
      && forall b: nat, y: nat, j: nat | b < n && y < to.height && j < to.width :: Done(before, now, b0, r0, b, y, j)
    }

    ghost predicate Done(before: seq<byte>, now: seq<byte>, b0: nat, r0: nat, b: nat, y: nat, j: nat) {
      At(now, to.height, to.width, b, y, j)
      == if b < b0 || (b == b0 && to.top + y < Top() + r0) then Value(before, b, y, j) else At(before, to.height, to.width, b, y, j)
    }

    lemma Start(before: seq<byte>)
      requires |before| == n * to.height * to.width
      ensures Progress(before, before, 0, 0)
    {}

    lemma NextBand(before: seq<byte>, now: seq<byte>, b0: nat)
      requires !Disjoint() && Progress(before, now, b0, Bottom() - Top())
      ensures Progress(before, now, b0 + 1, 0)
    {
      var b1 := b0 + 1;
      forall b: nat, y: nat, j: nat | b < n && y < to.height && j < to.width
        ensures Done(before, now, b1, 0, b, y, j)
      {
        assert Done(before, now, b0, Bottom() - Top(), b, y, j);
      }
    }

    lemma Finish(before: seq<byte>, now: seq<byte>)
      requires Progress(before, now, n, 0)
      ensures now == Apply(before)
    {
      forall b: nat, y: nat, j: nat | b < n && y < to.height && j < to.width
        ensures At(now, to.height, to.width, b, y, j) == Value(before, b, y, j)
      {
        assert Done(before, now, n, 0, b, y, j);
      }
      RenderUnique(now, n, to.height, to.width, (b: nat, y: nat, j: nat) => Value(before, b, y, j));
    }

    /** Frames that share nothing leave the destination alone. */
    lemma NothingShared(dst: seq<byte>)
      requires Disjoint() && |dst| == n * to.height * to.width
      ensures dst == Apply(dst)
    {
      RenderUnique(dst, n, to.height, to.width, (b: nat, y: nat, j: nat) => Value(dst, b, y, j));
    }

    /** One run copied: the step of every loop that copies a rectangle. */
    lemma StepRun(before: seq<byte>, now: seq<byte>, b0: nat, r0: nat)
      requires Fits() && !Disjoint() && b0 < n && Top() + r0 < Bottom()
      requires Progress(before, now, b0, r0)
      ensures Progress(before, Step(now, b0, r0), b0, r0 + 1)
    {
      RunsInside(b0, r0);
      var next, r1 := Step(now, b0, r0), r0 + 1;
      forall b: nat, y: nat, j: nat | b < n && y < to.height && j < to.width
        ensures Done(before, next, b0, r1, b, y, j)
      {
        assert Done(before, now, b0, r0, b, y, j);
        StepAt(now, b0, r0, b, y, j);
      }
    }

    lemma StepAt(now: seq<byte>, b0: nat, r0: nat, b: nat, y: nat, j: nat)
      requires Fits() && !Disjoint() && b0 < n && Top() + r0 < Bottom()
      requires |now| == n * to.height * to.width
      requires b < n && y < to.height && j < to.width
      ensures At(Step(now, b0, r0), to.height, to.width, b, y, j)
              == if b == b0 && to.top + y == Top() + r0 && Left() <= to.left + j < Right()
                 then from.Read(src, b, to.top + y, to.left + j)
                 else At(now, to.height, to.width, b, y, j)
    {
      var d, s, width := DstRun(b0, r0), SrcRun(b0, r0), Right() - Left();
      var i := Offset(to.height, to.width, b, y, j);
      RunsInside(b0, r0);
      RunInside(n, to.height, to.width, b, y, j, 1);
      RunCovers(to.height, to.width, b0, Top() - to.top + r0, Left() - to.left, width, b, y, j);
      assert At(Step(now, b0, r0), to.height, to.width, b, y, j) == if d <= i < d + width then src[s + (i - d)] else now[i];
      if d <= i < d + width {
        assert i - d == to.left + j - Left();
        assert Offset(from.height, from.width, b, to.top + y - from.top, to.left + j - from.left) == s + (i - d);
      }
    }
  }

  lemma ScaleSum(a: nat, b: nat, k: nat)
    ensures (a + b) * k == a * k + b * k
  {}

  lemma ScaleDifference(a: nat, b: nat, k: nat)
    requires b <= a
    ensures (a - b) * k == a * k - b * k
  {}

  lemma ScaleMinMax(a: nat, b: nat, k: nat)
    ensures Min(a, b) * k == Min(a * k, b * k) && Max(a, b) * k == Max(a * k, b * k)
  {
    MulMono(Min(a, b), Max(a, b), k);
  }

  /** dst with `width` bytes of src, from s on, written at d. */
  function Spliced(dst: seq<byte>, d: nat, src: seq<byte>, s: nat, width: nat): seq<byte> {
    if d + width <= |dst| && s + width <= |src| then dst[..d] + src[s..s + width] + dst[d + width..] else dst
  }

  lemma SplicedAt(dst: seq<byte>, d: nat, src: seq<byte>, s: nat, width: nat, k: nat)
    requires d + width <= |dst| && s + width <= |src| && k < |dst|
    ensures |Spliced(dst, d, src, s, width)| == |dst|
    ensures Spliced(dst, d, src, s, width)[k] == if d <= k < d + width then src[s + k - d] else dst[k]
  {
  }

  /** The t-th byte of src after s is the t-th byte of other after o. */
  predicate SameAt(src: seq<byte>, s: nat, other: seq<byte>, o: nat, t: nat) {
    s + t < |src| && o + t < |other| && src[s + t] == other[o + t]
  }

  /** Only the bytes copied matter, not where they come from. */
  lemma SplicedFrom(dst: seq<byte>, d: nat, src: seq<byte>, s: nat, other: seq<byte>, o: nat, width: nat)
    requires d + width <= |dst| && s + width <= |src| && o + width <= |other|
    requires forall t: nat | t < width :: SameAt(src, s, other, o, t)
    ensures Spliced(dst, d, src, s, width) == Spliced(dst, d, other, o, width)
  {
    var run, same := src[s..s + width], other[o..o + width];
    forall t: nat | t < width ensures run[t] == same[t] {
      assert SameAt(src, s, other, o, t);
    }
    assert run == same;
  }

  /** Copying what is already there changes nothing. */
  lemma SplicedSelf(dst: seq<byte>, d: nat, width: nat)
    requires d + width <= |dst|
    ensures Spliced(dst, d, dst, d, width) == dst
  {
  }

  /** `dst[d..d + width].copy_from_slice(&src[s..s + width])` */
  method CopyFromSlice(dst: array<byte>, d: nat, src: seq<byte>, s: nat, width: nat)
    requires d + width <= dst.Length && s + width <= |src|
    modifies dst
    ensures dst[..] == Spliced(old(dst[..]), d, src, s, width)
  {
    forall k | 0 <= k < width {
      dst[d + k] := src[s + k];
    }
  }

  /** A zeroed buffer for `bands` bands of rows x cols pixels. */
  method NewBuffer(bands: nat, rows: nat, cols: nat, bpp: nat) returns (buf: array<byte>)
    ensures fresh(buf)
    ensures buf.Length == bands * rows * (cols * bpp)
    ensures forall k | 0 <= k < buf.Length :: buf[k] == 0
  {
    assert rows * cols * bands * bpp == bands * rows * (cols * bpp);
    buf := new byte[rows * cols * bands * bpp](_ => 0);
  }

  /**
   The loops over bands and lines that move a rectangle of rows x cols pixels. Offsets are
   computed from pixel coordinates, as band, line and column offsets in bytes.
   */
  method CopyBands(bands: nat, src: seq<byte>, srcRows: nat, srcCols: nat, srcY: nat, srcX: nat,
                   dst: array<byte>, dstRows: nat, dstCols: nat, dstY: nat, dstX: nat,
                   rows: nat, cols: nat, bpp: nat, ghost layer: Overlay)
    requires !layer.Disjoint() && layer.Fits() && layer.src == src && layer.n == bands
    requires layer.from.height == srcRows && layer.from.width == srcCols * bpp
    requires layer.to.height == dstRows && layer.to.width == dstCols * bpp
    requires layer.Top() == layer.from.top + srcY == layer.to.top + dstY && layer.Bottom() == layer.Top() + rows
    requires layer.Left() == layer.from.left + srcX * bpp == layer.to.left + dstX * bpp
    requires layer.Right() == layer.Left() + cols * bpp
    requires dst.Length == bands * dstRows * (dstCols * bpp)
    modifies dst
    ensures dst[..] == layer.Apply(old(dst[..]))
  {
    ghost var was := dst[..];
    var srcPixelsPerBand, dstPixelsPerBand, copyBytes := srcRows * srcCols, dstRows * dstCols, cols * bpp;
    layer.Start(was);
    for band := 0 to bands
      invariant layer.Progress(was, dst[..], band, 0)
    {
      var srcBandOffset, dstBandOffset := band * srcPixelsPerBand * bpp, band * dstPixelsPerBand * bpp;
      for row := 0 to rows
        invariant layer.Progress(was, dst[..], band, row)
      {
        var srcRowOffset := srcBandOffset + (srcY + row) * srcCols * bpp + srcX * bpp;
        var dstRowOffset := dstBandOffset + (dstY + row) * dstCols * bpp + dstX * bpp;
        RunOffset(srcRows, srcCols, bpp, band, srcY + row, srcX);
        RunOffset(dstRows, dstCols, bpp, band, dstY + row, dstX);
        layer.RunsInside(band, row);
        ghost var now := dst[..];
        CopyFromSlice(dst, dstRowOffset, src, srcRowOffset, copyBytes);
        layer.StepRun(was, now, band, row);
      }
      layer.NextBand(was, dst[..], band);
    }
    layer.Finish(was, dst[..]);
  }

  /** The offset expression of the copying loops is the offset of the run's first byte. */
  lemma RunOffset(h: nat, wPixels: nat, bpp: nat, b: nat, y: nat, x: nat)
    ensures b * (h * wPixels) * bpp + y * wPixels * bpp + x * bpp == Offset(h, wPixels * bpp, b, y, x * bpp)
  {
    assert b * (h * wPixels) * bpp == (b * h) * (wPixels * bpp);
    assert y * wPixels * bpp == y * (wPixels * bpp);
  }
}
