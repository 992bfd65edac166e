/**
 Band-sequential (BSQ) buffers: n bands of h lines of w bytes each, stored band
 after band and line after line. A pixel of `bpp` bytes in column x occupies the
 byte columns x*bpp .. x*bpp + bpp of its line.
 */
module Bsq {
  newtype byte = b: int | 0 <= b < 256

  /** Position of byte column j of line y of band b. */
  function Offset(h: nat, w: nat, b: nat, y: nat, j: nat): nat {
    (b * h + y) * w + j
  }

  /** The byte at that position; 0 past the end of the buffer. */
  function At(buf: seq<byte>, h: nat, w: nat, b: nat, y: nat, j: nat): byte {
    var i := Offset(h, w, b, y, j);
    if i < |buf| then buf[i] else 0
  }

  /** The buffer whose byte (b, y, j) is f(b, y, j). */
  function Render(n: nat, h: nat, w: nat, f: (nat, nat, nat) -> byte): (buf: seq<byte>)
    ensures |buf| == n * h * w
  {
    seq(n * h * w, (i: nat) => Cell(h, w, f, i))
  }

  /** f at the (b, y, j) that position i stands for. */
  function Cell(h: nat, w: nat, f: (nat, nat, nat) -> byte, i: nat): byte {
    if h == 0 || w == 0 then 0 else f(BandAt(h, w, i), LineAt(h, w, i), ColumnAt(w, i))
  }

  /** The band, the line and the byte column that position i stands for. */
  function BandAt(h: nat, w: nat, i: nat): nat
    requires h > 0 && w > 0
  {
    i / w / h
  }

  function LineAt(h: nat, w: nat, i: nat): nat
    requires h > 0 && w > 0
  {
    i / w % h
  }

  function ColumnAt(w: nat, i: nat): nat
    requires w > 0
  {
    i % w
  }

  /** The size of a band of rows x cols pixels. */
  function BandSize(rows: nat, cols: nat, bpp: nat): nat { rows * cols * bpp }

  /** The bytes of pixel (b, y, x). */
  function Pixel(buf: seq<byte>, h: nat, w: nat, bpp: nat, b: nat, y: nat, x: nat): (px: seq<byte>)
    ensures |px| == bpp
  {
    seq(bpp, (k: nat) => At(buf, h, w * bpp, b, y, x * bpp + k))
  }

  // ----- arithmetic -----

  function Min(a: nat, b: nat): nat { if a <= b then a else b }

  function Max(a: nat, b: nat): nat { if a <= b then b else a }

  lemma MulMono(a: nat, b: nat, c: nat)
    requires a <= b
    ensures a * c <= b * c
  {}

  lemma DivMod(p: nat, d: nat)
    requires d > 0
    ensures p == p / d * d + p % d
  {}

  lemma DivUnique(q: nat, d: nat, r: nat)
    requires r < d
    ensures (q * d + r) / d == q && (q * d + r) % d == r
  {
    var i := q * d + r;
    var q', r' := i / d, i % d;
    assert i == q' * d + r';
    if q' < q {
      MulMono(q' + 1, q, d);
    } else if q < q' {
      MulMono(q + 1, q', d);
    }
  }

  /** Lines are disjoint: a position belongs to one line and one column only. */
  lemma LineUnique(q: nat, j: nat, q': nat, j': nat, w: nat)
    requires j < w && j' < w
    requires q * w + j == q' * w + j'
    ensures q == q' && j == j'
  {
    DivUnique(q, w, j);
    DivUnique(q', w, j');
  }

  /** A run of bytes that stays on its line stays in the buffer. */
  lemma RunInside(n: nat, h: nat, w: nat, b: nat, y: nat, j: nat, len: nat)
    requires b < n && y < h && j + len <= w
    ensures Offset(h, w, b, y, j) + len <= n * h * w
  {
    MulMono(b + 1, n, h);
    var q := b * h + y;
    assert q + 1 <= n * h;
    MulMono(q + 1, n * h, w);
  }

  /** A position lies in a run exactly when it lies on the run's line, between its ends. */
  lemma RunCovers(h: nat, w: nat, b0: nat, y0: nat, j0: nat, len: nat, b: nat, y: nat, j: nat)
    requires y0 < h && y < h && j0 + len <= w && j < w
    ensures Offset(h, w, b0, y0, j0) <= Offset(h, w, b, y, j) < Offset(h, w, b0, y0, j0) + len
            <==> b == b0 && y == y0 && j0 <= j < j0 + len
  {
    var q, q0 := b * h + y, b0 * h + y0;
    var k := q * w + j - (q0 * w + j0);
    if 0 <= k < len {
      LineUnique(q, j, q0, j0 + k, w);
      LineUnique(b, y, b0, y0, h);
    }
  }

  lemma EmptyWhenFlat(n: nat, h: nat, w: nat)
    ensures n == 0 || h == 0 || w == 0 ==> n * h * w == 0
  {}

  /** Every position of the buffer is the offset of exactly one (b, y, j). */
  lemma OffsetOnto(n: nat, h: nat, w: nat, i: nat)
    requires i < n * h * w
    ensures h > 0 && w > 0
    ensures BandAt(h, w, i) < n && LineAt(h, w, i) < h && ColumnAt(w, i) < w
    ensures Offset(h, w, BandAt(h, w, i), LineAt(h, w, i), ColumnAt(w, i)) == i
  {
    EmptyWhenFlat(n, h, w);
    var q := i / w;
    assert i == q * w + i % w;
    if q >= n * h {
      MulMono(n * h, q, w);
      assert false;
    }
    var b := q / h;
    assert q == b * h + q % h;
    if b >= n {
      MulMono(n, b, h);
      assert false;
    }
  }

  lemma OffsetInverse(h: nat, w: nat, b: nat, y: nat, j: nat)
    requires y < h && j < w
    ensures BandAt(h, w, Offset(h, w, b, y, j)) == b
    ensures LineAt(h, w, Offset(h, w, b, y, j)) == y
    ensures ColumnAt(w, Offset(h, w, b, y, j)) == j
  {
    DivUnique(b * h + y, w, j);
    DivUnique(b, h, y);
  }

  // ----- rendering -----

  lemma RenderAt(n: nat, h: nat, w: nat, f: (nat, nat, nat) -> byte, b: nat, y: nat, j: nat)
    requires b < n && y < h && j < w
    ensures At(Render(n, h, w, f), h, w, b, y, j) == f(b, y, j)
  {
    RunInside(n, h, w, b, y, j, 1);
    OffsetInverse(h, w, b, y, j);
  }

  lemma CellAt(buf: seq<byte>, n: nat, h: nat, w: nat, f: (nat, nat, nat) -> byte, i: nat)
    requires |buf| == n * h * w && i < |buf|
    requires forall b: nat, y: nat, j: nat | b < n && y < h && j < w :: At(buf, h, w, b, y, j) == f(b, y, j)
    ensures buf[i] == Cell(h, w, f, i)
  {
    OffsetOnto(n, h, w, i);
    var b, y, j := BandAt(h, w, i), LineAt(h, w, i), ColumnAt(w, i);
    assert At(buf, h, w, b, y, j) == f(b, y, j);
  }

  /** A buffer is determined by its bytes (b, y, j). */
  lemma RenderUnique(buf: seq<byte>, n: nat, h: nat, w: nat, f: (nat, nat, nat) -> byte)
    requires |buf| == n * h * w
    requires forall b: nat, y: nat, j: nat | b < n && y < h && j < w :: At(buf, h, w, b, y, j) == f(b, y, j)
    ensures buf == Render(n, h, w, f)
  {
    var r := Render(n, h, w, f);
    forall i: nat | i < |buf|
      ensures buf[i] == r[i]
    {
      CellAt(buf, n, h, w, f, i);
    }
  }
}
