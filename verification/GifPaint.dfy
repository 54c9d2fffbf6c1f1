/** What a list of colour indices paints into a rectangle of an RGBA image: every index goes to the next
    pixel of the raster order, transparent ones leave the pixel as it is, and those past the last pixel
    go nowhere. */
module GifPaint {
  import opened Bits
  import opened GifOrder

  /** The image has `width` pixels a row; the rectangle starts at (x, y). */
  datatype Rect = Rect(width: nat, x: nat, y: nat, w: nat, h: nat, interlaced: bool)

  predicate Fits(r: Rect, height: nat) {
    r.x + r.w <= r.width && r.y + r.h <= height
  }

  /** The cursor after n pixels; in a rectangle without columns it is below the last row at once. */
  function CursorOf(r: Rect, n: nat): Cursor {
    if r.w == 0 then Cursor(0, StartRows(r.interlaced).(y := r.h)) else CursorAt(n, r.w, r.h, r.interlaced)
  }

  lemma CursorNext(r: Rect, n: nat)
    ensures CursorOf(r, n + 1) == Next(CursorOf(r, n), r.w, r.h)
  {
  }

  predicate Inside(r: Rect, n: nat) {
    CursorOf(r, n).rows.y < r.h
  }

  /** The number, in the image, of pixel n of the raster. */
  function PixelOf(r: Rect, n: nat): nat {
    Ix(r.y + CursorOf(r, n).rows.y, r.width) + r.x + CursorOf(r, n).x
  }

  type Palette = p: seq<byte> | |p| == 1024 witness seq(1024, _ => 0)

  /** The palette holds blue, green, red, alpha; the image red, green, blue, alpha. */
  function Colour(pal: Palette, i: byte): (c: seq<byte>)
    ensures |c| == 4
  {
    [pal[4 * i + 2], pal[4 * i + 1], pal[4 * i], pal[4 * i + 3]]
  }

  predicate Opaque(c: seq<byte>)
    requires |c| == 4
  {
    c[3] > 128
  }

  function Dab(out: seq<byte>, k: nat, c: seq<byte>): (out': seq<byte>)
    requires |c| == 4
    ensures |out'| == |out|
  {
    if Opaque(c) && 4 * k + 4 <= |out| then out[..4 * k] + c + out[4 * k + 4..] else out
  }

  function Painted(base: seq<byte>, pal: Palette, r: Rect, px: seq<byte>): (out: seq<byte>)
    ensures |out| == |base|
  {
    if px == [] then base
    else
      var n := |px| - 1;
      var out := Painted(base, pal, r, px[..n]);
      if Inside(r, n) then Dab(out, PixelOf(r, n), Colour(pal, px[n])) else out
  }

  /** The history: ones for the pixels of the raster reached so far. */
  function Marked(hist: seq<byte>, r: Rect, n: nat): (out: seq<byte>)
    ensures |out| == |hist|
  {
    if n == 0 then hist
    else
      var out := Marked(hist, r, n - 1);
      if Inside(r, n - 1) && PixelOf(r, n - 1) < |hist| then out[PixelOf(r, n - 1) := 1] else out
  }

  // ---------------------------------------------------------------------------
  // Where the pixels are

  lemma InsideBounds(r: Rect, n: nat)
    requires Inside(r, n)
    ensures r.w > 0 && n < Ix(r.h, r.w)
    ensures n / r.w < r.h == |RowOrder(r.h, r.interlaced)|
    ensures CursorOf(r, n).x == n % r.w < r.w
    ensures CursorOf(r, n).rows.y == RowOrder(r.h, r.interlaced)[n / r.w]
  {
    CursorVisits(n, r.w, r.h, r.interlaced);
  }

  lemma OutsideBounds(r: Rect, n: nat)
    ensures Inside(r, n) <==> n < Ix(r.h, r.w)
  {
    hide RowOrder, CursorAt, Ix;
    if r.w == 0 {
      NoColumns(r.h);
    } else {
      CursorVisits(n, r.w, r.h, r.interlaced);
      if n < Ix(r.h, r.w) {
        EveryRowOnce(r.h, r.interlaced);
        assert RowOrder(r.h, r.interlaced)[n / r.w] in RowOrder(r.h, r.interlaced);
      }
    }
  }

  lemma NoColumns(h: nat)
    ensures Ix(h, 0) == 0
  {
    Commute(h, 0);
  }

  /** Every pixel of the raster is a pixel of the image. */
  lemma PixelBound(r: Rect, height: nat, n: nat)
    requires Fits(r, height) && Inside(r, n)
    ensures PixelOf(r, n) < Ix(height, r.width)
  {
    InsideBounds(r, n);
    IxMonotone(r.y + CursorOf(r, n).rows.y, height, r.width);
  }

  lemma PixelColumnRow(r: Rect, height: nat, n: nat)
    requires Fits(r, height) && Inside(r, n)
    ensures r.width > 0 && PixelOf(r, n) / r.width == r.y + CursorOf(r, n).rows.y
    ensures PixelOf(r, n) % r.width == r.x + CursorOf(r, n).x
  {
    InsideBounds(r, n);
    DivModUnique(r.y + CursorOf(r, n).rows.y, r.width, r.x + CursorOf(r, n).x);
  }

  /** No pixel is visited twice. */
  lemma PixelsDiffer(r: Rect, height: nat, m: nat, n: nat)
    requires Fits(r, height) && Inside(r, m) && Inside(r, n) && m != n
    ensures PixelOf(r, m) != PixelOf(r, n)
  {
    if PixelOf(r, m) == PixelOf(r, n) {
      PixelColumnRow(r, height, m);
      PixelColumnRow(r, height, n);
      InsideBounds(r, m);
      InsideBounds(r, n);
      var _ := EveryPixelOnce(r.w, r.h, r.interlaced, CursorOf(r, n).x, CursorOf(r, n).rows.y);
      assert IsAt(m, r.w, r.h, r.interlaced, CursorOf(r, n).x, CursorOf(r, n).rows.y);
      assert IsAt(n, r.w, r.h, r.interlaced, CursorOf(r, n).x, CursorOf(r, n).rows.y);
    }
  }

  /** Every pixel of the rectangle is visited. */
  lemma PixelReached(r: Rect, height: nat, i: nat, j: nat) returns (n: nat)
    requires Fits(r, height) && i < r.w && j < r.h
    ensures Inside(r, n) && n < Ix(r.h, r.w) && PixelOf(r, n) == Ix(r.y + j, r.width) + r.x + i
  {
    n := EveryPixelOnce(r.w, r.h, r.interlaced, i, j);
    OutsideBounds(r, n);
  }

  // ---------------------------------------------------------------------------
  // The picture

  /** The four bytes of pixel k. */
  ghost predicate PixelIs(out: seq<byte>, k: nat, c: seq<byte>) {
    4 * k + 4 <= |out| && out[4 * k..4 * k + 4] == c
  }

  function PixelAt(out: seq<byte>, k: nat): (c: seq<byte>)
    requires 4 * k + 4 <= |out|
    ensures |c| == 4
  {
    out[4 * k..4 * k + 4]
  }

  lemma DabOne(out: seq<byte>, k: nat, c: seq<byte>, j: nat)
    requires |c| == 4 && 4 * k + 4 <= |out| && 4 * j + 4 <= |out|
    ensures PixelAt(Dab(out, k, c), j) == if j == k && Opaque(c) then c else PixelAt(out, j)
  {
    var d := Dab(out, k, c);
    if j < k {
      assert d[4 * j..4 * j + 4] == out[4 * j..4 * j + 4];
    } else if j > k {
      assert d[4 * j..4 * j + 4] == out[4 * j..4 * j + 4];
    }
  }

  /** A pixel the raster has not reached keeps its bytes, whether it is in the rectangle or not. */
  lemma {:induction false} Untouched(base: seq<byte>, pal: Palette, r: Rect, px: seq<byte>, height: nat, k: nat)
    requires Fits(r, height) && |base| == 4 * Ix(height, r.width) && k < Ix(height, r.width)
    requires forall n: nat :: n < |px| && Inside(r, n) ==> PixelOf(r, n) != k
    ensures PixelAt(Painted(base, pal, r, px), k) == PixelAt(base, k)
    decreases |px|
  {
    hide Ix, Dab, Inside, PixelOf, Colour;
    if px != [] {
      var n := |px| - 1;
      Untouched(base, pal, r, px[..n], height, k);
      if Inside(r, n) {
        PixelBound(r, height, n);
        DabOne(Painted(base, pal, r, px[..n]), PixelOf(r, n), Colour(pal, px[n]), k);
      }
    }
  }

  lemma PixelBytes(out: seq<byte>, at: nat, c: seq<byte>)
    requires |c| == 4 && 4 * at + 4 <= |out|
    ensures PixelAt(out, at) == c ==>
      out[4 * at] == c[0] && out[4 * at + 1] == c[1] && out[4 * at + 2] == c[2] && out[4 * at + 3] == c[3]
  {
    var px := out[4 * at..4 * at + 4];
    assert px[0] == out[4 * at] && px[1] == out[4 * at + 1] && px[2] == out[4 * at + 2] && px[3] == out[4 * at + 3];
  }

  /** A pixel the raster has reached shows its own index, unless that is transparent: red, green, blue and
      alpha, from the blue, green, red and alpha of the palette. */
  lemma Touched(base: seq<byte>, pal: Palette, r: Rect, px: seq<byte>, height: nat, n: nat)
    requires Fits(r, height) && |base| == 4 * Ix(height, r.width) && n < |px| && Inside(r, n)
    ensures PixelOf(r, n) < Ix(height, r.width)
    ensures PixelAt(Painted(base, pal, r, px), PixelOf(r, n)) ==
      if Opaque(Colour(pal, px[n])) then Colour(pal, px[n]) else PixelAt(base, PixelOf(r, n))
    ensures var out, at, v: nat := Painted(base, pal, r, px), PixelOf(r, n), px[n];
      if pal[4 * v + 3] > 128 then
        && out[4 * at] == pal[4 * v + 2] && out[4 * at + 1] == pal[4 * v + 1] && out[4 * at + 2] == pal[4 * v]
        && out[4 * at + 3] == pal[4 * v + 3]
      else out[4 * at..4 * at + 4] == base[4 * at..4 * at + 4]
  {
    TouchedColour(base, pal, r, px, height, n);
    PixelBytes(Painted(base, pal, r, px), PixelOf(r, n), Colour(pal, px[n]));
  }

  lemma {:induction false} TouchedColour(base: seq<byte>, pal: Palette, r: Rect, px: seq<byte>, height: nat, n: nat)
    requires Fits(r, height) && |base| == 4 * Ix(height, r.width) && n < |px| && Inside(r, n)
    ensures PixelOf(r, n) < Ix(height, r.width)
    ensures PixelAt(Painted(base, pal, r, px), PixelOf(r, n)) ==
      if Opaque(Colour(pal, px[n])) then Colour(pal, px[n]) else PixelAt(base, PixelOf(r, n))
    decreases |px|
  {
    hide Ix, Dab, Inside, PixelOf, Colour;
    var l := |px| - 1;
    var rest := px[..l];
    PixelBound(r, height, n);
    if Inside(r, l) { PixelBound(r, height, l); }
    if n == l {
      forall m: nat | m < l && Inside(r, m) ensures PixelOf(r, m) != PixelOf(r, n) {
        PixelsDiffer(r, height, m, n);
      }
      Untouched(base, pal, r, rest, height, PixelOf(r, n));
      DabOne(Painted(base, pal, r, rest), PixelOf(r, l), Colour(pal, px[l]), PixelOf(r, n));
    } else {
      TouchedColour(base, pal, r, rest, height, n);
      assert rest[n] == px[n];
      if Inside(r, l) {
        PixelsDiffer(r, height, l, n);
        DabOne(Painted(base, pal, r, rest), PixelOf(r, l), Colour(pal, px[l]), PixelOf(r, n));
      }
    }
  }

  /** Indices past the last pixel paint nothing. */
  lemma {:induction false} Surplus(base: seq<byte>, pal: Palette, r: Rect, px: seq<byte>)
    requires Ix(r.h, r.w) <= |px|
    ensures Painted(base, pal, r, px) == Painted(base, pal, r, px[..Ix(r.h, r.w)])
    decreases |px|
  {
    var n := Ix(r.h, r.w);
    if |px| > n {
      OutsideBounds(r, |px| - 1);
      Surplus(base, pal, r, px[..|px| - 1]);
      assert px[..|px| - 1][..n] == px[..n];
    } else {
      assert px[..n] == px;
    }
  }

  /** The history is one exactly at the pixels reached, on top of what it was. */
  lemma {:induction false} MarkedAt(hist: seq<byte>, r: Rect, height: nat, n: nat, k: nat)
    requires Fits(r, height) && |hist| == Ix(height, r.width) && k < |hist|
    ensures Marked(hist, r, n)[k] == if exists m: nat :: m < n && Inside(r, m) && PixelOf(r, m) == k then 1 else hist[k]
  {
    hide Ix, Inside, PixelOf;
    if n > 0 {
      MarkedAt(hist, r, height, n - 1, k);
      if Inside(r, n - 1) { PixelBound(r, height, n - 1); }
    }
  }
}
