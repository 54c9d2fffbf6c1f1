/** A whole GIF frame: the picture an encoded raster leaves behind. */
module GifDecode {
  import opened Bits
  import opened GifOrder
  import opened GifLzw
  import opened GifWelch
  import opened GifBlocks
  import opened GifPaint
  import opened GifRaster
  import Deflate
  import Encoder

  /** From position p the file holds a minimum code size and, in sub-blocks, what an encoder writes for
      these operations. */
  ghost predicate IsRaster(data: seq<byte>, p: nat, ops: seq<Op>, blocks: seq<seq<byte>>) {
    var m := ByteAt(data, p);
    && 2 <= m <= WIDEST && p + 1 <= |data| && Blocks(blocks)
    && Chain(blocks) <= data[p + 1..]
    && Encodes(ops, ToBits(Concat(blocks)), 0, m, NewCoder(m))
  }

  /** The raster at position p holds the text: some encoder wrote it. */
  ghost predicate Holds(ops: seq<Op>, data: seq<byte>, p: nat, text: seq<byte>) {
    && Encodes(ops, ToBits(Payload(data, After(data, p))), 0, ByteAt(data, p), NewCoder(ByteAt(data, p)))
    && Expand(ops) == text
  }

  /** The image after a frame whose indices are text. */
  ghost predicate Shows(g: Gif, r: Rect, base: seq<byte>, before: seq<byte>, text: seq<byte>)
    reads g, g.out, g.history, g.colorTable
  {
    && g.Shape() && r.width == g.w && Fits(r, g.h)
    && |base| == g.out.Length && |before| == g.history.Length
    && g.out[..] == Painted(base, g.colorTable[..], r, text)
    && g.history[..] == Marked(before, r, |text|)
  }

  lemma RasterComesBack(data: seq<byte>, p: nat, ops: seq<Op>, blocks: seq<seq<byte>>, ok: bool, text: seq<byte>, pos: nat)
    requires IsRaster(data, p, ops, blocks) && RasterIs(data, After(data, p), ByteAt(data, p), ok, text, pos)
    ensures ok && text == Expand(ops) && Clip(data, pos) == p + 1 + |Chain(blocks)|
  {
    hide Encodes, Expand, Payload, Past, Chain;
    var m := ByteAt(data, p);
    var n := |Chain(blocks)|;
    assert data[p + 1..p + 1 + n] == data[p + 1..][..n];
    ChainRead(blocks, data, p + 1);
    FreshInStep(m);
    FreshNoStrings(m);
    CodesRead(ops, ToBits(Concat(blocks)), 0, m, Start(m), NewCoder(m));
  }

  lemma RasterWasWritten(data: seq<byte>, p: nat, text: seq<byte>, pos: nat) returns (ops: seq<Op>)
    requires 2 <= ByteAt(data, p) <= WIDEST
    requires RasterIs(data, After(data, p), ByteAt(data, p), true, text, pos)
    ensures Holds(ops, data, p, text)
  {
    hide Encodes, Expand, Payload, Past;
    var m := ByteAt(data, p);
    FreshInStep(m);
    FreshNoStrings(m);
    ops := CodesWritten(ToBits(Payload(data, After(data, p))), 0, m, Start(m), NewCoder(m));
  }

  /** The sub-blocks stand in the file at p: a length, that many bytes, and a zero behind the last. */
  ghost predicate BlocksAt(data: seq<byte>, p: nat, blocks: seq<seq<byte>>)
    decreases |blocks|
  {
    p < |data| &&
    if blocks == [] then data[p] == 0
    else
      var b := blocks[0];
      && 1 <= |b| <= 255 && data[p] == |b| && p + 1 + |b| <= |data| && data[p + 1..p + 1 + |b|] == b
      && BlocksAt(data, p + 1 + |b|, blocks[1..])
  }

  /** From position p the file holds a minimum code size and, in sub-blocks, the codes of these runs. */
  ghost predicate IsWelch(data: seq<byte>, p: nat, runs: seq<Run>, blocks: seq<seq<byte>>) {
    && p < |data| && 2 <= data[p] <= 12 && BlocksAt(data, p + 1, blocks)
    && (forall k :: 0 <= k < |runs| ==> IsRun(data[p], runs[k]))
    && Carries(Concat(blocks), 0, RasterBits(data[p], runs, data[p] + 1))
  }

  lemma {:induction false} BlocksAreChain(data: seq<byte>, p: nat, blocks: seq<seq<byte>>)
    requires BlocksAt(data, p, blocks)
    ensures Blocks(blocks) && p <= |data| && Chain(blocks) <= data[p..]
    decreases |blocks|
  {
    if blocks == [] {
      assert data[p..][..1] == [0];
    } else {
      var b := blocks[0];
      BlocksAreChain(data, p + 1 + |b|, blocks[1..]);
      assert data[p..] == [data[p]] + data[p + 1..p + 1 + |b|] + data[p + 1 + |b|..];
    }
  }

  lemma WelchIsRaster(data: seq<byte>, p: nat, runs: seq<Run>, blocks: seq<seq<byte>>)
    requires IsWelch(data, p, runs, blocks)
    ensures IsRaster(data, p, Ops(runs), blocks) && Expand(Ops(runs)) == TextOf(runs)
  {
    hide IsRun, Chain, Concat, RasterBits, Encodes, Expand, Carries, BlocksAt;
    var m := data[p];
    BlocksAreChain(data, p + 1, blocks);
    CarriedRoom(Concat(blocks), RasterBits(m, runs, m + 1));
    WelchDecodes(ToBits(Concat(blocks)), m, runs);
  }

  lemma CarriedRoom(data: seq<byte>, c: Stream)
    requires Carries(data, 0, c)
    ensures Stands(ToBits(data), 0, c)
  {
    hide ToBits;
    CarriedStands(data, 0, c);
  }

  /** stbi__gif_load_next at an image descriptor, with the colour table in place: an encoded raster
      paints exactly its text, from a fresh cursor, and leaves the file behind its last sub-block; and
      whatever is accepted was written by an encoder. */
  method LoadFrame(g: Gif, s: Context, x: nat, y: nat, rw: nat, rh: nat, lflags: byte) returns (ok: bool)
    requires g.Shape()
    modifies g, s, g.codes, g.out, g.history
    ensures forall ops, blocks ::
      (IsRaster(s.data, old(s.pos), ops, blocks) && x + rw <= g.w && y + rh <= g.h)
      ==> (ok && g.emitted == Expand(ops) && Clip(s.data, s.pos) == old(s.pos) + 1 + |Chain(blocks)|)
    ensures forall runs, blocks ::
      IsWelch(s.data, old(s.pos), runs, blocks) && x + rw <= g.w && y + rh <= g.h ==> ok && g.emitted == TextOf(runs)
    ensures ok ==> x + rw <= g.w && y + rh <= g.h && ByteAt(s.data, old(s.pos)) <= WIDEST
    ensures ok && ByteAt(s.data, old(s.pos)) >= 2 ==> exists ops :: Holds(ops, s.data, old(s.pos), g.emitted)
    ensures ok ==>
      Shows(g, Rect(g.w, x, y, rw, rh, lflags / 64 % 2 == 1), old(g.out[..]), old(g.history[..]), g.emitted)
    ensures ok ==>
      AllShown(g.out[..], old(g.out[..]), g.colorTable[..], Rect(g.w, x, y, rw, rh, lflags / 64 % 2 == 1), g.emitted)
  {
    ok := g.BeginImage(x, y, rw, rh, lflags);
    if !ok {
      return;
    }
    ok := g.ProcessGifRaster(s);
    if ok && ByteAt(s.data, old(s.pos)) >= 2 {
      var ops := RasterWasWritten(s.data, old(s.pos), g.emitted, s.pos);
      assert Holds(ops, s.data, old(s.pos), g.emitted);
    }
    forall ops, blocks | IsRaster(s.data, old(s.pos), ops, blocks)
      ensures ok && g.emitted == Expand(ops) && Clip(s.data, s.pos) == old(s.pos) + 1 + |Chain(blocks)|
    {
      RasterComesBack(s.data, old(s.pos), ops, blocks, ok, g.emitted, s.pos);
    }
    forall runs, blocks | IsWelch(s.data, old(s.pos), runs, blocks)
      ensures ok && g.emitted == TextOf(runs)
    {
      WelchIsRaster(s.data, old(s.pos), runs, blocks);
      RasterComesBack(s.data, old(s.pos), Ops(runs), blocks, ok, g.emitted, s.pos);
    }
    if ok {
      FrameShown(old(g.out[..]), g.colorTable[..], Rect(g.w, x, y, rw, rh, lflags / 64 % 2 == 1), g.emitted, g.h);
    }
  }

  // ---------------------------------------------------------------------------
  // The picture, byte by byte

  /** Letter n of the text is at its place in the image, unless it is transparent. */
  ghost predicate FrameShows(out: seq<byte>, base: seq<byte>, pal: seq<byte>, r: Rect, text: seq<byte>, n: nat)
    requires |pal| == 1024 && n < |text|
  {
    var order := RowOrder(r.h, r.interlaced);
    var v: nat := text[n];
    r.w > 0 && n / r.w < |order| &&
    var at := Ix(r.y + order[n / r.w], r.width) + r.x + n % r.w;
    4 * at + 4 <= |out| == |base| &&
    if pal[4 * v + 3] > 128 then
      && out[4 * at] == pal[4 * v + 2] && out[4 * at + 1] == pal[4 * v + 1] && out[4 * at + 2] == pal[4 * v]
      && out[4 * at + 3] == pal[4 * v + 3]
    else out[4 * at..4 * at + 4] == base[4 * at..4 * at + 4]
  }

  ghost predicate AllShown(out: seq<byte>, base: seq<byte>, pal: seq<byte>, r: Rect, text: seq<byte>) {
    |pal| == 1024 && forall n: nat :: n < |text| && n < Ix(r.h, r.w) ==> FrameShows(out, base, pal, r, text, n)
  }

  lemma FrameShown(base: seq<byte>, pal: Palette, r: Rect, text: seq<byte>, height: nat)
    requires Fits(r, height) && |base| == 4 * Ix(height, r.width)
    ensures AllShown(Painted(base, pal, r, text), base, pal, r, text)
  {
    hide FrameShows;
    forall n: nat | n < |text| && n < Ix(r.h, r.w)
      ensures FrameShows(Painted(base, pal, r, text), base, pal, r, text, n)
    {
      PixelInFrame(base, pal, r, text, height, n);
    }
  }

  lemma PixelInFrame(base: seq<byte>, pal: Palette, r: Rect, text: seq<byte>, height: nat, n: nat)
    requires Fits(r, height) && |base| == 4 * Ix(height, r.width) && n < |text| && n < Ix(r.h, r.w)
    ensures FrameShows(Painted(base, pal, r, text), base, pal, r, text, n)
  {
    hide RowOrder, Painted, Ix;
    if r.w == 0 { NoColumns(r.h); }
    var k, i := n / r.w, n % r.w;
    IxOfDiv(n, r.w);
    Below(n, r.w, r.h);
    FramePixel(base, pal, r, text, height, k, i);
  }

  // ---------------------------------------------------------------------------
  // Every text has a raster

  /** Sub-blocks as long as they may be. */
  function Cut(s: seq<byte>): (blocks: seq<seq<byte>>) {
    if s == [] then [] else if |s| <= 255 then [s] else [s[..255]] + Cut(s[255..])
  }

  lemma {:induction false} CutJoins(s: seq<byte>)
    ensures Blocks(Cut(s)) && Concat(Cut(s)) == s
    decreases |s|
  {
    if |s| > 255 {
      CutJoins(s[255..]);
      assert Cut(s)[1..] == Cut(s[255..]);
    } else if s != [] {
      assert Cut(s) == [s] && Cut(s)[1..] == [];
    }
  }

  /** For every code size the standard allows for bytes, and every text over its letters, the greedy
      encoder writes a raster that reads back as the text. */
  lemma EveryTextHasRaster(text: seq<byte>, m: byte) returns (data: seq<byte>, blocks: seq<seq<byte>>)
    requires 2 <= m <= 8 && Alphabet(text, m)
    ensures IsRaster(data, 0, Compress8(text, m), blocks)
    ensures Expand(Compress8(text, m)) == text
  {
    hide Chain, Expand, Compress, Encodes, Pow2, ToBits;
    var ops := Compress8(text, m);
    SmallSizes(m);
    FreshSpells(m);
    CompressWrites(text, m, NewCoder(m));
    var packed := Packed(ops, m, NewCoder(m));
    blocks := Cut(packed);
    CutJoins(packed);
    data := [m] + Chain(blocks);
    assert data[1..] == Chain(blocks);
  }

  lemma Packed(ops: seq<Op>, m: nat, e: Coder) returns (packed: seq<byte>)
    requires Writable(ops, m, e)
    ensures Encodes(ops, ToBits(packed), 0, m, e)
  {
    hide Pow2, Writable, Write, LastWidth, ToBits, Lsb, LittleEndian, At;
    var codes := Write(ops, m, e);
    var end := LittleEndian(Pow2(m) + 1, LastWidth(ops, m, e));
    var c := codes + end;
    packed := Deflate.BytesOf(c, 0, Deflate.Align(|c|));
    Encoder.PackedAt([], c, []);
    assert [] + packed + [] == packed;
    StandsSplit(ToBits(packed), 0, codes, end);
  }

  function Compress8(text: seq<byte>, m: byte): seq<Op>
    requires m <= 8
  {
    SmallSizes(m);
    Compress(text, m, NewCoder(m))
  }

  lemma SmallSizes(m: nat)
    requires m <= 8
    ensures Pow2(m) + 2 < 4096
  {
    Pow2Values();
    Pow2Monotone(m, 8);
  }

  /** Pixel i of row k of the raster order shows letter k * w + i of the text, unless that colour is
      transparent; in a frame whose text is long enough this is every pixel of the rectangle. An entry of
      the palette is blue, green, red, alpha, and an alpha of at most 128 is transparent. */
  lemma FramePixel(base: seq<byte>, pal: Palette, r: Rect, text: seq<byte>, height: nat, k: nat, i: nat)
    requires Fits(r, height) && |base| == 4 * Ix(height, r.width) && k < r.h && i < r.w && Ix(k, r.w) + i < |text|
    ensures |RowOrder(r.h, r.interlaced)| == r.h
    ensures var at := Ix(r.y + RowOrder(r.h, r.interlaced)[k], r.width) + r.x + i;
      var c := Colour(pal, text[Ix(k, r.w) + i]);
      at < Ix(height, r.width)
      && PixelAt(Painted(base, pal, r, text), at) == if Opaque(c) then c else PixelAt(base, at)
    ensures var at := Ix(r.y + RowOrder(r.h, r.interlaced)[k], r.width) + r.x + i;
      var v: nat := text[Ix(k, r.w) + i];
      var out := Painted(base, pal, r, text);
      4 * at + 4 <= |out| == |base| &&
      if pal[4 * v + 3] > 128 then
        && out[4 * at] == pal[4 * v + 2] && out[4 * at + 1] == pal[4 * v + 1] && out[4 * at + 2] == pal[4 * v]
        && out[4 * at + 3] == pal[4 * v + 3]
      else out[4 * at..4 * at + 4] == base[4 * at..4 * at + 4]
  {
    hide RowOrder, Painted, CursorAt;
    var n := Ix(k, r.w) + i;
    IxMonotone(k, r.h, r.w);
    OutsideBounds(r, n);
    InsideBounds(r, n);
    DivOfIx(k, r.w, i);
    Touched(base, pal, r, text, height, n);
  }

  /** A pixel outside the rectangle is as it was before the frame. */
  lemma FrameOutside(base: seq<byte>, pal: Palette, r: Rect, text: seq<byte>, height: nat, x: nat, y: nat)
    requires Fits(r, height) && |base| == 4 * Ix(height, r.width) && x < r.width && y < height
    requires x < r.x || r.x + r.w <= x || y < r.y || r.y + r.h <= y
    ensures Ix(y, r.width) + x < Ix(height, r.width)
    ensures PixelAt(Painted(base, pal, r, text), Ix(y, r.width) + x) == PixelAt(base, Ix(y, r.width) + x)
  {
    hide Painted, CursorAt;
    IxMonotone(y, height, r.width);
    DivModUnique(y, r.width, x);
    forall n: nat | n < |text| && Inside(r, n)
      ensures PixelOf(r, n) != Ix(y, r.width) + x
    {
      PixelColumnRow(r, height, n);
      InsideBounds(r, n);
    }
    Untouched(base, pal, r, text, height, Ix(y, r.width) + x);
  }
}
