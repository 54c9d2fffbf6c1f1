/** The decoded image byte by byte: which stored byte, sample or filter each byte of the output comes from,
    with none of the functions that the decoder is proved with. */
module PngPixels {
  import opened Bits
  import opened Filters
  import opened PngRows
  import opened PngExpand
  import opened Png
  import opened Adam7

  // ---------------------------------------------------------------------------
  // Rows

  /** The rows of w bytes are reconstructed from what is stored: every byte follows from the stored one, the
      filter type in front of its row, and its neighbours (RFC 2083 section 6). */
  ghost predicate Reconstructs(rows: seq<seq<byte>>, raw: seq<byte>, w: nat, bpp: nat, y: nat) {
    |rows| == y && (forall j :: 0 <= j < y ==> |rows[j]| == w)
    && forall j: nat, k: nat :: j < y && k < w ==> ByteFollows(rows, raw, w, bpp, j, k)
  }

  ghost predicate ByteFollows(rows: seq<seq<byte>>, raw: seq<byte>, w: nat, bpp: nat, j: nat, k: nat) {
    var at := Ix(j, w + 1);
    && j < |rows| && k < |rows[j]| && (j > 0 ==> k < |rows[j - 1]|) && 0 < bpp && at + 1 + k < |raw|
    && Follows(raw[at], raw[at + 1 + k],
         if k < bpp then 0 else rows[j][k - bpp],
         if j == 0 then 0 else rows[j - 1][k],
         if j == 0 || k < bpp then 0 else rows[j - 1][k - bpp],
         rows[j][k])
  }

  lemma RowsReconstruct(raw: seq<byte>, w: nat, bpp: nat, y: nat)
    requires bpp > 0 && WellFormed(raw, w, y)
    ensures Reconstructs(RowsOf(raw, w, bpp, y), raw, w, bpp, y)
  {
    hide Row, RowsOf, WellFormed, Follows;
    var rows := RowsOf(raw, w, bpp, y);
    forall j: nat, k: nat | j < y && k < w
      ensures ByteFollows(rows, raw, w, bpp, j, k)
    {
      WellFormedTo(raw, w, y, j + 1);
      RowFollows(raw, w, bpp, j, k);
      RowIn(raw, w, bpp, y, j);
      if j > 0 { RowIn(raw, w, bpp, y, j - 1); }
    }
  }

  lemma {:induction false} RowIn(raw: seq<byte>, w: nat, bpp: nat, y: nat, j: nat)
    requires bpp > 0 && WellFormed(raw, w, y) && j < y
    ensures WellFormed(raw, w, j + 1) && RowsOf(raw, w, bpp, y)[j] == Row(raw, w, bpp, j)
  {
    hide Row;
    WellFormedTo(raw, w, y, j + 1);
    if j + 1 < y {
      WellFormedTo(raw, w, y, y - 1);
      RowIn(raw, w, bpp, y - 1, j);
    }
  }

  // ---------------------------------------------------------------------------
  // Pixels

  /** Pixel k of the output shows pixel i of the row, and is opaque if the row says nothing of alpha. */
  ghost predicate PixelShows(out: seq<byte>, f: Format, k: nat, row: seq<byte>, i: nat, little: bool) {
    && (forall t: nat :: t < f.imgN ==> ChannelOf(out, f, k, row, i, t, little))
    && (f.outN > f.imgN ==> IsOpaque(out, f, Ix(k, f.outN) + f.imgN))
  }

  ghost predicate ChannelOf(out: seq<byte>, f: Format, k: nat, row: seq<byte>, i: nat, t: nat, little: bool) {
    ChannelShows(out, f, Ix(k, f.outN) + t, row, Ix(i, f.imgN) + t, little)
  }

  /** Channel number c of the output shows sample q of the row. Sixteen bits are stored in two bytes, the
      high one first; fewer than eight bits are packed, the first sample in the highest bits, and grey ones
      are scaled so that the greatest of them is 255. */
  ghost predicate ChannelShows(out: seq<byte>, f: Format, c: nat, row: seq<byte>, q: nat, little: bool) {
    if f.depth == 16 then
      && 2 * c + 1 < |out| && 2 * q + 1 < |row|
      && (if little then out[2 * c + 1] == row[2 * q] && out[2 * c] == row[2 * q + 1]
          else out[2 * c] == row[2 * q] && out[2 * c + 1] == row[2 * q + 1])
    else if f.depth == 8 then c < |out| && q < |row| && out[c] == row[q]
    else
      c < |out| && IsPacked(row, q, f.depth) &&
      var v := PackedAt(row, q, f.depth);
      if f.grey then out[c] * (Pow2(f.depth) - 1) == 255 * v else out[c] == v
  }

  ghost predicate IsOpaque(out: seq<byte>, f: Format, c: nat) {
    if f.depth == 16 then 2 * c + 1 < |out| && out[2 * c] == 255 && out[2 * c + 1] == 255
    else c < |out| && out[c] == 255
  }

  ghost predicate IsPacked(row: seq<byte>, q: nat, depth: nat) {
    Packed(depth) && (q * depth) / 8 < |row|
  }

  /** Sample q of a packed row: its bits q * depth and following, counted from the highest one of the first byte. */
  ghost function PackedAt(row: seq<byte>, q: nat, depth: nat): nat
    requires IsPacked(row, q, depth)
  {
    var b := row[(q * depth) / 8];
    match (depth, q * depth % 8)
    case (1, 0) => b / 128 case (1, 1) => b / 64 % 2 case (1, 2) => b / 32 % 2 case (1, 3) => b / 16 % 2
    case (1, 4) => b / 8 % 2 case (1, 5) => b / 4 % 2 case (1, 6) => b / 2 % 2 case (1, _) => b % 2
    case (2, 0) => b / 64 case (2, 2) => b / 16 % 4 case (2, 4) => b / 4 % 4 case (2, _) => b % 4
    case (_, 0) => b / 16 case (_, _) => b % 16
  }

  /** A pixel that the decoder has put in its place is shown there. */
  lemma PlacedShows(out: seq<byte>, f: Format, u: nat, v: nat, g: Format, row: seq<byte>, i: nat, little: bool)
    requires f.Valid() && g.Valid() && g == f.(x := g.x, y := g.y) && Inside(f, u, v) && |out| == Ix(f.y, f.Stride())
    requires |row| == g.W() && i < g.x && PixelIs(PixelAt(out, f, u, v), Channels(g, row, little), i, f.Fb())
    ensures PixelShows(out, f, Ix(v, f.x) + u, row, i, little)
  {
    hide Ix, ChannelShows, IsOpaque, PixelIs, Channels;
    var k, channels := Ix(v, f.x) + u, Channels(g, row, little);
    forall s: nat | s < f.Ob()
      ensures ByteIs(out, f, k, channels, i, s)
    {
      PlacedByte(out, f, u, v, channels, i, s);
    }
    Doubled(k, f.outN);
    Doubled(i, f.imgN);
    forall t: nat | t < f.imgN
      ensures ChannelOf(out, f, k, row, i, t, little)
    {
      IxMonotone(i, g.x, f.imgN);
      if f.depth == 16 {
        assert ByteIs(out, f, k, channels, i, 2 * t) && ByteIs(out, f, k, channels, i, 2 * t + 1);
      } else {
        assert ByteIs(out, f, k, channels, i, t);
      }
      ChannelPlaced(out, f, k, g, row, i, t, little);
    }
    if f.outN > f.imgN { AlphaPlaced(out, f, k, channels, i); }
  }

  lemma Doubled(k: nat, n: nat)
    ensures Ix(k, n * 2) == 2 * Ix(k, n) && Ix(k, n * 1) == Ix(k, n)
  {
    Assoc(k, n, 2);
  }

  /** Byte s of pixel k. */
  ghost predicate ByteIs(out: seq<byte>, f: Format, k: nat, channels: seq<byte>, i: nat, s: nat) {
    Ix(k, f.Ob()) + s < |out| &&
    if s < f.Fb() then Ix(i, f.Fb()) + s < |channels| && out[Ix(k, f.Ob()) + s] == channels[Ix(i, f.Fb()) + s]
    else out[Ix(k, f.Ob()) + s] == 255
  }

  lemma LinearStart(f: Format, u: nat, v: nat)
    ensures Start(f, u, v) == Ix(Ix(v, f.x) + u, f.Ob())
  {
    StartIsLinear(f, u, v);
  }

  lemma PlacedByte(out: seq<byte>, f: Format, u: nat, v: nat, channels: seq<byte>, i: nat, s: nat)
    requires f.Valid() && Inside(f, u, v) && |out| == Ix(f.y, f.Stride()) && s < f.Ob()
    requires PixelIs(PixelAt(out, f, u, v), channels, i, f.Fb())
    ensures ByteIs(out, f, Ix(v, f.x) + u, channels, i, s)
  {
    hide Ix, Start;
    LinearStart(f, u, v);
    StartInside(f, u, v);
    var px := PixelAt(out, f, u, v);
    assert px[s] == out[Start(f, u, v) + s];
    if s < f.Fb() { assert px[..f.Fb()][s] == channels[Ix(i, f.Fb())..Ix(i, f.Fb()) + f.Fb()][s]; }
  }

  lemma AlphaPlaced(out: seq<byte>, f: Format, k: nat, channels: seq<byte>, i: nat)
    requires f.Valid() && f.outN == f.imgN + 1 && forall s: nat :: s < f.Ob() ==> ByteIs(out, f, k, channels, i, s)
    ensures IsOpaque(out, f, Ix(k, f.outN) + f.imgN)
  {
    hide Ix;
    Doubled(k, f.outN);
    if f.depth == 16 {
      assert ByteIs(out, f, k, channels, i, 2 * f.imgN) && ByteIs(out, f, k, channels, i, 2 * f.imgN + 1);
    } else {
      assert ByteIs(out, f, k, channels, i, f.imgN);
    }
  }

  lemma ChannelPlaced(out: seq<byte>, f: Format, k: nat, g: Format, row: seq<byte>, i: nat, t: nat, little: bool)
    requires f.Valid() && g.Valid() && g == f.(x := g.x, y := g.y) && |row| == g.W() && t < f.imgN
    requires Ix(i, f.imgN) + f.imgN <= Ix(g.x, f.imgN)
    requires f.depth != 16 ==> ByteIs(out, f, k, Channels(g, row, little), i, t)
    requires f.depth == 16 ==>
      ByteIs(out, f, k, Channels(g, row, little), i, 2 * t) && ByteIs(out, f, k, Channels(g, row, little), i, 2 * t + 1)
    ensures ChannelOf(out, f, k, row, i, t, little)
  {
    hide Ix, Unpack, Width, PackedAt;
    Doubled(k, f.outN);
    Doubled(i, f.imgN);
    Doubled(g.x, f.imgN);
    if Packed(f.depth) { SampleUnpacked(row, Ix(g.x, f.imgN), f.depth, f.grey, Ix(i, f.imgN) + t); }
  }

  lemma SampleUnpacked(row: seq<byte>, n: nat, depth: nat, grey: bool, q: nat)
    requires Packed(depth) && q < n <= FirstOf(|row|, depth)
    ensures IsPacked(row, q, depth)
    ensures var v, s := PackedAt(row, q, depth), Unpack(row, n, depth, grey)[q];
      if grey then s * (Pow2(depth) - 1) == 255 * v else s == v
  {
    InRow(q, |row|, depth);
    ByteIxIs(q, depth);
    SampleIsPacked(row, q, depth);
    ScaleTimes(depth, grey, PackedAt(row, q, depth));
  }

  lemma ByteIxIs(q: nat, depth: nat)
    requires Packed(depth)
    ensures ByteIx(q, depth) == (q * depth) / 8
  {
  }

  lemma SampleIsPacked(row: seq<byte>, q: nat, depth: nat)
    requires IsPacked(row, q, depth)
    ensures PackedAt(row, q, depth) == SampleOf(row[(q * depth) / 8], Place(q, depth), depth)
  {
    hide SampleOf, PackedAt, Pow2, Place;
    if depth == 1 { BitIsPacked(row, q); } else if depth == 2 { PairIsPacked(row, q); } else { NibbleIsPacked(row, q); }
  }

  lemma BitIsPacked(row: seq<byte>, q: nat)
    requires IsPacked(row, q, 1)
    ensures PackedAt(row, q, 1) == SampleOf(row[(q * 1) / 8], Place(q, 1), 1)
  {
    hide SampleOf, Pow2, Place;
    Pow2Zero();
    Pow2Values();
    PlaceOfBit(q);
    SampleIs(row[(q * 1) / 8], Place(q, 1), 1, Pow2(Shift(Place(q, 1), 1)), Pow2(1));
  }

  lemma PairIsPacked(row: seq<byte>, q: nat)
    requires IsPacked(row, q, 2)
    ensures PackedAt(row, q, 2) == SampleOf(row[(q * 2) / 8], Place(q, 2), 2)
  {
    hide SampleOf, Pow2, Place;
    Pow2Zero();
    Pow2Values();
    PlaceOfPair(q);
    SampleIs(row[(q * 2) / 8], Place(q, 2), 2, Pow2(Shift(Place(q, 2), 2)), Pow2(2));
  }

  lemma NibbleIsPacked(row: seq<byte>, q: nat)
    requires IsPacked(row, q, 4)
    ensures PackedAt(row, q, 4) == SampleOf(row[(q * 4) / 8], Place(q, 4), 4)
  {
    hide SampleOf, Pow2, Place;
    Pow2Zero();
    Pow2Values();
    PlaceOfNibble(q);
    SampleIs(row[(q * 4) / 8], Place(q, 4), 4, Pow2(Shift(Place(q, 4), 4)), Pow2(4));
  }

  lemma PlaceOfBit(q: nat)
    ensures Place(q, 1) == q * 1 % 8 == q % 8
  {
  }

  lemma PlaceOfPair(q: nat)
    ensures 2 * Place(q, 2) == q * 2 % 8
  {
  }

  lemma PlaceOfNibble(q: nat)
    ensures 4 * Place(q, 4) == q * 4 % 8
  {
  }

  lemma ScaleTimes(depth: nat, grey: bool, v: nat)
    requires Packed(depth) && v < Pow2(depth)
    ensures if grey then Scaled(depth, grey, v) * (Pow2(depth) - 1) == 255 * v else Scaled(depth, grey, v) == v
  {
    Pow2Values();
  }

  // ---------------------------------------------------------------------------
  // Images

  /** Bytes in a row, and from a byte to the one it is filtered with. */
  function RowBytes(f: Format): nat { (f.imgN * f.x * f.depth + 7) / 8 }
  function Back(f: Format): nat { if f.depth < 8 then 1 else f.imgN * (f.depth / 8) }

  lemma RowNumbers(f: Format)
    requires f.Valid()
    ensures RowBytes(f) == f.W() && Back(f) == f.Bpp()
  {
    WidthIsRoundedUp(f);
  }

  /** The output is the picture of these rows. */
  ghost predicate Pictures(out: seq<byte>, f: Format, rows: seq<seq<byte>>, little: bool) {
    |rows| == f.y && |out| == Ix(Ix(f.y, f.x), f.Ob())
    && forall u: nat, v: nat :: u < f.x && v < f.y ==> RowShows(out, f, rows[v], u, v, little)
  }

  ghost predicate RowShows(out: seq<byte>, f: Format, row: seq<byte>, u: nat, v: nat, little: bool) {
    PixelShows(out, f, Ix(v, f.x) + u, row, u, little)
  }

  /** The output shows what the data stand for. */
  ghost predicate Decoded(data: seq<byte>, f: Format, little: bool, out: seq<byte>) {
    exists rows :: Reconstructs(rows, data, RowBytes(f), Back(f), f.y) && Pictures(out, f, rows, little)
  }

  lemma ImageDecoded(data: seq<byte>, f: Format, little: bool, out: seq<byte>)
    requires f.Valid() && WellFormed(data, f.W(), f.y) && ImageHolds(out, f, data, little)
    ensures Decoded(data, f, little, out)
  {
    hide Row, RowsOf, WellFormed, Channels, PixelIs, PixelShows, Ix, Reconstructs;
    var rows := RowsOf(data, f.W(), f.Bpp(), f.y);
    RowNumbers(f);
    RowsReconstruct(data, f.W(), f.Bpp(), f.y);
    Area(f);
    forall u: nat, v: nat | u < f.x && v < f.y
      ensures RowShows(out, f, rows[v], u, v, little)
    {
      SubPixel(out, f, data, little, u, v);
      RowIn(data, f.W(), f.Bpp(), f.y, v);
      PlacedShows(out, f, u, v, f, rows[v], u, little);
    }
  }

  /** What is refused: sizes beyond an int, packed rows longer than the line they are expanded in, too few
      bytes, and unknown filter types. */
  lemma DecodableInNumbers(data: seq<byte>, f: Format)
    requires f.Valid()
    ensures Decodable(data, f) <==>
      && Ix(Ix(f.y, f.x), f.Ob()) <= 0x7FFF_FFFF && f.imgN * f.x * f.depth + 7 <= 0x7FFF_FFFF
      && (f.depth < 8 ==> RowBytes(f) <= f.x)
      && Ix(f.y, RowBytes(f) + 1) <= |data| && forall j: nat :: j < f.y ==> FilterKnown(data, f, j)
  {
    hide Ix;
    RowNumbers(f);
    Area(f);
    if Ix(f.y, f.W() + 1) <= |data| {
      forall j: nat | j < f.y
        ensures KindOk(data, f.W(), j) <==> FilterKnown(data, f, j)
      {
        LineMonotone(f.W(), j, f.y);
      }
    }
  }

  ghost predicate FilterKnown(data: seq<byte>, f: Format, j: nat) {
    Ix(j, RowBytes(f) + 1) < |data| && data[Ix(j, RowBytes(f) + 1)] <= 4
  }

  lemma Area(f: Format)
    ensures Ix(f.y, f.Stride()) == Ix(Ix(f.y, f.x), f.Ob())
  {
    Assoc(f.y, f.x, f.Ob());
  }

  // ---------------------------------------------------------------------------
  // Interlaced images

  /** The rows of every pass, reconstructed one pass behind the other. */
  ghost predicate ReconstructPasses(passes: seq<seq<seq<byte>>>, data: seq<byte>, f: Format)
    requires f.Valid()
  {
    |passes| == 7 && forall p: Pass :: !Empty(f, p) ==> ReconstructsPass(passes[p], data, f, p)
  }

  ghost predicate ReconstructsPass(rows: seq<seq<byte>>, data: seq<byte>, f: Format, p: Pass)
    requires f.Valid() && !Empty(f, p)
  {
    Offset(f, p) <= |data| && Reconstructs(rows, data[Offset(f, p)..], RowBytes(FormatOf(f, p)), Back(f), Lines(p, f.y))
  }

  /** Every pixel is shown by the row and column of its pass. */
  ghost predicate PicturesPasses(out: seq<byte>, f: Format, passes: seq<seq<seq<byte>>>, little: bool) {
    |passes| == 7 && |out| == Ix(Ix(f.y, f.x), f.Ob())
    && forall u: nat, v: nat :: u < f.x && v < f.y ==> PassShows(out, f, passes, u, v, little)
  }

  ghost predicate PassShows(out: seq<byte>, f: Format, passes: seq<seq<seq<byte>>>, u: nat, v: nat, little: bool)
    requires |passes| == 7
  {
    var p := PassOf(u, v);
    LineOf(p, v) < |passes[p]| && PixelShows(out, f, Ix(v, f.x) + u, passes[p][LineOf(p, v)], ColOf(p, u), little)
  }

  ghost predicate DecodedPasses(data: seq<byte>, f: Format, little: bool, out: seq<byte>)
    requires f.Valid()
  {
    exists passes :: ReconstructPasses(passes, data, f) && PicturesPasses(out, f, passes, little)
  }

  ghost function PassRows(data: seq<byte>, f: Format, p: Pass): seq<seq<byte>>
    requires f.Valid() && PassDecodable(data, f, p)
  {
    if Empty(f, p) then [] else
      var g := FormatOf(f, p);
      RowsOf(data[Offset(f, p)..], g.W(), g.Bpp(), g.y)
  }

  lemma InterlacedDecoded(data: seq<byte>, f: Format, little: bool, out: seq<byte>)
    requires f.Valid() && PassesDecodable(data, f, 7)
    requires |out| == Ix(f.y, f.Stride()) && PassesDone(out, f, data, little, 7)
    ensures DecodedPasses(data, f, little, out)
  {
    hide PassDecodable, Ix, PassOf, LineOf, ColOf, PixelFrom, PassRows, ReconstructsPass, PassShows, Empty;
    var passes := PassList(data, f);
    Area(f);
    forall p: Pass | !Empty(f, p)
      ensures ReconstructsPass(passes[p], data, f, p)
    {
      assert PassDecodable(data, f, p);
      PassReconstructs(data, f, p);
    }
    forall u: nat, v: nat | u < f.x && v < f.y
      ensures PassShows(out, f, passes, u, v, little)
    {
      assert PassDecodable(data, f, PassOf(u, v));
      assert PixelFrom(out, f, data, little, u, v);
      PassPixel(data, f, little, out, passes, u, v);
    }
    assert ReconstructPasses(passes, data, f);
    assert PicturesPasses(out, f, passes, little);
  }

  lemma PassReconstructs(data: seq<byte>, f: Format, p: Pass)
    requires f.Valid() && !Empty(f, p) && PassDecodable(data, f, p)
    ensures ReconstructsPass(PassRows(data, f, p), data, f, p)
  {
    hide Reconstructs, RowsOf, Offset, WellFormed, Columns, Lines;
    var g := FormatOf(f, p);
    RowNumbers(g);
    RowsReconstruct(data[Offset(f, p)..], g.W(), g.Bpp(), g.y);
  }

  lemma PassPixel(data: seq<byte>, f: Format, little: bool, out: seq<byte>, passes: seq<seq<seq<byte>>>, u: nat, v: nat)
    requires f.Valid() && Inside(f, u, v) && |out| == Ix(f.y, f.Stride()) && PassDecodable(data, f, PassOf(u, v))
    requires PixelFrom(out, f, data, little, u, v)
    requires |passes| == 7 && passes[PassOf(u, v)] == PassRows(data, f, PassOf(u, v))
    ensures PassShows(out, f, passes, u, v, little)
  {
    hide Ix, PassOf, LineOf, ColOf, Columns, Lines, Offset, Row, RowsOf, WellFormed, Channels, PixelIs, PixelShows;
    var p := PassOf(u, v);
    PassTaken(f, p, u, v);
    var g, raw := FormatOf(f, p), data[Offset(f, p)..];
    RowIn(raw, g.W(), g.Bpp(), g.y, LineOf(p, v));
    PlacedShows(out, f, u, v, g, RowsOf(raw, g.W(), g.Bpp(), g.y)[LineOf(p, v)], ColOf(p, u), little);
  }

  ghost function PassList(data: seq<byte>, f: Format): (passes: seq<seq<seq<byte>>>)
    requires f.Valid() && PassesDecodable(data, f, 7)
    ensures |passes| == 7 && forall p: Pass :: PassDecodable(data, f, p) && passes[p] == PassRows(data, f, p)
  {
    hide PassDecodable, PassRows;
    assert forall p: Pass :: PassDecodable(data, f, p);
    seq(7, p requires 0 <= p < 7 => PassRows(data, f, p))
  }
}
