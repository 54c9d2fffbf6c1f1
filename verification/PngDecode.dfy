/** What comes back: images that were filtered, and possibly interlaced, by an encoder. */
module PngDecode {
  import opened Bits
  import opened Filters
  import opened PngRows
  import opened PngExpand
  import opened Png
  import opened Adam7
  import opened PngPixels

  /** Filtered image data: rows as stored in a file, the filter chosen for each, and whatever follows. */
  datatype Filtered = Filtered(rows: seq<seq<byte>>, kinds: seq<nat>)
  {
    ghost predicate Valid(f: Format)
      requires f.Valid()
    {
      |rows| == f.y && Storable(rows, kinds, f.W())
    }

    ghost function Bytes(f: Format): (raw: seq<byte>)
      requires f.Valid() && Valid(f)
      ensures |raw| == LineAt(f.W(), f.y)
    {
      Store(rows, kinds, f.W(), f.Bpp())
    }
  }

  /** The lines of the output hold the channels of these rows, and 255 in an inserted channel. */
  ghost predicate Shows(out: seq<byte>, f: Format, lines: seq<seq<byte>>)
    requires f.Valid()
  {
    |out| == Ix(f.y, f.Stride()) && |lines| == f.y && forall v: nat :: v < f.y ==> ShowsLine(out, f, lines, v)
  }

  ghost predicate ShowsLine(out: seq<byte>, f: Format, lines: seq<seq<byte>>, v: nat)
    requires f.Valid() && v < |lines|
  {
    && Ix(v, f.Stride()) + f.Stride() <= |out|
    && LineHolds(out[Ix(v, f.Stride())..Ix(v, f.Stride()) + f.Stride()], lines[v], f.x, f.Fb(), f.Ob(), f.Ob() - f.Fb())
  }

  ghost function ChannelLines(f: Format, rows: seq<seq<byte>>, kinds: seq<nat>, little: bool): (lines: seq<seq<byte>>)
    requires f.Valid() && Storable(rows, kinds, f.W())
    ensures |lines| == |rows|
  {
    seq(|rows|, j requires 0 <= j < |rows| => Channels(f, rows[j], little))
  }

  lemma FilteredDecodable(f: Format, e: Filtered, extra: seq<byte>)
    requires f.Valid() && e.Valid(f) && SizesOk(f)
    ensures Decodable(e.Bytes(f) + extra, f)
  {
    hide Store, Row, Ix;
    UnfilterInvertsFilter(e.rows, e.kinds, f.W(), f.Bpp(), extra, 0);
  }

  /** The data begin with these filtered rows. */
  ghost predicate IsStored(data: seq<byte>, f: Format, e: Filtered, extra: seq<byte>)
    requires f.Valid()
  {
    e.Valid(f) && data == e.Bytes(f) + extra
  }

  /** Data can be decoded exactly if the sizes pass and they are filtered rows with anything behind them. */
  lemma DecodableIff(data: seq<byte>, f: Format)
    requires f.Valid()
    ensures Decodable(data, f) <==> SizesOk(f) && exists e, extra :: IsStored(data, f, e, extra)
  {
    hide Store;
    if Decodable(data, f) {
      var e, extra := RowsDecoded(data, f);
    }
    if e, extra :| SizesOk(f) && IsStored(data, f, e, extra) {
      FilteredDecodable(f, e, extra);
    }
  }

  /** They are the rows it decodes to. */
  lemma RowsDecoded(data: seq<byte>, f: Format) returns (e: Filtered, extra: seq<byte>)
    requires f.Valid() && WellFormed(data, f.W(), f.y)
    ensures e == Filtered(RowsOf(data, f.W(), f.Bpp(), f.y), KindsOf(data, f.W(), f.y)) && IsStored(data, f, e, extra)
    ensures extra == data[LineAt(f.W(), f.y)..]
  {
    hide Store, LineAt, RowsOf, KindsOf;
    e := Filtered(RowsOf(data, f.W(), f.Bpp(), f.y), KindsOf(data, f.W(), f.y));
    extra := data[LineAt(f.W(), f.y)..];
    FilterInvertsDecoding(data, f.W(), f.Bpp(), f.y);
    assert data == data[..LineAt(f.W(), f.y)] + extra;
  }

  /** Decoding undoes filtering: every line of the image comes back. */
  lemma FilteredComesBack(f: Format, e: Filtered, extra: seq<byte>, little: bool, out: seq<byte>)
    requires f.Valid() && e.Valid(f) && WellFormed(e.Bytes(f) + extra, f.W(), f.y)
    requires ImageHolds(out, f, e.Bytes(f) + extra, little)
    ensures Shows(out, f, ChannelLines(f, e.rows, e.kinds, little))
  {
    hide Store, Row, Ix, Channels, LineHolds, WellFormed;
    var raw, lines := e.Bytes(f) + extra, ChannelLines(f, e.rows, e.kinds, little);
    forall v: nat | v < f.y
      ensures ShowsLine(out, f, lines, v)
    {
      assert LineDone(out, f, raw, little, v);
      UnfilterInvertsFilter(e.rows, e.kinds, f.W(), f.Bpp(), extra, v);
    }
  }

  // ---------------------------------------------------------------------------
  // Interlaced images

  type Passes = s: seq<Filtered> | |s| == 7 witness seq(7, _ => Filtered([], []))

  /** Pass p of an interlaced image: its row j holds the pixels of line Y(p, j) in the columns of the pass. */
  ghost predicate Extracts(f: Format, lines: seq<seq<byte>>, p: Pass, e: Filtered, little: bool)
    requires f.Valid() && !Empty(f, p)
  {
    var g := FormatOf(f, p);
    && e.Valid(g) && |lines| == f.y
    && forall i: nat, j: nat :: i < g.x && j < g.y ==> ExtractsPixel(f, lines, p, e, little, i, j)
  }

  ghost predicate ExtractsPixel(f: Format, lines: seq<seq<byte>>, p: Pass, e: Filtered, little: bool, i: nat, j: nat)
    requires f.Valid() && !Empty(f, p) && e.Valid(FormatOf(f, p)) && |lines| == f.y
    requires i < FormatOf(f, p).x && j < FormatOf(f, p).y
  {
    PassInside(p, i, j, f.x, f.y);
    var c, line, fb := Channels(FormatOf(f, p), e.rows[j], little), lines[Y(p, j)], f.Fb();
    && Ix(i, fb) + fb <= |c| && Ix(X(p, i), fb) + fb <= |line|
    && c[Ix(i, fb)..Ix(i, fb) + fb] == line[Ix(X(p, i), fb)..Ix(X(p, i), fb) + fb]
  }

  ghost predicate Interlaces(f: Format, lines: seq<seq<byte>>, es: Passes, little: bool)
    requires f.Valid()
  {
    && |lines| == f.y && (forall v :: 0 <= v < f.y ==> |lines[v]| == Ix(f.x, f.Fb()))
    && forall p: Pass :: !Empty(f, p) ==> Extracts(f, lines, p, es[p], little)
  }

  /** The sizes the source checks: the image and its line width do not overflow, and a packed line fits
      into the line it is expanded in. */
  ghost predicate SizesOk(f: Format)
    requires f.Valid()
  {
    f.Fits() && (Packed(f.depth) ==> f.W() <= f.x)
  }

  ghost predicate PassFits(f: Format, p: Pass)
    requires f.Valid() && !Empty(f, p)
  {
    SizesOk(FormatOf(f, p))
  }

  ghost predicate PassesFit(f: Format)
    requires f.Valid()
  {
    forall p: Pass :: !Empty(f, p) ==> PassFits(f, p)
  }

  /** The sizes of an image are enough for its passes. */
  lemma FitsPasses(f: Format)
    requires f.Valid() && SizesOk(f)
    ensures PassesFit(f)
  {
    hide Columns, Lines, Ix, Width;
    forall p: Pass | !Empty(f, p)
      ensures PassFits(f, p)
    {
      var g := FormatOf(f, p);
      NoMoreThan(p, f.x, f.y);
      StrideMonotone(g.x, f.x, f.Ob(), g.y, f.y);
      BitsMonotone(f.imgN, g.x, f.x, f.depth);
      if Packed(f.depth) { PackedWidth(f.imgN, g.x, f.x, f.depth); }
    }
  }

  lemma NoMoreThan(p: Pass, x: nat, y: nat)
    ensures Columns(p, x) <= x && Lines(p, y) <= y
  {
  }

  lemma StrideMonotone(x: nat, x': nat, ob: nat, y: nat, y': nat)
    requires x <= x' && y <= y'
    ensures Ix(y, Ix(x, ob)) <= Ix(y', Ix(x', ob))
  {
    hide Ix;
    IxMonotone(x, x', ob);
    IxMonotone(y, y', Ix(x, ob));
    IxWider(y', Ix(x, ob), Ix(x', ob));
  }

  lemma IxWider(y: nat, a: nat, b: nat)
    requires a <= b
    ensures Ix(y, a) <= Ix(y, b)
  {
    Commute(y, a);
    Commute(y, b);
    Distribute(b - a, a, y);
    MulPositive(b - a, y);
  }

  lemma BitsMonotone(n: nat, x: nat, x': nat, depth: nat)
    requires x <= x'
    ensures n * x * depth <= n * x' * depth
  {
    IxWider(n, x, x');
    Distribute(n * x' - n * x, n * x, depth);
    MulPositive(n * x' - n * x, depth);
  }

  /** A packed line is no wider than it has pixels exactly if a pixel has at most eight bits. */
  lemma PackedWidth(n: nat, x: nat, x': nat, depth: nat)
    requires Packed(depth) && 1 <= x && 1 <= x' && 1 <= n <= 4 && Width(Ix(x', n), depth) <= x'
    ensures Width(Ix(x, n), depth) <= x
  {
    if n == 1 {} else if n == 2 {} else if n == 3 {} else {}
  }

  /** The data of one pass, and of passes p and later, one after the other. */
  ghost function Chunk(f: Format, es: Passes, p: Pass): (data: seq<byte>)
    requires f.Valid() && AllStored(f, es)
    ensures |data| == PassLength(f, p)
  {
    assert StoredOk(f, es, p);
    if Empty(f, p) then [] else es[p].Bytes(FormatOf(f, p))
  }

  ghost predicate AllStored(f: Format, es: Passes)
    requires f.Valid()
  {
    forall q: Pass :: StoredOk(f, es, q)
  }

  ghost predicate StoredOk(f: Format, es: Passes, q: Pass)
    requires f.Valid()
  {
    Empty(f, q) || es[q].Valid(FormatOf(f, q))
  }

  ghost function Joined(f: Format, es: Passes, p: nat): (data: seq<byte>)
    requires f.Valid() && p <= 7 && AllStored(f, es)
    decreases 7 - p
  {
    if p == 7 then [] else Chunk(f, es, p) + Joined(f, es, p + 1)
  }

  lemma {:induction false} JoinedFrom(f: Format, es: Passes, extra: seq<byte>, p: nat)
    requires f.Valid() && p <= 7 && AllStored(f, es)
    ensures Offset(f, p) <= |Joined(f, es, 0) + extra|
    ensures (Joined(f, es, 0) + extra)[Offset(f, p)..] == Joined(f, es, p) + extra
  {
    hide Chunk, PassLength, AllStored;
    if p > 0 {
      JoinedFrom(f, es, extra, p - 1);
      DropTwice(Joined(f, es, 0) + extra, Offset(f, p - 1), Chunk(f, es, p - 1), Joined(f, es, p), extra);
    }
  }

  lemma DropTwice(data: seq<byte>, at: nat, head: seq<byte>, tail: seq<byte>, extra: seq<byte>)
    requires at <= |data| && data[at..] == head + tail + extra
    ensures at + |head| <= |data| && data[at + |head|..] == tail + extra
  {
    assert data[at + |head|..] == data[at..][|head|..];
  }

  lemma PassStored(f: Format, es: Passes, extra: seq<byte>, p: Pass)
    requires f.Valid() && AllStored(f, es) && PassesFit(f)
    ensures PassDecodable(Joined(f, es, 0) + extra, f, p)
    ensures !Empty(f, p) ==> es[p].Valid(FormatOf(f, p))
    ensures !Empty(f, p) ==>
      (Joined(f, es, 0) + extra)[Offset(f, p)..] == es[p].Bytes(FormatOf(f, p)) + After(f, es, extra, p)
  {
    hide Decodable, Store, Offset, Columns, Lines, FormatOf, PassLength, Joined, After;
    JoinedFrom(f, es, extra, p);
    assert StoredOk(f, es, p);
    var rest := After(f, es, extra, p);
    JoinedStep(f, es, extra, p);
    if !Empty(f, p) {
      FilteredDecodable(FormatOf(f, p), es[p], rest);
    }
  }

  /** What follows the data of pass p. */
  ghost function After(f: Format, es: Passes, extra: seq<byte>, p: Pass): seq<byte>
    requires f.Valid() && AllStored(f, es)
  {
    var n: nat := p;
    Joined(f, es, n + 1) + extra
  }

  lemma JoinedStep(f: Format, es: Passes, extra: seq<byte>, p: Pass)
    requires f.Valid() && AllStored(f, es)
    ensures Joined(f, es, p) + extra == Chunk(f, es, p) + After(f, es, extra, p)
  {
    hide Chunk, AllStored;
  }

  lemma Unpassed(f: Format, lines: seq<seq<byte>>, es: Passes, little: bool)
    requires f.Valid() && Interlaces(f, lines, es, little)
    ensures AllStored(f, es)
  {
    hide Columns, Lines;
  }

  lemma PassExtracted(f: Format, lines: seq<seq<byte>>, es: Passes, little: bool, p: Pass)
    requires f.Valid() && Interlaces(f, lines, es, little) && !Empty(f, p)
    ensures Extracts(f, lines, p, es[p], little)
  {
  }

  lemma InterlacedDecodable(f: Format, lines: seq<seq<byte>>, es: Passes, extra: seq<byte>, little: bool)
    requires f.Valid() && Interlaces(f, lines, es, little) && PassesFit(f)
    ensures PassesDecodable(Joined(f, es, 0) + extra, f, 7)
  {
    hide Interlaces, PassDecodable, Joined;
    Unpassed(f, lines, es, little);
    forall p: Pass | p < 7
      ensures PassDecodable(Joined(f, es, 0) + extra, f, p)
    {
      PassStored(f, es, extra, p);
    }
  }

  /** The data begin with these seven passes. */
  ghost predicate ArePasses(data: seq<byte>, f: Format, es: Passes, extra: seq<byte>)
    requires f.Valid()
  {
    AllStored(f, es) && data == Joined(f, es, 0) + extra
  }

  /** Interlaced data can be decoded exactly if the passes fit and they are seven filtered passes with
      anything behind them. */
  lemma PassesDecodableIff(data: seq<byte>, f: Format)
    requires f.Valid()
    ensures PassesDecodable(data, f, 7) <==> PassesFit(f) && exists es, extra :: ArePasses(data, f, es, extra)
  {
    hide Joined, AllStored, PassDecodable, PassesFit, Offset;
    if PassesDecodable(data, f, 7) {
      PassesHaveSizes(data, f);
      var es := PassesOf(data, f);
      PassesHeld(data, f);
      JoinedTo(data, f, es, 0);
      JoinedWhole(data, f, es);
    }
    if es, extra :| PassesFit(f) && ArePasses(data, f, es, extra) {
      forall p: Pass | p < 7
        ensures PassDecodable(data, f, p)
      {
        PassStored(f, es, extra, p);
      }
    }
  }

  lemma PassesHaveSizes(data: seq<byte>, f: Format)
    requires f.Valid() && PassesDecodable(data, f, 7)
    ensures PassesFit(f)
  {
    forall p: Pass | !Empty(f, p)
      ensures PassFits(f, p)
    {
      assert PassDecodable(data, f, p);
    }
  }

  ghost function FilteredOf(data: seq<byte>, f: Format): (e: Filtered)
    requires f.Valid() && WellFormed(data, f.W(), f.y)
    ensures e.Valid(f) && e.Bytes(f) == data[..LineAt(f.W(), f.y)]
  {
    FilterInvertsDecoding(data, f.W(), f.Bpp(), f.y);
    Filtered(RowsOf(data, f.W(), f.Bpp(), f.y), KindsOf(data, f.W(), f.y))
  }

  /** The passes the data hold. */
  ghost function PassesOf(data: seq<byte>, f: Format): (es: Passes)
    requires f.Valid() && PassesDecodable(data, f, 7)
  {
    seq(7, i requires 0 <= i < 7 => PassOfData(data, f, i))
  }

  ghost function PassOfData(data: seq<byte>, f: Format, p: Pass): (e: Filtered)
    requires f.Valid() && PassesDecodable(data, f, 7)
  {
    assert PassDecodable(data, f, p);
    if Empty(f, p) then Filtered([], []) else FilteredOf(data[Offset(f, p)..], FormatOf(f, p))
  }

  lemma PassesHeld(data: seq<byte>, f: Format)
    requires f.Valid() && PassesDecodable(data, f, 7)
    ensures AllStored(f, PassesOf(data, f)) && forall p: Pass :: HoldsPass(data, f, PassesOf(data, f), p)
  {
    hide Offset, Decodable, Store;
    var es := PassesOf(data, f);
    forall p: Pass
      ensures StoredOk(f, es, p)
    {
      assert PassDecodable(data, f, p);
    }
    forall p: Pass
      ensures HoldsPass(data, f, es, p)
    {
      assert PassDecodable(data, f, p);
      assert es[p] == PassOfData(data, f, p);
    }
  }

  ghost predicate HoldsPass(data: seq<byte>, f: Format, es: Passes, p: Pass)
    requires f.Valid() && AllStored(f, es)
  {
    Offset(f, p) + PassLength(f, p) <= |data| && Chunk(f, es, p) == data[Offset(f, p)..][..PassLength(f, p)]
  }

  lemma {:induction false} JoinedTo(data: seq<byte>, f: Format, es: Passes, p: nat)
    requires f.Valid() && p <= 7 && AllStored(f, es) && forall q: Pass :: HoldsPass(data, f, es, q)
    ensures Offset(f, p) <= Offset(f, 7) <= |data| && Joined(f, es, p) == data[Offset(f, p)..Offset(f, 7)]
    decreases 7 - p
  {
    hide PassLength, AllStored, Chunk;
    assert HoldsPass(data, f, es, 6);
    if p < 7 {
      assert HoldsPass(data, f, es, p);
      JoinedTo(data, f, es, p + 1);
    }
  }

  lemma JoinedWhole(data: seq<byte>, f: Format, es: Passes)
    requires f.Valid() && AllStored(f, es)
    requires Offset(f, 7) <= |data| && Joined(f, es, 0) == data[Offset(f, 0)..Offset(f, 7)]
    ensures ArePasses(data, f, es, data[Offset(f, 7)..])
  {
    hide Joined, AllStored, PassLength;
    assert Offset(f, 0) == 0;
  }

  /** De-interlacing undoes the extraction of the seven passes. */
  lemma InterlacedComesBack(f: Format, lines: seq<seq<byte>>, es: Passes, extra: seq<byte>, little: bool, out: seq<byte>)
    requires f.Valid() && Interlaces(f, lines, es, little) && PassesFit(f) && |out| == Ix(f.y, f.Stride())
    requires PassesDecodable(Joined(f, es, 0) + extra, f, 7) && PassesDone(out, f, Joined(f, es, 0) + extra, little, 7)
    ensures Shows(out, f, lines)
  {
    hide Ix, PixelFrom, Joined, LineHolds, Interlaces, PassesDecodable, PassDecodable;
    Unpassed(f, lines, es, little);
    LinesGiven(f, lines, es, little);
    forall v: nat | v < f.y
      ensures ShowsLine(out, f, lines, v)
    {
      IxMonotone(v, f.y, f.Stride());
      var line := out[Ix(v, f.Stride())..Ix(v, f.Stride()) + f.Stride()];
      var alpha := f.Ob() - f.Fb();
      forall u: nat | u < f.x
        ensures PixelHolds(line, u, lines[v], f.Fb(), f.Ob(), alpha)
      {
        PixelBack(f, lines, es, extra, little, out, u, v);
        PixelOfLine(out, f, u, v, lines[v]);
      }
      PixelsMakeLine(line, lines[v], f.x, f.Fb(), f.Ob(), alpha);
    }
  }

  lemma LinesGiven(f: Format, lines: seq<seq<byte>>, es: Passes, little: bool)
    requires f.Valid() && Interlaces(f, lines, es, little)
    ensures |lines| == f.y && forall v :: 0 <= v < f.y ==> |lines[v]| == Ix(f.x, f.Fb())
  {
  }

  lemma PixelsMakeLine(line: seq<byte>, channels: seq<byte>, x: nat, fb: nat, ob: nat, alpha: nat)
    requires fb + alpha <= ob && |line| == Ix(x, ob) && |channels| == Ix(x, fb)
    requires forall u: nat :: u < x ==> PixelHolds(line, u, channels, fb, ob, alpha)
    ensures LineHolds(line, channels, x, fb, ob, alpha)
  {
  }

  lemma PixelBack(f: Format, lines: seq<seq<byte>>, es: Passes, extra: seq<byte>, little: bool, out: seq<byte>, u: nat, v: nat)
    requires f.Valid() && Interlaces(f, lines, es, little) && |out| == Ix(f.y, f.Stride()) && u < f.x && v < f.y
    requires AllStored(f, es) && PassesFit(f)
    requires PassesDecodable(Joined(f, es, 0) + extra, f, 7) && PassesDone(out, f, Joined(f, es, 0) + extra, little, 7)
    ensures PixelIs(PixelAt(out, f, u, v), lines[v], u, f.Fb())
  {
    hide Ix, Joined, Offset, Columns, Lines, ColOf, LineOf, InPass, PassOf, PassDecodable, PixelFromPass, FormatOf, Interlaces, AllStored;
    var data, p := Joined(f, es, 0) + extra, PassOf(u, v);
    PassTaken(f, p, u, v);
    PassStored(f, es, extra, p);
    PassExtracted(f, lines, es, little, p);
    assert PixelFrom(out, f, data, little, u, v);
    PixelOfPass(f, lines, es[p], After(f, es, extra, p), data, little, out, p, u, v);
  }

  lemma PixelOfPass(f: Format, lines: seq<seq<byte>>, e: Filtered, rest: seq<byte>, data: seq<byte>, little: bool, out: seq<byte>,
                    p: Pass, u: nat, v: nat)
    requires f.Valid() && |out| == Ix(f.y, f.Stride()) && Inside(f, u, v) && InPass(p, u, v) && !Empty(f, p)
    requires e.Valid(FormatOf(f, p)) && Extracts(f, lines, p, e, little) && |lines| == f.y
    requires PassDecodable(data, f, p) && data[Offset(f, p)..] == e.Bytes(FormatOf(f, p)) + rest
    requires PixelFromPass(out, f, data, little, p, u, v)
    ensures PixelIs(PixelAt(out, f, u, v), lines[v], u, f.Fb())
  {
    hide Ix, Channels, Row, Decodable, Store, Offset, Columns, Lines, ColOf, LineOf, X, Y, InPass, WellFormed, PixelAt;
    PassCovers(p, u, v, f.x, f.y);
    var g, i, j := FormatOf(f, p), ColOf(p, u), LineOf(p, v);
    UnfilterInvertsFilter(e.rows, e.kinds, g.W(), g.Bpp(), rest, j);
    assert ExtractsPixel(f, lines, p, e, little, i, j);
  }

  lemma PixelOfLine(out: seq<byte>, f: Format, u: nat, v: nat, channels: seq<byte>)
    requires f.Valid() && |out| == Ix(f.y, f.Stride()) && Inside(f, u, v) && Ix(v, f.Stride()) + f.Stride() <= |out|
    requires PixelIs(PixelAt(out, f, u, v), channels, u, f.Fb())
    ensures PixelHolds(out[Ix(v, f.Stride())..Ix(v, f.Stride()) + f.Stride()], u, channels, f.Fb(), f.Ob(), f.Ob() - f.Fb())
  {
    hide Ix, PixelIs;
    WidthFits(f);
    StartInside(f, u, v);
    IxMonotone(u, f.x, f.Ob());
    var base := Ix(v, f.Stride());
    SliceOfSlice(out, base, f.Stride(), Ix(u, f.Ob()), f.Ob());
    PixelHeld(out[base..base + f.Stride()], u, PixelAt(out, f, u, v), channels, f.Fb());
  }

  lemma PixelHeld(line: seq<byte>, u: nat, px: seq<byte>, channels: seq<byte>, fb: nat)
    requires PixelIs(px, channels, u, fb) && Ix(u, |px|) + |px| <= |line| && line[Ix(u, |px|)..Ix(u, |px|) + |px|] == px
    ensures PixelHolds(line, u, channels, fb, |px|, |px| - fb)
  {
    hide Ix;
    var at := Ix(u, |px|);
    SliceOfSlice(line, at, |px|, 0, fb);
    forall t | at + fb <= t < at + |px|
      ensures line[t] == 255
    {
      assert line[t] == px[t - at];
    }
  }

  // ---------------------------------------------------------------------------

  /** If the data begin with filtered rows, decoding has succeeded and shows them. */
  ghost predicate RowsBack(data: seq<byte>, f: Format, little: bool, ok: bool, out: seq<byte>)
    requires f.Valid()
  {
    forall e: Filtered, extra: seq<byte> :: IsStored(data, f, e, extra) ==>
      (ok && Shows(out, f, ChannelLines(f, e.rows, e.kinds, little)))
  }

  /** If the data begin with the seven filtered passes of an image, decoding has succeeded and shows it. */
  ghost predicate PassesBack(data: seq<byte>, f: Format, little: bool, ok: bool, out: seq<byte>)
    requires f.Valid()
  {
    forall lines: seq<seq<byte>>, es: Passes, extra: seq<byte> ::
      Interlaces(f, lines, es, little) && data == JoinedAll(f, lines, es, little) + extra ==> (ok && Shows(out, f, lines))
  }

  /** stbi__create_png_image. Whatever filters the encoder chose, and whether or not it interlaced, every
      pixel of the image comes back in its place; interlaced, it is enough that the passes fit. */
  method CreateImage(data: seq<byte>, f: Format, interlaced: bool, little: bool) returns (ok: bool, out: array<byte>)
    requires f.Valid()
    ensures fresh(out)
    ensures !interlaced ==> (ok <==> Decodable(data, f)) && (ok ==> ImageHolds(out[..], f, data, little))
    ensures SizesOk(f) ==> if interlaced then PassesBack(data, f, little, ok, out[..]) else RowsBack(data, f, little, ok, out[..])
    ensures interlaced && Ix(f.y, f.Stride()) <= INT_MAX && PassesFit(f) ==> PassesBack(data, f, little, ok, out[..])
    ensures ok ==> if interlaced then DecodedPasses(data, f, little, out[..]) else Decoded(data, f, little, out[..])
  {
    hide Shows, ImageHolds, Decodable, PassesDone, PassesDecodable, Interlaces, Joined, ChannelLines, Ix, PassesFit, Decoded,
      DecodedPasses;
    if !interlaced {
      ok, out := CreateImageRaw(data, f, little);
      if ok {
        DecodableLength(data, f);
        ImageDecoded(data, f, little, out[..]);
      }
      forall e: Filtered, extra: seq<byte> | SizesOk(f) && IsStored(data, f, e, extra)
        ensures ok && Shows(out[..], f, ChannelLines(f, e.rows, e.kinds, little))
      {
        FilteredDecodable(f, e, extra);
        DecodableLength(data, f);
        FilteredComesBack(f, e, extra, little, out[..]);
      }
    } else {
      ok, out := CreateInterlaced(data, f, little);
      if ok { InterlacedDecoded(data, f, little, out[..]); }
      if SizesOk(f) { FitsPasses(f); }
      forall lines: seq<seq<byte>>, es: Passes, extra: seq<byte> |
        Ix(f.y, f.Stride()) <= INT_MAX && PassesFit(f) && Interlaces(f, lines, es, little) && data == JoinedAll(f, lines, es, little) + extra
        ensures ok && Shows(out[..], f, lines)
      {
        InterlacedDecodable(f, lines, es, extra, little);
        InterlacedComesBack(f, lines, es, extra, little, out[..]);
      }
    }
  }

  ghost function JoinedAll(f: Format, lines: seq<seq<byte>>, es: Passes, little: bool): seq<byte>
    requires f.Valid() && Interlaces(f, lines, es, little)
  {
    Unpassed(f, lines, es, little);
    Joined(f, es, 0)
  }
}
