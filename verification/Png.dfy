/** stbi__create_png_image_raw: from filtered lines to pixels. */
module Png {
  import opened Bits
  import opened Filters
  import opened PngRows
  import opened PngExpand

  const INT_MAX: nat := 0x7FFF_FFFF

  /** The shape of an image: channels stored and wanted, width, height, bit depth, and whether it is grey. */
  datatype Format = Format(imgN: nat, outN: nat, x: nat, y: nat, depth: nat, grey: bool)
  {
    /** What the callers pass: the depths of the format, at most one inserted channel, no empty image. */
    predicate Valid() {
      && 1 <= imgN <= 4 && (outN == imgN || outN == imgN + 1) && 1 <= x && 1 <= y
      && (Packed(depth) || depth == 8 || depth == 16)
      && (Packed(depth) && outN != imgN ==> imgN == 1 || imgN == 3)
    }

    /** Bytes of a sample after decoding, of a pixel as stored in a filtered line, and of a pixel of output. */
    function Bytes(): nat { if depth == 16 then 2 else 1 }
    function Fb(): nat { imgN * Bytes() }
    function Ob(): nat { outN * Bytes() }

    function Stride(): nat { Ix(x, Ob()) }

    /** Bytes of a filtered line, without its filter type. */
    function W(): nat
      requires Valid()
    {
      if Packed(depth) then Width(Ix(x, imgN), depth) else Ix(x, Fb())
    }

    /** The distance, in bytes, to the left neighbour in a filtered line. */
    function Bpp(): (b: nat)
      requires Valid()
      ensures b > 0
    {
      if Packed(depth) then 1 else Fb()
    }

    /** The size checks made before anything is written. */
    predicate Fits() {
      Ix(y, Stride()) <= INT_MAX && imgN * x * depth + 7 <= INT_MAX
    }
  }

  /** The source computes the line width in bits, for every depth alike. */
  lemma WidthIsRoundedUp(f: Format)
    requires f.Valid()
    ensures f.W() == (f.imgN * f.x * f.depth + 7) / 8
  {
    Commute(f.x, f.imgN);
    if f.depth == 16 {
      Assoc(f.x, f.imgN, 2);
    }
  }

  /** The channels of a row, as they end up in memory: unpacked, or in native byte order. */
  function Channels(f: Format, row: seq<byte>, little: bool): (c: seq<byte>)
    requires f.Valid() && |row| == f.W()
    ensures |c| == Ix(f.x, f.Fb())
  {
    if Packed(f.depth) then Unpack(row, Ix(f.x, f.imgN), f.depth, f.grey)
    else if f.depth == 16 && little then SwapPairs(row)
    else row
  }

  function SwapPairs(row: seq<byte>): (s: seq<byte>)
    ensures |s| == |row|
  {
    seq<byte>(|row|, k requires 0 <= k < |row| =>
      if k % 2 == 1 then row[k - 1] else if k + 1 < |row| then row[k + 1] else row[k])
  }

  /** The finished image: every line holds the channels of its row, and 255 in an inserted channel. */
  ghost predicate ImageHolds(out: seq<byte>, f: Format, raw: seq<byte>, little: bool)
    requires f.Valid() && WellFormed(raw, f.W(), f.y)
  {
    |out| == Ix(f.y, f.Stride()) && LinesDone(out, f, raw, little, 0, f.y)
  }

  ghost predicate LinesDone(out: seq<byte>, f: Format, raw: seq<byte>, little: bool, lo: nat, hi: nat)
    requires f.Valid() && WellFormed(raw, f.W(), f.y) && hi <= f.y
  {
    forall j: nat :: lo <= j < hi ==> LineDone(out, f, raw, little, j)
  }

  ghost predicate LineDone(out: seq<byte>, f: Format, raw: seq<byte>, little: bool, j: nat)
    requires f.Valid() && WellFormed(raw, f.W(), f.y) && j < f.y
  {
    WellFormedTo(raw, f.W(), f.y, j + 1);
    && Ix(j, f.Stride()) + f.Stride() <= |out|
    && LineHolds(out[Ix(j, f.Stride())..Ix(j, f.Stride()) + f.Stride()], Channels(f, Row(raw, f.W(), f.Bpp(), j), little),
                 f.x, f.Fb(), f.Ob(), f.Ob() - f.Fb())
  }

  lemma WellFormedTo(raw: seq<byte>, w: nat, y: nat, n: nat)
    requires WellFormed(raw, w, y) && n <= y
    ensures WellFormed(raw, w, n)
  {
    LineMonotone(w, n, y);
  }

  // ---------------------------------------------------------------------------
  // The first pass: unfiltering

  /** A line after the first pass: the row itself at the right end of the line when it is packed, and
      otherwise the row with its inserted channel. */
  ghost predicate RawLine(s: seq<byte>, f: Format, row: seq<byte>, j: nat)
    requires f.Valid() && |row| == f.W()
  {
    var base, l := Ix(j, f.Stride()), f.Stride();
    && base + l <= |s|
    && if Packed(f.depth) then f.W() <= l && s[base + l - f.W()..base + l] == row
       else LineHolds(s[base..base + l], row, f.x, f.Fb(), f.Ob(), f.Ob() - f.Fb())
  }

  ghost predicate RawLines(s: seq<byte>, f: Format, raw: seq<byte>, n: nat)
    requires f.Valid() && WellFormed(raw, f.W(), n)
  {
    forall j: nat :: j < n ==> RawLineAt(s, f, raw, n, j)
  }

  ghost predicate RawLineAt(s: seq<byte>, f: Format, raw: seq<byte>, n: nat, j: nat)
    requires f.Valid() && WellFormed(raw, f.W(), n) && j < n
  {
    WellFormedTo(raw, f.W(), n, j + 1);
    RawLine(s, f, Row(raw, f.W(), f.Bpp(), j), j)
  }

  lemma RawLineKept(s: seq<byte>, s': seq<byte>, f: Format, row: seq<byte>, j: nat, lo: nat, hi: nat)
    requires f.Valid() && |row| == f.W() && RawLine(s, f, row, j) && SameOutside(s', s, lo, hi)
    requires Ix(j, f.Stride()) + f.Stride() <= lo || hi <= Ix(j, f.Stride())
    ensures RawLine(s', f, row, j)
  {
    hide LineHolds;
    var base, l := Ix(j, f.Stride()), f.Stride();
    SliceUntouched(s', s, lo, hi, base, base + l);
    if Packed(f.depth) { SliceUntouched(s', s, lo, hi, base + l - f.W(), base + l); }
  }

  lemma RawLinesKept(s: seq<byte>, s': seq<byte>, f: Format, raw: seq<byte>, n: nat)
    requires f.Valid() && WellFormed(raw, f.W(), n) && WellFormed(raw, f.W(), n + 1) && RawLines(s, f, raw, n)
    requires SameOutside(s', s, Ix(n, f.Stride()), Ix(n, f.Stride()) + f.Stride())
    requires RawLine(s', f, Row(raw, f.W(), f.Bpp(), n), n)
    ensures RawLines(s', f, raw, n + 1)
  {
    hide Row, RawLine, Ix, SameOutside;
    var m := n + 1;
    forall j: nat | j < m
      ensures RawLineAt(s', f, raw, m, j)
    {
      if j < n {
        assert RawLineAt(s, f, raw, n, j);
        WellFormedTo(raw, f.W(), n, j + 1);
        IxMonotone(j, n, f.Stride());
        RawLineKept(s, s', f, Row(raw, f.W(), f.Bpp(), j), j, Ix(n, f.Stride()), Ix(n, f.Stride()) + f.Stride());
      }
    }
  }

  lemma WidthFits(f: Format)
    requires f.Valid()
    ensures f.Fb() <= f.Ob() && Ix(f.x, f.Fb()) <= f.Stride()
    ensures !Packed(f.depth) ==> f.W() <= f.Stride()
    ensures f.W() > 0 && f.Bpp() <= f.W() && f.x <= f.Stride()
    ensures f.Ob() <= f.Fb() + 2
  {
    Distribute(f.outN - f.imgN, f.imgN, f.x);
    Commute(f.x, f.imgN);
    Commute(f.x, f.outN);
    MulPositive(f.outN - f.imgN, f.x);
    MulAtLeast(f.imgN, f.x);
    MulAtLeast(f.outN, f.x);
    MulAtLeast(f.x, f.Fb());
    if f.depth == 16 {
      Assoc(f.x, f.imgN, 2);
      Assoc(f.x, f.outN, 2);
    }
  }

  /** A line without an inserted channel is its row. */
  lemma RowIsLine(row: seq<byte>, x: nat, fb: nat)
    requires |row| == Ix(x, fb)
    ensures LineHolds(row, row, x, fb, fb, 0)
  {
    hide Ix;
    forall i: nat | i < x
      ensures PixelHolds(row, i, row, fb, fb, 0)
    {
      IxMonotone(i, x, fb);
    }
  }

  /** Unfilter row j into its line. */
  method UnfilterLine(out: array<byte>, f: Format, raw: seq<byte>, j: nat)
    requires f.Valid() && j < f.y && out.Length == Ix(f.y, f.Stride()) && (Packed(f.depth) ==> f.W() <= f.x)
    requires WellFormed(raw, f.W(), j) && WellFormed(raw, f.W(), j + 1) && RawLines(out[..], f, raw, j)
    modifies out
    ensures RawLines(out[..], f, raw, j + 1)
  {
    hide Ix, Row, RawLine, RawLines, SameOutside, Unfilter, LineHolds, RowState, WellFormed, Width;
    WidthFits(f);
    IxMonotone(j, f.y, f.Stride());
    LineStep(f.W(), j);
    var base, stride, at, w := Ix(j, f.Stride()), f.Stride(), LineAt(f.W(), j), f.W();
    RowStored(raw, w, f.Bpp(), j);
    var kind, line := raw[at], raw[at + 1..at + 1 + w];
    ghost var prior := if j == 0 then ZeroRow(w) else Row(raw, w, f.Bpp(), j - 1);
    ghost var s := out[..];
    if Packed(f.depth) || f.imgN == f.outN {
      var cur := if Packed(f.depth) then base + stride - w else base;
      PriorFlat(s, f, raw, j, cur);
      FlatRow(out, cur, stride, j == 0, kind, line, f.Bpp(), prior);
      SameWider(out[..], s, cur, cur + w, base, base + stride);
      FlatLine(out[..], f, Row(raw, w, f.Bpp(), j), j);
    } else {
      PriorAlpha(s, f, raw, j);
      AlphaRow(out, base, stride, j == 0, kind, line, f.x, f.Fb(), f.Ob(), prior);
      AlphaLine(out[..], f, Row(raw, w, f.Bpp(), j), j);
    }
    RawLinesKept(s, out[..], f, raw, j);
  }

  lemma RowStored(raw: seq<byte>, w: nat, bpp: nat, j: nat)
    requires bpp > 0 && WellFormed(raw, w, j + 1)
    ensures var at := LineAt(w, j);
      && at + 1 + w <= |raw| && raw[at] <= 4 && (j > 0 ==> WellFormed(raw, w, j))
      && Row(raw, w, bpp, j) == Unfilter(raw[at], raw[at + 1..at + 1 + w], if j == 0 then ZeroRow(w) else Row(raw, w, bpp, j - 1), bpp, w)
  {
    hide Unfilter, LineAt;
    LineStep(w, j);
    WellFormedTo(raw, w, j + 1, j);
    assert KindOk(raw, w, j);
  }

  lemma SameWider(a: seq<byte>, b: seq<byte>, lo: nat, hi: nat, lo': nat, hi': nat)
    requires SameOutside(a, b, lo, hi) && lo' <= lo && hi <= hi'
    ensures SameOutside(a, b, lo', hi')
  {
  }

  lemma PriorFlat(s: seq<byte>, f: Format, raw: seq<byte>, j: nat, cur: nat)
    requires f.Valid() && WellFormed(raw, f.W(), j) && WellFormed(raw, f.W(), j + 1) && RawLines(s, f, raw, j)
    requires Packed(f.depth) || f.imgN == f.outN
    requires f.W() <= f.Stride() && Ix(j, f.Stride()) + f.Stride() <= |s|
    requires cur == if Packed(f.depth) then Ix(j, f.Stride()) + f.Stride() - f.W() else Ix(j, f.Stride())
    ensures AboveIs(s, cur, f.Stride(), j == 0, if j == 0 then ZeroRow(f.W()) else Row(raw, f.W(), f.Bpp(), j - 1))
  {
    hide Ix, Row, ZeroRow, Width;
    if j > 0 {
      assert RawLineAt(s, f, raw, j, j - 1);
      IxStep(j - 1, f.Stride());
      var row, base := Row(raw, f.W(), f.Bpp(), j - 1), Ix(j - 1, f.Stride());
      if !Packed(f.depth) {
        LineIsRow(s[base..base + f.Stride()], row, f.x, f.Fb());
      }
    }
  }

  lemma LineIsRow(line: seq<byte>, row: seq<byte>, x: nat, fb: nat)
    requires fb > 0 && LineHolds(line, row, x, fb, fb, 0)
    ensures line == row
  {
    forall t: nat | t < Ix(x, fb)
      ensures line[t] == row[t]
    {
      var i := t / fb;
      InPixel(t, x, fb);
      assert PixelHolds(line, i, row, fb, fb, 0);
      assert line[t] == line[Ix(i, fb)..Ix(i, fb) + fb][t - Ix(i, fb)];
    }
  }

  lemma InPixel(t: nat, x: nat, fb: nat)
    requires fb > 0 && t < Ix(x, fb)
    ensures t / fb < x && Ix(t / fb, fb) <= t < Ix(t / fb, fb) + fb
  {
    var i := t / fb;
    Commute(fb, i);
    if i >= x { IxMonotone(x, i, fb); }
  }

  lemma FlatLine(s: seq<byte>, f: Format, row: seq<byte>, j: nat)
    requires f.Valid() && |row| == f.W() <= f.Stride() && Ix(j, f.Stride()) + f.Stride() <= |s|
    requires Packed(f.depth) || f.imgN == f.outN
    requires var cur := if Packed(f.depth) then Ix(j, f.Stride()) + f.Stride() - f.W() else Ix(j, f.Stride());
      s[cur..cur + f.W()] == row
    ensures RawLine(s, f, row, j)
  {
    hide Ix, LineHolds, Width;
    if !Packed(f.depth) { RowIsLine(row, f.x, f.Fb()); }
  }

  lemma PriorAlpha(s: seq<byte>, f: Format, raw: seq<byte>, j: nat)
    requires f.Valid() && WellFormed(raw, f.W(), j) && WellFormed(raw, f.W(), j + 1) && RawLines(s, f, raw, j)
    requires !Packed(f.depth) && f.imgN != f.outN && Ix(j, f.Stride()) + f.Stride() <= |s|
    ensures RowState(s, Ix(j, f.Stride()), f.Stride(), j == 0,
                     if j == 0 then ZeroRow(f.W()) else Row(raw, f.W(), f.Bpp(), j - 1), Row(raw, f.W(), f.Bpp(), j),
                     f.x, f.Fb(), f.Ob(), 0)
  {
    hide Ix, Row, ZeroRow, LineHolds;
    if j > 0 {
      assert RawLineAt(s, f, raw, j, j - 1);
      IxStep(j - 1, f.Stride());
    }
  }

  lemma AlphaLine(s: seq<byte>, f: Format, row: seq<byte>, j: nat)
    requires f.Valid() && |row| == f.W() && !Packed(f.depth) && Ix(j, f.Stride()) + f.Stride() <= |s|
    requires LineHolds(s[Ix(j, f.Stride())..Ix(j, f.Stride()) + f.Stride()], row, f.x, f.Fb(), f.Ob(), f.Ob() - f.Fb())
    ensures RawLine(s, f, row, j)
  {
  }

  // ---------------------------------------------------------------------------
  // The second pass

  /** Expand the packed row of line j and insert its alpha channel. */
  method ExpandLine(out: array<byte>, f: Format, raw: seq<byte>, little: bool, j: nat)
    requires f.Valid() && Packed(f.depth) && f.W() <= f.x && j < f.y && out.Length == Ix(f.y, f.Stride())
    requires WellFormed(raw, f.W(), f.y) && RawLineAt(out[..], f, raw, f.y, j)
    modifies out
    ensures LineDone(out[..], f, raw, little, j)
    ensures SameOutside(out[..], old(out[..]), Ix(j, f.Stride()), Ix(j, f.Stride()) + f.Stride())
  {
    hide Ix, Row, SameOutside, Unpack, LineHolds, WellFormed, Width;
    WidthFits(f);
    IxMonotone(j, f.y, f.Stride());
    WellFormedTo(raw, f.W(), f.y, j + 1);
    ghost var row := Row(raw, f.W(), f.Bpp(), j);
    var base, l, n := Ix(j, f.Stride()), f.Stride(), Ix(f.x, f.imgN);
    ghost var s := out[..];
    ExpandRow(out, base, l, n, f.depth, f.grey, row);
    ghost var samples := Unpack(row, n, f.depth, f.grey);
    if f.imgN != f.outN {
      ghost var s' := out[..];
      InsertAlpha(out, base, f.x, f.imgN, samples);
      SameTwice(s, s', out[..], base, base + l, base, base + l);
    } else {
      RowIsLine(samples, f.x, f.imgN);
    }
  }

  lemma LineDoneKept(s: seq<byte>, s': seq<byte>, f: Format, raw: seq<byte>, little: bool, j: nat, k: nat)
    requires f.Valid() && WellFormed(raw, f.W(), f.y) && j < f.y && k < f.y && j != k
    requires SameOutside(s', s, Ix(k, f.Stride()), Ix(k, f.Stride()) + f.Stride())
    ensures LineDone(s, f, raw, little, j) ==> LineDone(s', f, raw, little, j)
    ensures RawLineAt(s, f, raw, f.y, j) ==> RawLineAt(s', f, raw, f.y, j)
  {
    hide Ix, Row, LineHolds, Channels, SameOutside, WellFormed, RawLine;
    if j < k { IxMonotone(j, k, f.Stride()); } else { IxMonotone(k, j, f.Stride()); }
    var lo, hi, base := Ix(k, f.Stride()), Ix(k, f.Stride()) + f.Stride(), Ix(j, f.Stride());
    WellFormedTo(raw, f.W(), f.y, j + 1);
    if LineDone(s, f, raw, little, j) {
      SameLength(s, s', lo, hi);
      SliceUntouched(s', s, lo, hi, base, base + f.Stride());
    }
    if RawLineAt(s, f, raw, f.y, j) {
      RawLineKept(s, s', f, Row(raw, f.W(), f.Bpp(), j), j, lo, hi);
    }
  }

  lemma SameLength(s: seq<byte>, s': seq<byte>, lo: nat, hi: nat)
    requires SameOutside(s', s, lo, hi)
    ensures |s| == |s'|
  {
  }

  /** Between the passes: lines before j are finished, lines from j on are as the first pass left them. */
  ghost predicate HalfDone(s: seq<byte>, f: Format, raw: seq<byte>, little: bool, j: nat)
    requires f.Valid() && WellFormed(raw, f.W(), f.y) && j <= f.y
  {
    LinesDone(s, f, raw, little, 0, j) && forall k: nat :: j <= k < f.y ==> RawLineAt(s, f, raw, f.y, k)
  }

  lemma HalfDoneNext(s: seq<byte>, s': seq<byte>, f: Format, raw: seq<byte>, little: bool, j: nat)
    requires f.Valid() && WellFormed(raw, f.W(), f.y) && j < f.y && HalfDone(s, f, raw, little, j)
    requires SameOutside(s', s, Ix(j, f.Stride()), Ix(j, f.Stride()) + f.Stride()) && LineDone(s', f, raw, little, j)
    ensures HalfDone(s', f, raw, little, j + 1)
  {
    hide SameOutside, LineDone, RawLineAt, WellFormed, Ix;
    forall k: nat | k < j
      ensures LineDone(s', f, raw, little, k)
    {
      LineDoneKept(s, s', f, raw, little, k, j);
    }
    forall k: nat | j < k < f.y
      ensures RawLineAt(s', f, raw, f.y, k)
    {
      LineDoneKept(s, s', f, raw, little, k, j);
    }
  }

  /** 16-bit samples from big-endian to native order, over the whole output. */
  method ToNative(out: array<byte>, little: bool)
    requires out.Length % 2 == 0
    modifies out
    ensures out[..] == if little then SwapPairs(old(out[..])) else old(out[..])
  {
    hide SwapPairs;
    ghost var s := out[..];
    ghost var goal := if little then SwapPairs(s) else s;
    var i := 0;
    while i < out.Length / 2
      invariant i <= out.Length / 2
      invariant forall k :: 0 <= k < 2 * i ==> out[k] == goal[k]
      invariant forall k :: 2 * i <= k < out.Length ==> out[k] == s[k]
    {
      SwapAt(s, i);
      var sample: int := 256 * out[2 * i] as int + out[2 * i + 1] as int;
      if little {
        out[2 * i], out[2 * i + 1] := sample % 256, sample / 256;
      } else {
        out[2 * i], out[2 * i + 1] := sample / 256, sample % 256;
      }
      i := i + 1;
    }
    assert out[..] == goal;
  }

  lemma SwapAt(s: seq<byte>, i: nat)
    requires 2 * i + 1 < |s|
    ensures SwapPairs(s)[2 * i] == s[2 * i + 1] && SwapPairs(s)[2 * i + 1] == s[2 * i]
  {
  }

  lemma SwapSlice(s: seq<byte>, lo: nat, hi: nat)
    requires lo <= hi <= |s| && lo % 2 == 0 && hi % 2 == 0 && |s| % 2 == 0
    ensures SwapPairs(s)[lo..hi] == SwapPairs(s[lo..hi])
  {
    var a, b := SwapPairs(s)[lo..hi], SwapPairs(s[lo..hi]);
    forall k | 0 <= k < hi - lo
      ensures a[k] == b[k]
    {
      assert (lo + k) % 2 == k % 2;
    }
  }

  lemma EvenIx(i: nat, n: nat)
    requires n % 2 == 0
    ensures Ix(i, n) % 2 == 0
  {
    Assoc(i, 2, n / 2);
    Commute(i, 2);
    Assoc(2, i, n / 2);
  }

  lemma SwapLine(line: seq<byte>, row: seq<byte>, x: nat, fb: nat, ob: nat)
    requires fb <= ob && fb % 2 == 0 && ob % 2 == 0 && LineHolds(line, row, x, fb, ob, ob - fb)
    ensures LineHolds(SwapPairs(line), SwapPairs(row), x, fb, ob, ob - fb)
  {
    hide Ix, SwapPairs;
    var alpha := ob - fb;
    EvenIx(x, fb);
    EvenIx(x, ob);
    forall i: nat | i < x
      ensures PixelHolds(SwapPairs(line), i, SwapPairs(row), fb, ob, alpha)
    {
      assert PixelHolds(line, i, row, fb, ob, alpha);
      EvenIx(i, fb);
      EvenIx(i, ob);
      SwapPixel(line, row, Ix(i, ob), Ix(i, fb), fb, alpha);
    }
  }

  lemma SwapPixel(line: seq<byte>, row: seq<byte>, to: nat, from: nat, fb: nat, alpha: nat)
    requires to % 2 == 0 && from % 2 == 0 && fb % 2 == 0 && alpha % 2 == 0 && |line| % 2 == 0 && |row| % 2 == 0
    requires to + fb + alpha <= |line| && from + fb <= |row| && line[to..to + fb] == row[from..from + fb]
    requires forall t :: to + fb <= t < to + fb + alpha ==> line[t] == 255
    ensures SwapPairs(line)[to..to + fb] == SwapPairs(row)[from..from + fb]
    ensures forall t :: to + fb <= t < to + fb + alpha ==> SwapPairs(line)[t] == 255
  {
    SwapSlice(line, to, to + fb);
    SwapSlice(row, from, from + fb);
  }

  /** After the first pass over 16-bit rows, the change of byte order finishes every line. */
  lemma NativeDone(s: seq<byte>, f: Format, raw: seq<byte>, little: bool)
    requires f.Valid() && f.depth == 16 && WellFormed(raw, f.W(), f.y) && |s| == Ix(f.y, f.Stride()) && RawLines(s, f, raw, f.y)
    ensures |s| % 2 == 0
    ensures ImageHolds(if little then SwapPairs(s) else s, f, raw, little)
  {
    hide Ix, Row, LineHolds, SwapPairs, WellFormed;
    EvenIx(f.x, f.Ob());
    EvenIx(f.y, f.Stride());
    var s' := if little then SwapPairs(s) else s;
    forall j: nat | j < f.y
      ensures LineDone(s', f, raw, little, j)
    {
      assert RawLineAt(s, f, raw, f.y, j);
      WellFormedTo(raw, f.W(), f.y, j + 1);
      EvenIx(j, f.Stride());
      var lo := Ix(j, f.Stride());
      if little {
        SwapSlice(s, lo, lo + f.Stride());
        SwapLine(s[lo..lo + f.Stride()], Row(raw, f.W(), f.Bpp(), j), f.x, f.Fb(), f.Ob());
      }
    }
  }

  /** Rows of 8-bit samples are finished by the first pass. */
  lemma BytesDone(s: seq<byte>, f: Format, raw: seq<byte>, little: bool)
    requires f.Valid() && f.depth == 8 && WellFormed(raw, f.W(), f.y) && |s| == Ix(f.y, f.Stride()) && RawLines(s, f, raw, f.y)
    ensures ImageHolds(s, f, raw, little)
  {
    hide Ix, Row, LineHolds, WellFormed;
    forall j: nat | j < f.y
      ensures LineDone(s, f, raw, little, j)
    {
      assert RawLineAt(s, f, raw, f.y, j);
      WellFormedTo(raw, f.W(), f.y, j + 1);
    }
  }

  lemma PackedStart(s: seq<byte>, f: Format, raw: seq<byte>, little: bool)
    requires f.Valid() && WellFormed(raw, f.W(), f.y) && RawLines(s, f, raw, f.y)
    ensures HalfDone(s, f, raw, little, 0)
  {
  }

  // ---------------------------------------------------------------------------

  /** stbi__create_png_image_raw. It succeeds exactly on input of sufficient length whose filter types
      exist (and, for packed samples, whose lines are no wider than they have pixels), and then every
      line of the output is the unfiltered row. `little` says which byte order is native. */
  method CreateImageRaw(raw: seq<byte>, f: Format, little: bool) returns (ok: bool, out: array<byte>)
    requires f.Valid()
    ensures ok <==> Decodable(raw, f)
    ensures fresh(out)
    ensures ok ==> ImageHolds(out[..], f, raw, little)
  {
    hide Ix, Row, RawLines, LinesDone, HalfDone, Channels, SameOutside, Width;
    out := new byte[0];
    if Ix(f.y, f.Stride()) > INT_MAX || f.imgN * f.x * f.depth + 7 > INT_MAX {
      return false, out;
    }
    out := new byte[Ix(f.y, f.Stride())];
    if |raw| < LineAt(f.W(), f.y) {
      return false, out;
    }
    RawStart(out[..], f, raw);
    var j := 0;
    while j < f.y
      invariant j <= f.y && WellFormed(raw, f.W(), j) && RawLines(out[..], f, raw, j)
      invariant j > 0 && Packed(f.depth) ==> f.W() <= f.x
    {
      LineStep(f.W(), j);
      LineMonotone(f.W(), j + 1, f.y);
      if raw[LineAt(f.W(), j)] > 4 {
        assert !KindOk(raw, f.W(), j);
        return false, out;
      }
      if Packed(f.depth) && f.W() > f.x {
        return false, out;
      }
      assert KindOk(raw, f.W(), j);
      UnfilterLine(out, f, raw, j);
      j := j + 1;
    }
    if Packed(f.depth) {
      ExpandLines(out, f, raw, little);
    } else if f.depth == 16 {
      NativeDone(out[..], f, raw, little);
      ToNative(out, little);
    } else {
      BytesDone(out[..], f, raw, little);
    }
    ok := true;
  }

  ghost predicate Decodable(raw: seq<byte>, f: Format)
    requires f.Valid()
  {
    f.Fits() && WellFormed(raw, f.W(), f.y) && (Packed(f.depth) ==> f.W() <= f.x)
  }

  lemma RawStart(s: seq<byte>, f: Format, raw: seq<byte>)
    requires f.Valid() && LineAt(f.W(), f.y) <= |raw|
    ensures WellFormed(raw, f.W(), 0) && RawLines(s, f, raw, 0)
  {
    LineMonotone(f.W(), 0, f.y);
  }

  method ExpandLines(out: array<byte>, f: Format, raw: seq<byte>, little: bool)
    requires f.Valid() && Packed(f.depth) && f.W() <= f.x && out.Length == Ix(f.y, f.Stride())
    requires WellFormed(raw, f.W(), f.y) && RawLines(out[..], f, raw, f.y)
    modifies out
    ensures ImageHolds(out[..], f, raw, little)
  {
    hide Ix, Row, RawLines, LineDone, RawLineAt, SameOutside, Width, WellFormed;
    PackedStart(out[..], f, raw, little);
    var j := 0;
    while j < f.y
      invariant j <= f.y && HalfDone(out[..], f, raw, little, j)
    {
      ghost var s := out[..];
      ExpandLine(out, f, raw, little, j);
      HalfDoneNext(s, out[..], f, raw, little, j);
      j := j + 1;
    }
  }
}
