/** stbi__create_png_image: seven passes put back together (RFC 2083 section 2.6). */
module Adam7 {
  import opened Bits
  import opened Filters
  import opened PngRows
  import opened Png

  type Pass = p: nat | p < 7

  const XORIG: seq<nat> := [0, 4, 0, 2, 0, 1, 0]
  const YORIG: seq<nat> := [0, 0, 4, 0, 2, 0, 1]
  const XSPC: seq<nat> := [8, 8, 4, 4, 2, 2, 1]
  const YSPC: seq<nat> := [8, 8, 8, 4, 4, 2, 2]

  /** How many columns and lines of the image a pass takes, where its pixel (i, j) lies, and back. */
  function Columns(p: Pass, x: nat): nat {
    if p == 0 then (x + 7) / 8 else if p == 1 then (x + 3) / 8 else if p == 2 then (x + 3) / 4
    else if p == 3 then (x + 1) / 4 else if p == 4 then (x + 1) / 2 else if p == 5 then x / 2 else x
  }

  function Lines(p: Pass, y: nat): nat {
    if p <= 1 then (y + 7) / 8 else if p == 2 then (y + 3) / 8 else if p == 3 then (y + 3) / 4
    else if p == 4 then (y + 1) / 4 else if p == 5 then (y + 1) / 2 else y / 2
  }

  function X(p: Pass, i: nat): nat {
    if p == 0 then 8 * i else if p == 1 then 8 * i + 4 else if p == 2 then 4 * i
    else if p == 3 then 4 * i + 2 else if p == 4 then 2 * i else if p == 5 then 2 * i + 1 else i
  }

  function Y(p: Pass, j: nat): nat {
    if p <= 1 then 8 * j else if p == 2 then 8 * j + 4 else if p == 3 then 4 * j
    else if p == 4 then 4 * j + 2 else if p == 5 then 2 * j else 2 * j + 1
  }

  function ColOf(p: Pass, u: nat): nat {
    if p <= 1 then u / 8 else if p <= 3 then u / 4 else if p <= 5 then u / 2 else u
  }

  function LineOf(p: Pass, v: nat): nat {
    if p <= 2 then v / 8 else if p <= 4 then v / 4 else v / 2
  }

  /** These are the formulas of the source over its four tables. */
  lemma TablesAgree(p: Pass, n: nat)
    ensures n >= 1 ==> Columns(p, n) == (n - XORIG[p] + XSPC[p] - 1) / XSPC[p]
    ensures n >= 1 ==> Lines(p, n) == (n - YORIG[p] + YSPC[p] - 1) / YSPC[p]
    ensures X(p, n) == n * XSPC[p] + XORIG[p] && Y(p, n) == n * YSPC[p] + YORIG[p]
  {
  }

  predicate InPass(p: Pass, u: nat, v: nat) {
    if p == 0 then u % 8 == 0 && v % 8 == 0
    else if p == 1 then u % 8 == 4 && v % 8 == 0
    else if p == 2 then u % 4 == 0 && v % 8 == 4
    else if p == 3 then u % 4 == 2 && v % 4 == 0
    else if p == 4 then u % 2 == 0 && v % 4 == 2
    else if p == 5 then u % 2 == 1 && v % 2 == 0
    else v % 2 == 1
  }

  function PassOf(u: nat, v: nat): (p: Pass)
    ensures InPass(p, u, v)
  {
    if InPass(6, u, v) then 6
    else if InPass(5, u, v) then 5
    else if InPass(4, u, v) then 4
    else if InPass(3, u, v) then 3
    else if InPass(2, u, v) then 2
    else if InPass(1, u, v) then 1
    else
      EveryPixelHasAPass(u, v);
      0
  }

  lemma EveryPixelHasAPass(u: nat, v: nat)
    ensures exists p: Pass :: InPass(p, u, v)
  {
    Halves(u);
    Halves(v);
    if v % 2 == 1 {
      assert InPass(6, u, v);
    } else if u % 2 == 1 {
      assert InPass(5, u, v);
    } else if v % 4 == 2 {
      assert InPass(4, u, v);
    } else if u % 4 == 2 {
      assert InPass(3, u, v);
    } else if v % 8 == 4 {
      assert InPass(2, u, v);
    } else if u % 8 == 4 {
      assert InPass(1, u, v);
    } else {
      assert InPass(0, u, v);
    }
  }

  /** Each pixel belongs to exactly one pass, at exactly one place in it. */
  lemma OnePassPerPixel(p: Pass, q: Pass, u: nat, v: nat)
    requires InPass(p, u, v) && InPass(q, u, v)
    ensures p == q
  {
  }

  /** The pattern of RFC 2083 section 2.6. */
  lemma PassPattern(u: nat, v: nat)
    ensures PassOf(u, v) + 1 ==
      [[1, 6, 4, 6, 2, 6, 4, 6],
       [7, 7, 7, 7, 7, 7, 7, 7],
       [5, 6, 5, 6, 5, 6, 5, 6],
       [7, 7, 7, 7, 7, 7, 7, 7],
       [3, 6, 4, 6, 3, 6, 4, 6],
       [7, 7, 7, 7, 7, 7, 7, 7],
       [5, 6, 5, 6, 5, 6, 5, 6],
       [7, 7, 7, 7, 7, 7, 7, 7]][v % 8][u % 8]
  {
    Halves(u);
    Halves(v);
  }

  lemma PassCovers(p: Pass, u: nat, v: nat, x: nat, y: nat)
    requires InPass(p, u, v) && u < x && v < y
    ensures ColOf(p, u) < Columns(p, x) && LineOf(p, v) < Lines(p, y)
    ensures X(p, ColOf(p, u)) == u && Y(p, LineOf(p, v)) == v
  {
  }

  lemma PassInside(p: Pass, i: nat, j: nat, x: nat, y: nat)
    requires x >= 1 && y >= 1 && i < Columns(p, x) && j < Lines(p, y)
    ensures X(p, i) < x && Y(p, j) < y && InPass(p, X(p, i), Y(p, j))
    ensures ColOf(p, X(p, i)) == i && LineOf(p, Y(p, j)) == j
  {
    ColumnInside(p, i, x);
    LineInside(p, j, y);
    if p <= 1 {} else if p == 2 {} else if p == 3 {} else if p == 4 {} else if p == 5 {} else {}
  }

  lemma ColumnInside(p: Pass, i: nat, x: nat)
    requires i < Columns(p, x)
    ensures X(p, i) < x && ColOf(p, X(p, i)) == i
  {
  }

  lemma LineInside(p: Pass, j: nat, y: nat)
    requires j < Lines(p, y)
    ensures Y(p, j) < y && LineOf(p, Y(p, j)) == j
  {
  }

  // ---------------------------------------------------------------------------
  // Pixels of an image in memory

  /** Where pixel (u, v) of an image starts. */
  function Start(f: Format, u: nat, v: nat): nat {
    Ix(v, f.Stride()) + Ix(u, f.Ob())
  }

  ghost predicate Inside(f: Format, u: nat, v: nat) {
    u < f.x && v < f.y
  }

  lemma StartInside(f: Format, u: nat, v: nat)
    requires Inside(f, u, v)
    ensures Start(f, u, v) + f.Ob() <= Ix(v, f.Stride()) + f.Stride() <= Ix(f.y, f.Stride())
  {
    IxMonotone(u, f.x, f.Ob());
    IxMonotone(v, f.y, f.Stride());
  }

  /** The source addresses pixels by v * x + u. */
  lemma StartIsLinear(f: Format, u: nat, v: nat)
    ensures Start(f, u, v) == Ix(v * f.x + u, f.Ob())
  {
    Distribute(v * f.x, u, f.Ob());
    Assoc(v, f.x, f.Ob());
  }

  lemma StartDisjoint(f: Format, u: nat, v: nat, u': nat, v': nat)
    requires Inside(f, u, v) && Inside(f, u', v') && (u != u' || v != v')
    ensures Start(f, u, v) + f.Ob() <= Start(f, u', v') || Start(f, u', v') + f.Ob() <= Start(f, u, v)
  {
    hide Ix;
    StartInside(f, u, v);
    StartInside(f, u', v');
    if v < v' { IxMonotone(v, v', f.Stride()); }
    else if v' < v { IxMonotone(v', v, f.Stride()); }
    else if u < u' { IxMonotone(u, u', f.Ob()); }
    else { IxMonotone(u', u, f.Ob()); }
  }

  ghost function PixelAt(s: seq<byte>, f: Format, u: nat, v: nat): (px: seq<byte>)
    requires Inside(f, u, v) && |s| == Ix(f.y, f.Stride())
    ensures |px| == f.Ob()
  {
    StartInside(f, u, v);
    s[Start(f, u, v)..Start(f, u, v) + f.Ob()]
  }

  lemma PixelWritten(s: seq<byte>, f: Format, u: nat, v: nat, px: seq<byte>, u': nat, v': nat)
    requires Inside(f, u, v) && Inside(f, u', v') && |s| == Ix(f.y, f.Stride()) && |px| == f.Ob()
    ensures Start(f, u, v) + |px| <= |s|
    ensures PixelAt(Splice(s, Start(f, u, v), px), f, u', v') == if u == u' && v == v' then px else PixelAt(s, f, u', v')
  {
    hide Ix, Start, Splice;
    StartInside(f, u, v);
    StartInside(f, u', v');
    var r := Splice(s, Start(f, u, v), px);
    var at := Start(f, u', v');
    if u != u' || v != v' {
      StartDisjoint(f, u, v, u', v');
      assert r[at..at + f.Ob()] == s[at..at + f.Ob()];
    } else {
      assert r[at..at + f.Ob()] == px;
    }
  }

  // ---------------------------------------------------------------------------
  // Copying one pass into the image

  ghost predicate PassShape(f: Format, g: Format, p: Pass) {
    f.Valid() && g.Valid() && g == f.(x := Columns(p, f.x), y := Lines(p, f.y))
  }

  /** Pixels of pass p before (i, j), in the order of the loops. */
  ghost predicate Before(p: Pass, i: nat, j: nat, u: nat, v: nat) {
    LineOf(p, v) < j || (LineOf(p, v) == j && ColOf(p, u) < i)
  }

  ghost predicate Copied(s: seq<byte>, was: seq<byte>, sub: seq<byte>, f: Format, g: Format, p: Pass, i: nat, j: nat)
    requires PassShape(f, g, p) && |s| == |was| == Ix(f.y, f.Stride()) && |sub| == Ix(g.y, g.Stride())
  {
    forall u: nat, v: nat :: Inside(f, u, v) ==> CopiedAt(s, was, sub, f, g, p, i, j, u, v)
  }

  ghost predicate CopiedAt(s: seq<byte>, was: seq<byte>, sub: seq<byte>, f: Format, g: Format, p: Pass, i: nat, j: nat, u: nat, v: nat)
    requires PassShape(f, g, p) && |s| == |was| == Ix(f.y, f.Stride()) && |sub| == Ix(g.y, g.Stride()) && Inside(f, u, v)
  {
    if InPass(p, u, v) && Before(p, i, j, u, v) then
      PassCovers(p, u, v, f.x, f.y);
      PixelAt(s, f, u, v) == PixelAt(sub, g, ColOf(p, u), LineOf(p, v))
    else
      PixelAt(s, f, u, v) == PixelAt(was, f, u, v)
  }

  lemma CopiedNext(s: seq<byte>, was: seq<byte>, sub: seq<byte>, f: Format, g: Format, p: Pass, i: nat, j: nat)
    requires PassShape(f, g, p) && |s| == |was| == Ix(f.y, f.Stride()) && |sub| == Ix(g.y, g.Stride())
    requires i < g.x && j < g.y && Copied(s, was, sub, f, g, p, i, j)
    ensures Inside(f, X(p, i), Y(p, j)) && Start(f, X(p, i), Y(p, j)) + f.Ob() <= |s|
    ensures Copied(Splice(s, Start(f, X(p, i), Y(p, j)), PixelAt(sub, g, i, j)), was, sub, f, g, p, i + 1, j)
  {
    hide Ix, Start, Splice, PixelAt, Columns, Lines, X, Y, ColOf, LineOf, InPass;
    PassInside(p, i, j, f.x, f.y);
    var u0, v0, px := X(p, i), Y(p, j), PixelAt(sub, g, i, j);
    StartInside(f, u0, v0);
    var s' := Splice(s, Start(f, u0, v0), px);
    var i' := i + 1;
    forall u: nat, v: nat | Inside(f, u, v)
      ensures CopiedAt(s', was, sub, f, g, p, i', j, u, v)
    {
      assert CopiedAt(s, was, sub, f, g, p, i, j, u, v);
      PixelWritten(s, f, u0, v0, px, u, v);
      if InPass(p, u, v) {
        PassCovers(p, u, v, f.x, f.y);
        if ColOf(p, u) == i && LineOf(p, v) == j { assert u == u0 && v == v0; }
      }
    }
  }

  lemma CopiedRow(s: seq<byte>, was: seq<byte>, sub: seq<byte>, f: Format, g: Format, p: Pass, j: nat)
    requires PassShape(f, g, p) && |s| == |was| == Ix(f.y, f.Stride()) && |sub| == Ix(g.y, g.Stride()) && j < g.y
    requires Copied(s, was, sub, f, g, p, g.x, j)
    ensures Copied(s, was, sub, f, g, p, 0, j + 1)
  {
    hide Ix, Start, PixelAt, Columns, Lines, ColOf, LineOf, InPass;
    var j' := j + 1;
    forall u: nat, v: nat | Inside(f, u, v)
      ensures CopiedAt(s, was, sub, f, g, p, 0, j', u, v)
    {
      assert CopiedAt(s, was, sub, f, g, p, g.x, j, u, v);
      if InPass(p, u, v) { PassCovers(p, u, v, f.x, f.y); }
    }
  }

  lemma CopiedNone(s: seq<byte>, sub: seq<byte>, f: Format, g: Format, p: Pass)
    requires PassShape(f, g, p) && |s| == Ix(f.y, f.Stride()) && |sub| == Ix(g.y, g.Stride())
    ensures Copied(s, s, sub, f, g, p, 0, 0)
  {
    hide Ix, PixelAt;
    forall u: nat, v: nat | Inside(f, u, v)
      ensures CopiedAt(s, s, sub, f, g, p, 0, 0, u, v)
    {
    }
  }

  /** The loops over the pixels of a pass. */
  method CopyPass(final: array<byte>, sub: array<byte>, f: Format, g: Format, p: Pass)
    requires PassShape(f, g, p) && final.Length == Ix(f.y, f.Stride()) && sub.Length == Ix(g.y, g.Stride()) && sub != final
    modifies final
    ensures Copied(final[..], old(final[..]), sub[..], f, g, p, 0, g.y)
  {
    hide Ix, Start, PixelAt, Copied, Splice;
    ghost var was, src := final[..], sub[..];
    CopiedNone(was, src, f, g, p);
    var j := 0;
    while j < g.y
      invariant j <= g.y && sub[..] == src && Copied(final[..], was, src, f, g, p, 0, j)
    {
      var i := 0;
      while i < g.x
        invariant i <= g.x && sub[..] == src && Copied(final[..], was, src, f, g, p, i, j)
      {
        CopyPixel(final, sub, f, g, p, i, j, was);
        i := i + 1;
      }
      CopiedRow(final[..], was, src, f, g, p, j);
      j := j + 1;
    }
  }

  /** memcpy of one pixel. */
  method CopyPixel(final: array<byte>, sub: array<byte>, f: Format, g: Format, p: Pass, i: nat, j: nat, ghost was: seq<byte>)
    requires PassShape(f, g, p) && final.Length == |was| == Ix(f.y, f.Stride()) && sub.Length == Ix(g.y, g.Stride()) && sub != final
    requires i < g.x && j < g.y && Copied(final[..], was, sub[..], f, g, p, i, j)
    modifies final
    ensures Copied(final[..], was, sub[..], f, g, p, i + 1, j)
  {
    hide Ix, Copied, X, Y;
    ghost var s, src := final[..], sub[..];
    CopiedNext(s, was, src, f, g, p, i, j);
    StartInside(g, i, j);
    var outX, outY := X(p, i), Y(p, j);
    var to, from := Start(f, outX, outY), Start(g, i, j);
    forall t | 0 <= t < f.Ob() { final[to + t] := sub[from + t]; }
    assert final[..] == Splice(s, to, PixelAt(src, g, i, j)) && sub[..] == src;
  }

  // ---------------------------------------------------------------------------
  // All passes

  predicate Empty(f: Format, p: Pass)
    requires f.Valid()
  {
    Columns(p, f.x) == 0 || Lines(p, f.y) == 0
  }

  function FormatOf(f: Format, p: Pass): (g: Format)
    requires f.Valid() && !Empty(f, p)
    ensures g.Valid()
  {
    f.(x := Columns(p, f.x), y := Lines(p, f.y))
  }

  /** Bytes of filtered data that a pass takes: img_len, or nothing for an empty pass. */
  function PassLength(f: Format, p: Pass): nat
    requires f.Valid()
  {
    if Empty(f, p) then 0 else LineAt(FormatOf(f, p).W(), FormatOf(f, p).y)
  }

  /** Where the data of pass p starts. */
  function Offset(f: Format, p: nat): nat
    requires f.Valid() && p <= 7
  {
    if p == 0 then 0 else Offset(f, p - 1) + PassLength(f, p - 1)
  }

  ghost predicate PassesDecodable(data: seq<byte>, f: Format, n: nat)
    requires f.Valid() && n <= 7
  {
    forall p: Pass :: p < n ==> PassDecodable(data, f, p)
  }

  ghost predicate PassDecodable(data: seq<byte>, f: Format, p: Pass)
    requires f.Valid()
  {
    Offset(f, p) + PassLength(f, p) <= |data| && (!Empty(f, p) ==> Decodable(data[Offset(f, p)..], FormatOf(f, p)))
  }

  /** Pixel (u, v) of the image is pixel (i, j) of its pass: the channels of a row unfiltered from the
      data of that pass, and 255 in an inserted channel. */
  ghost predicate PixelFrom(s: seq<byte>, f: Format, data: seq<byte>, little: bool, u: nat, v: nat)
    requires f.Valid() && Inside(f, u, v) && |s| == Ix(f.y, f.Stride()) && PassDecodable(data, f, PassOf(u, v))
  {
    PixelFromPass(s, f, data, little, PassOf(u, v), u, v)
  }

  ghost predicate PixelFromPass(s: seq<byte>, f: Format, data: seq<byte>, little: bool, p: Pass, u: nat, v: nat)
    requires f.Valid() && Inside(f, u, v) && |s| == Ix(f.y, f.Stride()) && PassDecodable(data, f, p) && InPass(p, u, v)
  {
    PassTaken(f, p, u, v);
    PixelIs(PixelAt(s, f, u, v), PassChannels(f, data, little, p, LineOf(p, v)), ColOf(p, u), f.Fb())
  }

  lemma PassTaken(f: Format, p: Pass, u: nat, v: nat)
    requires f.Valid() && Inside(f, u, v) && InPass(p, u, v)
    ensures !Empty(f, p) && ColOf(p, u) < Columns(p, f.x) && LineOf(p, v) < Lines(p, f.y)
  {
    PassCovers(p, u, v, f.x, f.y);
  }

  /** The channels of row j of a pass. */
  ghost function PassChannels(f: Format, data: seq<byte>, little: bool, p: Pass, j: nat): seq<byte>
    requires f.Valid() && PassDecodable(data, f, p) && !Empty(f, p) && j < Lines(p, f.y)
  {
    var g, raw := FormatOf(f, p), data[Offset(f, p)..];
    WellFormedTo(raw, g.W(), g.y, j + 1);
    Channels(g, Row(raw, g.W(), g.Bpp(), j), little)
  }

  ghost predicate PixelIs(px: seq<byte>, channels: seq<byte>, i: nat, fb: nat) {
    && fb <= |px| && Ix(i, fb) + fb <= |channels|
    && px[..fb] == channels[Ix(i, fb)..Ix(i, fb) + fb]
    && forall t :: fb <= t < |px| ==> px[t] == 255
  }

  /** A pixel of a decoded pass. */
  lemma SubPixel(sub: seq<byte>, g: Format, raw: seq<byte>, little: bool, i: nat, j: nat)
    requires g.Valid() && WellFormed(raw, g.W(), g.y) && ImageHolds(sub, g, raw, little) && i < g.x && j < g.y
    ensures WellFormed(raw, g.W(), j + 1)
    ensures PixelIs(PixelAt(sub, g, i, j), Channels(g, Row(raw, g.W(), g.Bpp(), j), little), i, g.Fb())
  {
    hide Ix, Channels, Row, WellFormed, PixelHolds, PixelIs;
    WidthFits(g);
    WellFormedTo(raw, g.W(), g.y, j + 1);
    StartInside(g, i, j);
    assert LineDone(sub, g, raw, little, j);
    var base := Ix(j, g.Stride());
    var channels := Channels(g, Row(raw, g.W(), g.Bpp(), j), little);
    assert PixelHolds(sub[base..base + g.Stride()], i, channels, g.Fb(), g.Ob(), g.Ob() - g.Fb());
    PixelBounds(i, g.x, g.Fb(), g.Ob());
    PixelOfArray(sub, base, g.Stride(), i, channels, g.Fb(), g.Ob());
  }

  /** A pixel of the line at base, cut out of the array. */
  lemma PixelOfArray(sub: seq<byte>, base: nat, stride: nat, i: nat, channels: seq<byte>, fb: nat, ob: nat)
    requires fb <= ob && base + stride <= |sub| && Ix(i, ob) + ob <= stride && Ix(i, fb) + fb <= |channels|
    requires PixelHolds(sub[base..base + stride], i, channels, fb, ob, ob - fb)
    ensures PixelIs(sub[base + Ix(i, ob)..base + Ix(i, ob) + ob], channels, i, fb)
  {
    hide Ix;
    var line, at := sub[base..base + stride], base + Ix(i, ob);
    var px := sub[at..at + ob];
    SliceOfSlice(sub, at, ob, 0, fb);
    SliceOfSlice(sub, base, stride, Ix(i, ob), fb);
    forall t | fb <= t < ob
      ensures px[t] == 255
    {
      assert px[t] == line[Ix(i, ob) + t];
    }
  }

  ghost predicate PassesDone(s: seq<byte>, f: Format, data: seq<byte>, little: bool, n: nat)
    requires f.Valid() && |s| == Ix(f.y, f.Stride()) && n <= 7 && PassesDecodable(data, f, n)
  {
    forall u: nat, v: nat :: Inside(f, u, v) && PassOf(u, v) < n ==> PixelFrom(s, f, data, little, u, v)
  }

  lemma PassesNext(was: seq<byte>, s: seq<byte>, sub: seq<byte>, f: Format, data: seq<byte>, little: bool, p: Pass)
    requires f.Valid() && !Empty(f, p) && |was| == |s| == Ix(f.y, f.Stride())
    requires PassesDecodable(data, f, p) && PassesDecodable(data, f, p + 1) && PassesDone(was, f, data, little, p)
    requires Offset(f, p) <= |data| && Decodable(data[Offset(f, p)..], FormatOf(f, p))
    requires |sub| == Ix(FormatOf(f, p).y, FormatOf(f, p).Stride())
    requires ImageHolds(sub, FormatOf(f, p), data[Offset(f, p)..], little)
    requires Copied(s, was, sub, f, FormatOf(f, p), p, 0, FormatOf(f, p).y)
    ensures PassesDone(s, f, data, little, p + 1)
  {
    hide Ix, Start, PixelAt, PixelIs, Channels, Row, WellFormed, ImageHolds, Offset, Columns, Lines, PassOf;
    hide ColOf, LineOf, InPass;
    var g, raw := FormatOf(f, p), data[Offset(f, p)..];
    forall u: nat, v: nat | Inside(f, u, v) && PassOf(u, v) < p + 1
      ensures PixelFrom(s, f, data, little, u, v)
    {
      var q := PassOf(u, v);
      assert PassDecodable(data, f, q);
      assert CopiedAt(s, was, sub, f, g, p, 0, g.y, u, v);
      PassCovers(q, u, v, f.x, f.y);
      if q == p {
        assert PassDecodable(data, f, p);
        SubPixel(sub, g, raw, little, ColOf(p, u), LineOf(p, v));
      } else {
        if InPass(p, u, v) { OnePassPerPixel(p, q, u, v); }
        assert PixelFrom(was, f, data, little, u, v);
      }
    }
  }

  lemma EmptyPass(s: seq<byte>, f: Format, data: seq<byte>, little: bool, p: Pass)
    requires f.Valid() && Empty(f, p) && |s| == Ix(f.y, f.Stride())
    requires PassesDecodable(data, f, p) && PassesDecodable(data, f, p + 1) && PassesDone(s, f, data, little, p)
    ensures PassesDone(s, f, data, little, p + 1)
  {
    hide Ix, PixelFrom, PassOf, PassDecodable, Columns, Lines, ColOf, LineOf, InPass;
    forall u: nat, v: nat | Inside(f, u, v) && PassOf(u, v) < p + 1
      ensures PixelFrom(s, f, data, little, u, v)
    {
      PassTaken(f, PassOf(u, v), u, v);
    }
  }

  /** The de-interlacing branch. */
  method CreateInterlaced(data: seq<byte>, f: Format, little: bool) returns (ok: bool, out: array<byte>)
    requires f.Valid()
    ensures ok <==> Ix(f.y, f.Stride()) <= INT_MAX && PassesDecodable(data, f, 7)
    ensures fresh(out)
    ensures ok ==> out.Length == Ix(f.y, f.Stride()) && PassesDone(out[..], f, data, little, 7)
  {
    hide Ix, PassesDone, ImageHolds, Copied, Decodable, PassOf, Columns, Lines;
    out := new byte[0];
    if Ix(f.y, f.Stride()) > INT_MAX {
      return false, out;
    }
    var final := new byte[Ix(f.y, f.Stride())];
    NoPasses(final[..], f, data, little);
    var p, at := 0, 0;
    while p < 7
      invariant p <= 7 && at == Offset(f, p) && at <= |data|
      invariant PassesDecodable(data, f, p) && PassesDone(final[..], f, data, little, p)
    {
      ghost var was := final[..];
      if !Empty(f, p) {
        var g := FormatOf(f, p);
        var sub;
        ok, sub := CreateImageRaw(data[at..], g, little);
        if !ok {
          assert !PassDecodable(data, f, p);
          return false, out;
        }
        DecodableLength(data[at..], g);
        assert PassDecodable(data, f, p);
        ImageLength(sub[..], g, data[at..], little);
        CopyPass(final, sub, f, g, p);
        PassesNext(was, final[..], sub[..], f, data, little, p);
        at := at + LineAt(g.W(), g.y);
      } else {
        assert PassDecodable(data, f, p);
        EmptyPass(was, f, data, little, p);
      }
      p := p + 1;
    }
    return true, final;
  }

  lemma NoPasses(s: seq<byte>, f: Format, data: seq<byte>, little: bool)
    requires f.Valid() && |s| == Ix(f.y, f.Stride())
    ensures PassesDecodable(data, f, 0) && PassesDone(s, f, data, little, 0)
  {
  }

  lemma DecodableLength(raw: seq<byte>, g: Format)
    requires g.Valid() && Decodable(raw, g)
    ensures LineAt(g.W(), g.y) <= |raw| && WellFormed(raw, g.W(), g.y)
  {
  }

  lemma ImageLength(s: seq<byte>, g: Format, raw: seq<byte>, little: bool)
    requires g.Valid() && WellFormed(raw, g.W(), g.y) && ImageHolds(s, g, raw, little)
    ensures |s| == Ix(g.y, g.Stride())
  {
  }
}
