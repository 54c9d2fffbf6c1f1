/** The encoder's side of a PNG image: every image there can be has rows, and passes, that a decoder gives
    back. */
module PngEncoder {
  import opened Bits
  import opened PngExpand
  import opened Png
  import opened Adam7
  import opened PngDecode

  /** The decoded channels of an image: bytes, and for packed samples only those that a sample can give. */
  ghost predicate Proper(f: Format, lines: seq<seq<byte>>)
    requires f.Valid()
  {
    |lines| == f.y && forall v :: 0 <= v < f.y ==> |lines[v]| == Ix(f.x, f.Fb()) && Samples(f, lines[v])
  }

  ghost predicate Samples(f: Format, c: seq<byte>) {
    Packed(f.depth) ==> forall q :: 0 <= q < |c| ==> IsSample(f, c[q])
  }

  ghost predicate IsSample(f: Format, b: byte)
    requires Packed(f.depth)
  {
    b % Scale(f.depth, f.grey) == 0 && b / Scale(f.depth, f.grey) < Pow2(f.depth)
  }

  // ---------------------------------------------------------------------------
  // A row for given channels

  function Unscaled(c: seq<byte>, depth: nat, grey: bool): (s: seq<nat>)
    requires Packed(depth)
    ensures |s| == |c| && forall q :: 0 <= q < |s| ==> s[q] == c[q] / Scale(depth, grey)
  {
    seq<nat>(|c|, q requires 0 <= q < |c| => Quotient(c[q], Scale(depth, grey)))
  }

  function Quotient(b: nat, d: nat): (q: nat)
    requires d > 0
    ensures q == b / d
  {
    DivPositive(b, d);
    b / d
  }

  /** The bytes that are stored, before filtering. */
  ghost function RowFor(f: Format, c: seq<byte>, little: bool): (row: seq<byte>)
    requires f.Valid() && |c| == Ix(f.x, f.Fb()) && Samples(f, c)
    ensures |row| == f.W()
  {
    if Packed(f.depth) then
      PackedIsBytes(f, c);
      Pack(Unscaled(c, f.depth, f.grey), f.depth)
    else if f.depth == 16 && little then SwapPairs(c)
    else c
  }

  lemma PackedIsBytes(f: Format, c: seq<byte>)
    requires f.Valid() && Packed(f.depth) && Samples(f, c)
    ensures var s := Unscaled(c, f.depth, f.grey);
      Packable(s, f.depth) && forall k :: 0 <= k < |Pack(s, f.depth)| ==> Pack(s, f.depth)[k] < 256
  {
    var s := Unscaled(c, f.depth, f.grey);
    forall q | 0 <= q < |c| ensures s[q] < Pow2(f.depth) { assert IsSample(f, c[q]); }
    forall k | 0 <= k < |Pack(s, f.depth)| ensures Pack(s, f.depth)[k] < 256 {
      PackedByte(s, FirstOf(k, f.depth), f.depth, 0);
    }
  }

  /** Decoding the row gives the channels. */
  lemma RowGivesChannels(f: Format, c: seq<byte>, little: bool)
    requires f.Valid() && |c| == Ix(f.x, f.Fb()) && Samples(f, c)
    ensures Channels(f, RowFor(f, c, little), little) == c
  {
    hide Ix, Width, Pack;
    var row := RowFor(f, c, little);
    if Packed(f.depth) {
      PackedIsBytes(f, c);
      var s := Unscaled(c, f.depth, f.grey);
      var u := Unpack(row, |c|, f.depth, f.grey);
      forall q | 0 <= q < |c|
        ensures u[q] == c[q]
      {
        UnpackInvertsPack(s, row, f.depth, f.grey, q);
        assert IsSample(f, c[q]);
        ScaleBack(c[q], Scale(f.depth, f.grey));
      }
      assert u == c;
    } else if f.depth == 16 && little {
      EvenBytes(f.x, f.imgN);
      SwapTwice(c);
    }
  }

  lemma ScaleBack(b: nat, d: nat)
    requires d > 0 && b % d == 0
    ensures d * (b / d) == b
  {
  }

  lemma EvenBytes(x: nat, n: nat)
    ensures Ix(x, n * 2) % 2 == 0
  {
    Assoc(x, n, 2);
    MulPositive(x, n);
    DivModUnique(x * n, 2, 0);
  }

  lemma SwapTwice(c: seq<byte>)
    requires |c| % 2 == 0
    ensures SwapPairs(SwapPairs(c)) == c
  {
  }

  // ---------------------------------------------------------------------------
  // Images that are not interlaced

  ghost function RowsFor(f: Format, lines: seq<seq<byte>>, little: bool): (rows: seq<seq<byte>>)
    requires f.Valid() && Proper(f, lines)
    ensures |rows| == f.y
  {
    seq(f.y, v requires 0 <= v < f.y => RowFor(f, lines[v], little))
  }

  /** Every image has rows, and whatever filter is chosen for each, its lines are those of the image. */
  lemma EveryImageHasRows(f: Format, lines: seq<seq<byte>>, kinds: seq<nat>, little: bool) returns (e: Filtered)
    requires f.Valid() && Proper(f, lines) && |kinds| == f.y && forall v :: 0 <= v < f.y ==> kinds[v] <= 4
    ensures e.Valid(f) && e.kinds == kinds && ChannelLines(f, e.rows, e.kinds, little) == lines
  {
    hide RowFor, Channels, Samples;
    e := Filtered(RowsFor(f, lines, little), kinds);
    forall v | 0 <= v < f.y
      ensures Channels(f, e.rows[v], little) == lines[v]
    {
      RowGivesChannels(f, lines[v], little);
    }
    assert ChannelLines(f, e.rows, e.kinds, little) == lines;
  }

  // ---------------------------------------------------------------------------
  // Interlaced images

  ghost predicate InLine(line: seq<byte>, p: Pass, fb: nat, n: nat) {
    forall i: nat :: i < n ==> Ix(X(p, i), fb) + fb <= |line|
  }

  /** The first n pixels of a pass in one line of the image. */
  ghost function Gathered(line: seq<byte>, p: Pass, fb: nat, n: nat): (c: seq<byte>)
    requires InLine(line, p, fb, n)
  {
    if n == 0 then []
    else
      var at := Ix(X(p, n - 1), fb);
      assert at + fb <= |line|;
      Gathered(line, p, fb, n - 1) + line[at..at + fb]
  }

  lemma {:induction false} GatheredAt(line: seq<byte>, p: Pass, fb: nat, n: nat)
    requires InLine(line, p, fb, n)
    ensures |Gathered(line, p, fb, n)| == Ix(n, fb)
    ensures forall b :: b in Gathered(line, p, fb, n) ==> b in line
  {
    hide Ix;
    IxStep(0, fb);
    if n > 0 {
      IxStep(n - 1, fb);
      GatheredAt(line, p, fb, n - 1);
    }
  }

  lemma {:induction false} GatheredPixel(line: seq<byte>, p: Pass, fb: nat, n: nat, i: nat)
    requires InLine(line, p, fb, n) && i < n
    ensures Ix(i, fb) + fb <= |Gathered(line, p, fb, n)|
    ensures Gathered(line, p, fb, n)[Ix(i, fb)..Ix(i, fb) + fb] == line[Ix(X(p, i), fb)..Ix(X(p, i), fb) + fb]
    decreases n
  {
    hide Ix;
    GatheredAt(line, p, fb, n);
    GatheredAt(line, p, fb, n - 1);
    IxStep(n - 1, fb);
    IxMonotone(i, n, fb);
    if i < n - 1 {
      GatheredPixel(line, p, fb, n - 1, i);
      IxMonotone(i, n - 1, fb);
    }
  }

  lemma PassInLine(f: Format, lines: seq<seq<byte>>, p: Pass, j: nat)
    requires f.Valid() && Proper(f, lines) && !Empty(f, p) && j < FormatOf(f, p).y
    ensures Y(p, j) < f.y && InLine(lines[Y(p, j)], p, f.Fb(), FormatOf(f, p).x)
    ensures var c := Gathered(lines[Y(p, j)], p, f.Fb(), FormatOf(f, p).x);
      |c| == Ix(FormatOf(f, p).x, f.Fb()) && Samples(FormatOf(f, p), c)
  {
    hide Ix, Columns, Lines, X, Y, Gathered, IsSample;
    var g := FormatOf(f, p);
    PassInside(p, 0, j, f.x, f.y);
    var line := lines[Y(p, j)];
    forall i: nat | i < g.x
      ensures Ix(X(p, i), f.Fb()) + f.Fb() <= |line|
    {
      PassInside(p, i, j, f.x, f.y);
      IxMonotone(X(p, i), f.x, f.Fb());
    }
    GatheredAt(line, p, f.Fb(), g.x);
    var c := Gathered(line, p, f.Fb(), g.x);
    if Packed(f.depth) {
      forall q | 0 <= q < |c| ensures IsSample(g, c[q]) {
        assert c[q] in c;
        var k :| 0 <= k < |line| && line[k] == c[q];
        assert IsSample(f, line[k]);
        SameScale(f, g, line[k]);
      }
    }
  }

  lemma SameScale(f: Format, g: Format, b: byte)
    requires Packed(f.depth) && g.depth == f.depth && g.grey == f.grey
    ensures IsSample(f, b) <==> IsSample(g, b)
  {
  }

  /** The row of a pass, as it is stored. */
  ghost function PassRow(f: Format, lines: seq<seq<byte>>, p: Pass, j: nat, little: bool): (row: seq<byte>)
    requires f.Valid() && Proper(f, lines) && !Empty(f, p) && j < FormatOf(f, p).y
    ensures |row| == FormatOf(f, p).W()
  {
    PassInLine(f, lines, p, j);
    RowFor(FormatOf(f, p), Gathered(lines[Y(p, j)], p, f.Fb(), FormatOf(f, p).x), little)
  }

  /** One pass, filters(p, j) being the filter type of its row j. */
  ghost function PassFor(f: Format, lines: seq<seq<byte>>, p: Pass, little: bool, filters: (nat, nat) -> nat): (e: Filtered)
    requires f.Valid() && Proper(f, lines) && forall p, j :: filters(p, j) <= 4
    ensures !Empty(f, p) ==> e.Valid(FormatOf(f, p))
  {
    if Empty(f, p) then Filtered([], [])
    else
      var y := FormatOf(f, p).y;
      Filtered(seq(y, j requires 0 <= j < y => PassRow(f, lines, p, j, little)), seq<nat>(y, j requires 0 <= j < y => filters(p, j)))
  }

  lemma PassExtracts(f: Format, lines: seq<seq<byte>>, p: Pass, little: bool, filters: (nat, nat) -> nat)
    requires f.Valid() && Proper(f, lines) && !Empty(f, p) && forall p, j :: filters(p, j) <= 4
    ensures Extracts(f, lines, p, PassFor(f, lines, p, little, filters), little)
  {
    hide Ix, Columns, Lines, X, Y, Gathered, Samples, Channels, RowFor;
    var e, g := PassFor(f, lines, p, little, filters), FormatOf(f, p);
    forall i: nat, j: nat | i < g.x && j < g.y
      ensures ExtractsPixel(f, lines, p, e, little, i, j)
    {
      PassInside(p, i, j, f.x, f.y);
      PassInLine(f, lines, p, j);
      var line := lines[Y(p, j)];
      RowGivesChannels(g, Gathered(line, p, f.Fb(), g.x), little);
      GatheredPixel(line, p, f.Fb(), g.x, i);
      assert InLine(line, p, f.Fb(), g.x);
    }
  }

  /** Every image has passes, whatever filter is chosen for each of their rows. */
  lemma EveryImageHasPasses(f: Format, lines: seq<seq<byte>>, little: bool, filters: (nat, nat) -> nat) returns (es: Passes)
    requires f.Valid() && Proper(f, lines) && forall p, j :: filters(p, j) <= 4
    ensures Interlaces(f, lines, es, little)
    ensures forall p: Pass :: !Empty(f, p) ==> es[p] == PassFor(f, lines, p, little, filters)
  {
    hide Extracts, Columns, Lines, PassFor;
    es := seq(7, p requires 0 <= p < 7 => PassFor(f, lines, p, little, filters));
    forall p: Pass | !Empty(f, p)
      ensures Extracts(f, lines, p, es[p], little)
    {
      PassExtracts(f, lines, p, little, filters);
    }
  }
}
