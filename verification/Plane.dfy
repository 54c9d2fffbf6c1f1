/** generate_plane: the vertices and triangles of a grid of rx by ry cells. The model keeps the real
    coordinates exact and the indices 32 bits wide, as they are. */
module Plane {
  import opened Bits

  const U32: nat := 0x1_0000_0000

  /** The grid has rx + 1 vertices a row, numbered row by row. */
  function Vertex(rx: nat, x: nat, y: nat): nat {
    Ix(y, rx + 1) + x
  }

  /** The corners of the two triangles of a cell, in the order they are listed. */
  function CornerX(k: nat): nat { if k == 2 || k == 3 || k == 4 then 1 else 0 }
  function CornerY(k: nat): nat { if k == 1 || k == 2 || k == 3 then 1 else 0 }

  /** The vertex at position e of the list: corner e % 6 of cell e / 6. */
  function Corner(rx: nat, e: nat): nat
    requires rx > 0
  {
    Vertex(rx, e / 6 % rx + CornerX(e % 6), e / 6 / rx + CornerY(e % 6))
  }

  /** The position of the next corner of the same triangle: the edge at e goes from e to there. */
  function Follow(e: nat): nat {
    if e % 3 == 2 then e - 2 else e + 1
  }

  function Size(rx: nat, ry: nat): nat {
    6 * Ix(ry, rx)
  }

  // ---------------------------------------------------------------------------
  // The grid as a surface

  /** Both ends of the edge at e, as columns and rows. */
  datatype Edge = Edge(fromX: nat, fromY: nat, toX: nat, toY: nat)

  function EdgeAt(rx: nat, e: nat): Edge
    requires rx > 0
  {
    var x, y, k, l := e / 6 % rx, e / 6 / rx, e % 6, Follow(e % 6);
    Edge(x + CornerX(k), y + CornerY(k), x + CornerX(l), y + CornerY(l))
  }

  function Reversed(g: Edge): Edge {
    Edge(g.toX, g.toY, g.fromX, g.fromY)
  }

  /** On the rim of the grid: both ends on one and the same side. */
  predicate OnRim(rx: nat, ry: nat, g: Edge) {
    || (g.fromX == 0 && g.toX == 0) || (g.fromX == rx && g.toX == rx)
    || (g.fromY == 0 && g.toY == 0) || (g.fromY == ry && g.toY == ry)
  }

  lemma CellBounds(rx: nat, ry: nat, c: nat)
    requires c < Ix(ry, rx)
    ensures rx > 0 && c % rx < rx && c / rx < ry && c == Ix(c / rx, rx) + c % rx
  {
    if rx == 0 { Commute(ry, 0); assert false; }
    assert c == rx * (c / rx) + c % rx;
    Commute(rx, c / rx);
    if c / rx >= ry { IxMonotone(ry, c / rx, rx); }
  }

  lemma CellAt(rx: nat, ry: nat, x: nat, y: nat)
    requires x < rx && y < ry
    ensures Ix(y, rx) + x < Ix(ry, rx) && (Ix(y, rx) + x) % rx == x && (Ix(y, rx) + x) / rx == y
  {
    IxMonotone(y, ry, rx);
    DivModUnique(y, rx, x);
  }

  lemma SixParts(c: nat, k: nat)
    requires k < 6
    ensures (6 * c + k) / 6 == c && (6 * c + k) % 6 == k
  {
  }

  lemma FollowIn(e: nat)
    ensures Follow(e) / 6 == e / 6 && Follow(e) % 6 == Follow(e % 6)
  {
    var c, k := e / 6, e % 6;
    ThirdOf(c, k);
    SixParts(c, Follow(k));
  }

  lemma ThirdOf(c: nat, k: nat)
    requires k < 6
    ensures (6 * c + k) % 3 == k % 3
  {
    DivModUnique(2 * c + k / 3, 3, k % 3);
  }

  /** The list at e and at its follower holds the two ends of the edge. */
  lemma EdgeEnds(rx: nat, e: nat)
    requires rx > 0
    ensures var g := EdgeAt(rx, e);
      Corner(rx, e) == Vertex(rx, g.fromX, g.fromY) && Corner(rx, Follow(e)) == Vertex(rx, g.toX, g.toY)
  {
    hide Vertex;
    FollowIn(e);
  }

  lemma VertexOnce(rx: nat, x: nat, y: nat, x': nat, y': nat)
    requires x <= rx && x' <= rx && Vertex(rx, x, y) == Vertex(rx, x', y')
    ensures x == x' && y == y'
  {
    DivModUnique(y, rx + 1, x);
    DivModUnique(y', rx + 1, x');
  }

  lemma VertexBound(rx: nat, ry: nat, x: nat, y: nat)
    requires x <= rx && y <= ry
    ensures Vertex(rx, x, y) < Ix(ry + 1, rx + 1)
  {
    IxMonotone(y, ry + 1, rx + 1);
  }

  /** Every index names a vertex of the grid. */
  lemma IndexBound(rx: nat, ry: nat, e: nat)
    requires e < Size(rx, ry)
    ensures rx > 0 && Corner(rx, e) < Ix(ry + 1, rx + 1)
  {
    CellBounds(rx, ry, e / 6);
    VertexBound(rx, ry, e / 6 % rx + CornerX(e % 6), e / 6 / rx + CornerY(e % 6));
  }

  ghost predicate SameEdge(rx: nat, e: nat, f: nat)
    requires rx > 0
  {
    Corner(rx, e) == Corner(rx, f) && Corner(rx, Follow(e)) == Corner(rx, Follow(f))
  }

  ghost predicate OppositeEdge(rx: nat, e: nat, f: nat)
    requires rx > 0
  {
    Corner(rx, e) == Corner(rx, Follow(f)) && Corner(rx, Follow(e)) == Corner(rx, f)
  }

  lemma SameIffEqual(rx: nat, ry: nat, e: nat, f: nat)
    requires e < Size(rx, ry) && f < Size(rx, ry)
    ensures rx > 0
    ensures SameEdge(rx, e, f) <==> EdgeAt(rx, e) == EdgeAt(rx, f)
    ensures OppositeEdge(rx, e, f) <==> EdgeAt(rx, e) == Reversed(EdgeAt(rx, f))
  {
    hide Vertex;
    CellBounds(rx, ry, e / 6);
    CellBounds(rx, ry, f / 6);
    EdgeEnds(rx, e);
    EdgeEnds(rx, f);
    var g, h := EdgeAt(rx, e), EdgeAt(rx, f);
    if SameEdge(rx, e, f) {
      VertexOnce(rx, g.fromX, g.fromY, h.fromX, h.fromY);
      VertexOnce(rx, g.toX, g.toY, h.toX, h.toY);
    }
    if OppositeEdge(rx, e, f) {
      VertexOnce(rx, g.fromX, g.fromY, h.toX, h.toY);
      VertexOnce(rx, g.toX, g.toY, h.fromX, h.fromY);
    }
  }

  /** Every directed edge is used at most once: the surface is wound the same way everywhere. */
  lemma EveryEdgeOnce(rx: nat, ry: nat, e: nat, f: nat)
    requires e < Size(rx, ry) && f < Size(rx, ry) && e != f
    ensures rx > 0 && !SameEdge(rx, e, f)
  {
    SameIffEqual(rx, ry, e, f);
    CellBounds(rx, ry, e / 6);
    CellBounds(rx, ry, f / 6);
    PlaceOfEdge(rx, e, f);
  }

  lemma PlaceOfEdge(rx: nat, e: nat, f: nat)
    requires rx > 0
    ensures EdgeAt(rx, e) == EdgeAt(rx, f) ==>
      e % 6 == f % 6 && e / 6 % rx == f / 6 % rx && e / 6 / rx == f / 6 / rx
  {
  }

  /** Inside the grid every edge is used once in each direction; on the rim it has no partner. */
  lemma PartnerIff(rx: nat, ry: nat, e: nat)
    requires e < Size(rx, ry)
    ensures rx > 0
    ensures (exists f :: 0 <= f < Size(rx, ry) && OppositeEdge(rx, e, f)) <==> !OnRim(rx, ry, EdgeAt(rx, e))
  {
    CellBounds(rx, ry, e / 6);
    if !OnRim(rx, ry, EdgeAt(rx, e)) {
      var f := Partner(rx, ry, e);
      SameIffEqual(rx, ry, e, f);
    }
    forall f | 0 <= f < Size(rx, ry) && OppositeEdge(rx, e, f)
      ensures !OnRim(rx, ry, EdgeAt(rx, e))
    {
      SameIffEqual(rx, ry, e, f);
      CellBounds(rx, ry, f / 6);
      RimApart(rx, ry, e, f);
    }
  }

  lemma RimApart(rx: nat, ry: nat, e: nat, f: nat)
    requires rx > 0 && e / 6 % rx < rx && e / 6 / rx < ry && f / 6 % rx < rx && f / 6 / rx < ry
    requires EdgeAt(rx, e) == Reversed(EdgeAt(rx, f))
    ensures !OnRim(rx, ry, EdgeAt(rx, e))
  {
  }

  lemma Partner(rx: nat, ry: nat, e: nat) returns (f: nat)
    requires rx > 0 && e < Size(rx, ry) && !OnRim(rx, ry, EdgeAt(rx, e))
    ensures f < Size(rx, ry) && EdgeAt(rx, e) == Reversed(EdgeAt(rx, f))
  {
    hide Ix;
    CellBounds(rx, ry, e / 6);
    var x, y, k := e / 6 % rx, e / 6 / rx, e % 6;
    var x', y', k' :=
      if k == 0 then x - 1 else if k == 3 then x + 1 else x,
      if k == 1 then y + 1 else if k == 4 then y - 1 else y,
      if k == 0 then 3 else if k == 3 then 0 else if k == 1 then 4 else if k == 4 then 1 else 7 - k;
    CellAt(rx, ry, x', y');
    f := 6 * (Ix(y', rx) + x') + k';
    SixParts(Ix(y', rx) + x', k');
  }

  /** The two triangles of cell (x, y): from its first vertex down, across and back. */
  lemma CellTriangles(rx: nat, x: nat, y: nat)
    requires x < rx
    ensures var e, v := 6 * (Ix(y, rx) + x), Ix(y, rx + 1) + x;
      && Corner(rx, e) == v && Corner(rx, e + 1) == v + (rx + 1) && Corner(rx, e + 2) == v + (rx + 1) + 1
      && Corner(rx, e + 3) == v + (rx + 1) + 1 && Corner(rx, e + 4) == v + 1 && Corner(rx, e + 5) == v
  {
    hide Ix;
    var c := Ix(y, rx) + x;
    CellIs(x, y, rx);
    IxStep(y, rx + 1);
    SixParts(c, 0);
    SixParts(c, 1);
    SixParts(c, 2);
    SixParts(c, 3);
    SixParts(c, 4);
    SixParts(c, 5);
  }

  // ---------------------------------------------------------------------------
  // The loops

  /** All indices of the grid are 32-bit numbers. */
  predicate FitsIn32(rx: nat, ry: nat) {
    Ix(ry + 1, rx + 1) <= U32
  }

  /** The index list of generate_plane. Every index is computed modulo 2^32. */
  method Triangles(rx: nat, ry: nat) returns (triangles: seq<nat>)
    requires rx < U32 && ry < U32
    ensures |triangles| == Size(rx, ry)
    ensures rx > 0 ==> forall e :: 0 <= e < |triangles| ==> triangles[e] == Corner(rx, e) % U32
  {
    hide Corner, Ix;
    triangles := [];
    NoCells(rx, ry);
    IxStep(0, rx);
    var y := 0;
    while y < ry
      invariant 0 <= y <= ry && |triangles| == 6 * Ix(y, rx)
      invariant rx > 0 ==> Listed(rx, triangles)
    {
      var x := 0;
      while x < rx
        invariant 0 <= x <= rx && |triangles| == 6 * (Ix(y, rx) + x)
        invariant rx > 0 ==> Listed(rx, triangles)
      {
        var v0 := (x + Ix(y, (rx + 1) % U32) % U32) % U32;
        var v1 := (v0 + rx + 1) % U32;
        var v2 := (v0 + rx + 2) % U32;
        var v3 := (v0 + 1) % U32;
        CellCorners(rx, x, y, v0);
        ListCell(rx, triangles, Ix(y, rx) + x, v0, v1, v2, v3);
        triangles := triangles + [v0, v1, v2, v2, v3, v0];
        x := x + 1;
      }
      IxStep(y, rx);
      y := y + 1;
    }
  }

  ghost predicate Listed(rx: nat, triangles: seq<nat>)
    requires rx > 0
  {
    forall e :: 0 <= e < |triangles| ==> triangles[e] == Corner(rx, e) % U32
  }

  lemma NoCells(rx: nat, ry: nat)
    ensures rx == 0 ==> Ix(ry, rx) == 0
  {
    if rx == 0 { Commute(ry, 0); }
  }

  /** The corners of cell (x, y), the row length wrapped or not. */
  lemma CellCorners(rx: nat, x: nat, y: nat, v0: nat)
    requires x < rx && v0 == (x + Ix(y, (rx + 1) % U32) % U32) % U32
    ensures var c := Ix(y, rx) + x;
      && v0 == Corner(rx, 6 * c) % U32 == Corner(rx, 6 * c + 5) % U32
      && (v0 + rx + 1) % U32 == Corner(rx, 6 * c + 1) % U32
      && (v0 + rx + 2) % U32 == Corner(rx, 6 * c + 2) % U32 == Corner(rx, 6 * c + 3) % U32
      && (v0 + 1) % U32 == Corner(rx, 6 * c + 4) % U32
  {
    hide Ix, Vertex;
    var v, c := Vertex(rx, x, y), Ix(y, rx) + x;
    WrappedVertex(rx, x, y, U32);
    CellIs(x, y, rx);
    Neighbours(rx, x, y);
    SixParts(c, 0);
    SixParts(c, 1);
    SixParts(c, 2);
    SixParts(c, 3);
    SixParts(c, 4);
    SixParts(c, 5);
    ModPlus(v, rx + 1, U32);
    ModPlus(v, rx + 2, U32);
    ModPlus(v, 1, U32);
  }

  lemma CellIs(x: nat, y: nat, rx: nat)
    requires x < rx
    ensures (Ix(y, rx) + x) % rx == x && (Ix(y, rx) + x) / rx == y
  {
    DivModUnique(y, rx, x);
  }

  lemma Neighbours(rx: nat, x: nat, y: nat)
    ensures Vertex(rx, x, y + 1) == Vertex(rx, x, y) + rx + 1
    ensures Vertex(rx, x + 1, y + 1) == Vertex(rx, x, y) + rx + 2
    ensures Vertex(rx, x + 1, y) == Vertex(rx, x, y) + 1
  {
    IxStep(y, rx + 1);
  }

  lemma WrappedVertex(rx: nat, x: nat, y: nat, m: nat)
    requires m > 0
    ensures (x + Ix(y, (rx + 1) % m) % m) % m == Vertex(rx, x, y) % m
  {
    hide Ix;
    var n, q, r := rx + 1, (rx + 1) / m, (rx + 1) % m;
    assert n == m * q + r;
    Commute(m, q);
    RowsSplit(y, n, q, m, r);
    MulPositive(y, q);
    ModSkip(y * q, Ix(y, r) + x, m);
    ModPlus(Ix(y, r), x, m);
  }

  lemma RowsSplit(y: nat, n: nat, q: nat, m: nat, r: nat)
    requires n == q * m + r
    ensures Ix(y, n) == y * q * m + Ix(y, r)
  {
    Commute(y, n);
    Distribute(q * m, r, y);
    Commute(r, y);
    Assoc(y, q, m);
    Commute(q * m, y);
  }

  lemma ListCell(rx: nat, t: seq<nat>, c: nat, v0: nat, v1: nat, v2: nat, v3: nat)
    requires rx > 0 && |t| == 6 * c && Listed(rx, t)
    requires v0 == Corner(rx, 6 * c) % U32 == Corner(rx, 6 * c + 5) % U32
    requires v1 == Corner(rx, 6 * c + 1) % U32
    requires v2 == Corner(rx, 6 * c + 2) % U32 == Corner(rx, 6 * c + 3) % U32
    requires v3 == Corner(rx, 6 * c + 4) % U32
    ensures Listed(rx, t + [v0, v1, v2, v2, v3, v0])
  {
    hide Corner;
  }

  /** The indices are those of the grid exactly when the grid's vertices can be numbered with 32 bits. */
  lemma WrapsIff(rx: nat, ry: nat)
    requires rx > 0 && ry > 0
    ensures (forall e :: 0 <= e < Size(rx, ry) ==> Corner(rx, e) % U32 == Corner(rx, e)) <==> FitsIn32(rx, ry)
  {
    hide Corner;
    if FitsIn32(rx, ry) {
      forall e | 0 <= e < Size(rx, ry) ensures Corner(rx, e) % U32 == Corner(rx, e) {
        IndexBound(rx, ry, e);
        DivModUnique(0, U32, Corner(rx, e));
      }
    } else {
      var e := LastCorner(rx, ry);
      assert Corner(rx, e) >= U32;
    }
  }

  lemma LastCorner(rx: nat, ry: nat) returns (e: nat)
    requires rx > 0 && ry > 0
    ensures e < Size(rx, ry) && Corner(rx, e) == Ix(ry + 1, rx + 1) - 1
  {
    CellAt(rx, ry, rx - 1, ry - 1);
    var c := Ix(ry - 1, rx) + rx - 1;
    e := 6 * c + 2;
    SixParts(c, 2);
    IxStep(ry, rx + 1);
  }

  // ---------------------------------------------------------------------------
  // The vertices

  datatype Point = Point(x: real, z: real)
  datatype TexCoord = TexCoord(u: real, v: real)

  /** n increments from a on. */
  function Steps(a: real, d: real, n: nat): real {
    if n == 0 then a else Steps(a, d, n - 1) + d
  }

  lemma {:induction false} StepsIs(a: real, d: real, n: nat)
    ensures Steps(a, d, n) == a + n as real * d
  {
    if n > 0 {
      StepsIs(a, d, n - 1);
      assert n as real == (n - 1) as real + 1.0;
    }
  }

  function PointAt(offset: Point, increment: Point, rx: nat, k: nat): Point {
    Point(Steps(offset.x, increment.x, k % (rx + 1)), Steps(offset.z, increment.z, k / (rx + 1)))
  }

  /** The first texture coordinate is not taken back at the end of a row. */
  function TexCoordAt(u: real, v: real, rx: nat, k: nat): TexCoord {
    TexCoord(Steps(0.0, u, k), Steps(0.0, v, k / (rx + 1)))
  }

  /** The bounds of the two loops are 32 bits wide: one more than the resolution, modulo 2^32. */
  function Bound(r: nat): nat {
    (r + 1) % U32
  }

  method Vertices(size: Point, offset: Point, rx: nat, ry: nat) returns (positions: seq<Point>, texCoords: seq<TexCoord>)
    requires 0 < rx < U32 && 0 < ry < U32
    ensures |positions| == |texCoords| == Ix(Bound(ry), Bound(rx))
    ensures forall k :: 0 <= k < |positions| ==>
      positions[k] == PointAt(offset, Point(size.x / rx as real, size.z / ry as real), rx, k)
    ensures forall k :: 0 <= k < |positions| ==>
      texCoords[k] == TexCoordAt(1.0 / rx as real, 1.0 / ry as real, rx, k)
  {
    hide Ix, Steps;
    var position, texCoord := offset, TexCoord(0.0, 0.0);
    var inc, u, v := Point(size.x / rx as real, size.z / ry as real), 1.0 / rx as real, 1.0 / ry as real;
    positions, texCoords := [], [];
    var rows, columns := Bound(ry), Bound(rx);
    BoundIs(rx);
    IxStep(0, columns);
    NoSteps(offset.z, inc.z);
    NoSteps(0.0, u);
    NoSteps(0.0, v);
    NoSteps(offset.x, inc.x);
    var y := 0;
    while y < rows
      invariant 0 <= y <= rows && |positions| == |texCoords| == Ix(y, columns)
      invariant position == Point(offset.x, Steps(offset.z, inc.z, y))
      invariant texCoord == TexCoord(Steps(0.0, u, Ix(y, columns)), Steps(0.0, v, y))
      invariant Laid(offset, inc, u, v, rx, positions, texCoords)
    {
      var x := 0;
      while x < columns
        invariant 0 <= x <= columns && |positions| == |texCoords| == Ix(y, columns) + x
        invariant position == Point(Steps(offset.x, inc.x, x), Steps(offset.z, inc.z, y))
        invariant texCoord == TexCoord(Steps(0.0, u, Ix(y, columns) + x), Steps(0.0, v, y))
        invariant Laid(offset, inc, u, v, rx, positions, texCoords)
      {
        CellIs(x, y, rx + 1);
        OneStep(offset.x, inc.x, x);
        OneStep(0.0, u, Ix(y, columns) + x);
        positions := positions + [position];
        texCoords := texCoords + [texCoord];
        position := position.(x := position.x + inc.x);
        texCoord := texCoord.(u := texCoord.u + u);
        x := x + 1;
      }
      IxStep(y, columns);
      OneStep(offset.z, inc.z, y);
      OneStep(0.0, v, y);
      position := position.(x := offset.x);
      position := position.(z := position.z + inc.z);
      texCoord := texCoord.(v := texCoord.v + v);
      y := y + 1;
    }
  }

  lemma NoSteps(a: real, d: real)
    ensures Steps(a, d, 0) == a
  {
  }

  lemma OneStep(a: real, d: real, n: nat)
    ensures Steps(a, d, n + 1) == Steps(a, d, n) + d
  {
  }

  lemma BoundIs(r: nat)
    requires r < U32
    ensures Bound(r) == if r + 1 < U32 then r + 1 else 0
  {
    if r + 1 < U32 { DivModUnique(0, U32, r + 1); } else { DivModUnique(1, U32, 0); }
  }

  /** There are (rx + 1) * (ry + 1) vertices exactly if neither resolution is the largest 32-bit number, and
      otherwise none at all. */
  lemma VerticesIff(rx: nat, ry: nat)
    requires 0 < rx < U32 && 0 < ry < U32
    ensures Ix(Bound(ry), Bound(rx)) == Ix(ry + 1, rx + 1) <==> rx + 1 < U32 && ry + 1 < U32
    ensures !(rx + 1 < U32 && ry + 1 < U32) ==> Ix(Bound(ry), Bound(rx)) == 0
  {
    BoundIs(rx);
    BoundIs(ry);
    IxStep(0, Bound(rx));
    Commute(Bound(ry), 0);
    IxMonotone(0, ry + 1, rx + 1);
  }

  ghost predicate Laid(offset: Point, inc: Point, u: real, v: real, rx: nat, positions: seq<Point>, texCoords: seq<TexCoord>) {
    && |positions| == |texCoords|
    && (forall k :: 0 <= k < |positions| ==> positions[k] == PointAt(offset, inc, rx, k))
    && forall k :: 0 <= k < |positions| ==> texCoords[k] == TexCoordAt(u, v, rx, k)
  }

  /** Vertex (x, y) lies at its share of the size, so the grid spans exactly the plane. */
  lemma VertexPlace(size: Point, offset: Point, rx: nat, ry: nat, x: nat, y: nat)
    requires rx > 0 && ry > 0 && x <= rx && y <= ry
    ensures PointAt(offset, Point(size.x / rx as real, size.z / ry as real), rx, Vertex(rx, x, y)) ==
      Point(offset.x + x as real * (size.x / rx as real), offset.z + y as real * (size.z / ry as real))
  {
    CellIs(x, y, rx + 1);
    StepsIs(offset.x, size.x / rx as real, x);
    StepsIs(offset.z, size.z / ry as real, y);
  }

  /** The texture spans the plane in its second coordinate. In the first, vertex (x, y) has its share x / rx
      exactly in the first row; later rows have run on. */
  lemma TexCoordPlace(rx: nat, ry: nat, x: nat, y: nat)
    requires rx > 0 && ry > 0 && x <= rx && y <= ry
    ensures var t := TexCoordAt(1.0 / rx as real, 1.0 / ry as real, rx, Vertex(rx, x, y));
      t.v == y as real * (1.0 / ry as real) && (t.u == x as real * (1.0 / rx as real) <==> y == 0)
  {
    hide Steps, Ix;
    CellIs(x, y, rx + 1);
    var u, k := 1.0 / rx as real, Vertex(rx, x, y);
    PositiveShare(rx);
    StepsIs(0.0, u, k);
    StepsIs(0.0, 1.0 / ry as real, y);
    if y == 0 {
      IxStep(0, rx + 1);
    } else {
      IxMonotone(1, y, rx + 1);
      IxStep(0, rx + 1);
      RunOn(u, x, k);
    }
  }

  lemma PositiveShare(n: nat)
    requires n > 0
    ensures 1.0 / n as real > 0.0
  {
  }

  lemma RunOn(u: real, x: nat, k: nat)
    requires u > 0.0 && x < k
    ensures x as real * u < k as real * u
  {
    assert (k - x) as real * u > 0.0;
    assert k as real == x as real + (k - x) as real;
  }
}
