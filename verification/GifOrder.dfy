/** The order in which a GIF raster visits its pixels: the cursor of stbi__out_gif_code, and the row
    order of GIF89a Appendix E. Rows are counted from the top of the rectangle. */
module GifOrder {
  import opened Bits

  /** The vertical part of the cursor: row, distance to the next row of the pass, passes still to come. */
  datatype Rows = Rows(y: nat, step: nat, passes: nat)

  function StartRows(interlaced: bool): Rows {
    if interlaced then Rows(0, 8, 3) else Rows(0, 1, 0)
  }

  /** The inner loop: at the bottom, go on with the next pass that has a row. */
  function Wrap(c: Rows, h: nat): (c': Rows)
    ensures c'.passes <= c.passes && (c'.y < h || c'.passes == 0)
    ensures c.step > 0 ==> c'.step > 0
    decreases c.passes
  {
    if c.y >= h && c.passes > 0 then
      Wrap(Rows(Pow2(c.passes) / 2, Pow2(c.passes), c.passes - 1), h)
    else c
  }

  function NextRow(c: Rows, h: nat): Rows {
    Wrap(c.(y := c.y + c.step), h)
  }

  /** The rows visited from a cursor on, while it is inside the rectangle. */
  function Visited(c: Rows, h: nat): (rows: seq<nat>)
    requires c.step > 0 && c.passes <= 3
    decreases c.passes, if c.y < h then h - c.y else 0
  {
    if c.y < h then [c.y] + Visited(NextRow(c, h), h) else []
  }

  // ---------------------------------------------------------------------------
  // GIF89a Appendix E

  /** Every s-th row from a on. */
  function Every(a: nat, s: nat, h: nat): (rows: seq<nat>)
    requires s > 0
    decreases if a < h then h - a else 0
  {
    if a < h then [a] + Every(a + s, s, h) else []
  }

  /** Every 8th row from 0, every 8th from 4, every 4th from 2, every 2nd from 1; or all of them in turn. */
  function RowOrder(h: nat, interlaced: bool): seq<nat> {
    if interlaced then Every(0, 8, h) + Every(4, 8, h) + Every(2, 4, h) + Every(1, 2, h) else Every(0, 1, h)
  }

  /** What is still to come after the current pass. */
  function Later(passes: nat, h: nat): seq<nat>
    requires passes <= 3
  {
    if passes == 3 then Every(4, 8, h) + Every(2, 4, h) + Every(1, 2, h)
    else if passes == 2 then Every(2, 4, h) + Every(1, 2, h)
    else if passes == 1 then Every(1, 2, h)
    else []
  }

  lemma {:induction false} WrapVisits(c: Rows, h: nat)
    requires c.step > 0 && c.passes <= 3 && c.y >= h
    ensures Visited(Wrap(c, h), h) == Later(c.passes, h)
    decreases c.passes, 0
  {
    hide Every, Later, Visited, Pow2;
    LaterStep(c.passes, h);
    if c.passes > 0 {
      var n := Rows(Pow2(c.passes) / 2, Pow2(c.passes), c.passes - 1);
      assert Wrap(c, h) == Wrap(n, h);
      if n.y >= h {
        WrapVisits(n, h);
        NoneLeft(n.y, n.step, h);
      } else {
        VisitsPass(n, h);
      }
    } else {
      NoVisit(c, h);
    }
  }

  lemma LaterStep(p: nat, h: nat)
    requires p <= 3
    ensures p == 0 ==> Later(p, h) == []
    ensures p > 0 ==> Later(p, h) == Every(Pow2(p) / 2, Pow2(p), h) + Later(p - 1, h)
  {
    hide Every, Pow2;
    Pow2Values();
  }

  lemma EveryStep(a: nat, s: nat, h: nat)
    requires s > 0 && a < h
    ensures Every(a, s, h) == [a] + Every(a + s, s, h)
  {
  }

  lemma NoWrap(c: Rows, h: nat)
    requires c.y < h
    ensures Wrap(c, h) == c
  {
  }

  lemma NoneLeft(a: nat, s: nat, h: nat)
    requires s > 0 && a >= h
    ensures Every(a, s, h) == []
  {
  }

  lemma NoVisit(c: Rows, h: nat)
    requires c.step > 0 && c.passes <= 3 && c.y >= h
    ensures Visited(c, h) == []
  {
  }

  /** From any cursor inside the rectangle: the rest of the pass, then the later passes. */
  lemma {:induction false} VisitsPass(c: Rows, h: nat)
    requires c.step > 0 && c.passes <= 3 && c.y < h
    ensures Visited(c, h) == Every(c.y, c.step, h) + Later(c.passes, h)
    decreases c.passes, h - c.y
  {
    hide Wrap, Visited, Later, Every;
    var n := c.(y := c.y + c.step);
    WrapPasses(c, h);
    VisitedStep(c, h);
    EveryStep(c.y, c.step, h);
    if n.y >= h {
      WrapVisits(n, h);
      NoneLeft(n.y, n.step, h);
    } else {
      NoWrap(n, h);
      VisitsPass(n, h);
    }
  }

  /** The cursor follows Appendix E. */
  lemma CursorFollowsOrder(h: nat, interlaced: bool)
    ensures Visited(StartRows(interlaced), h) == RowOrder(h, interlaced)
  {
    if h > 0 {
      VisitsPass(StartRows(interlaced), h);
    }
  }

  /** Row k of the raster, by its number: every 8th row, every 8th from 4, every 4th from 2, every 2nd from 1. */
  lemma RowsInFour(h: nat, k: nat)
    requires k < h
    ensures var a, b, c, order := (h + 7) / 8, (h + 3) / 8, (h + 1) / 4, RowOrder(h, true);
      |order| == h
      && order[k] == if k < a then 8 * k else if k < a + b then 8 * (k - a) + 4
                     else if k < a + b + c then 4 * (k - a - b) + 2 else 2 * (k - a - b - c) + 1
    ensures |RowOrder(h, false)| == h && RowOrder(h, false)[k] == k
  {
    hide Every, Ix;
    var p, q, r, t := Every(0, 8, h), Every(4, 8, h), Every(2, 4, h), Every(1, 2, h);
    PassLengths(h);
    JoinedAt(p, q, r, t, k);
    EveryAt(0, 8, h, k);
    if k >= |p| { EveryAt(4, 8, h, k - |p|); }
    if k >= |p| + |q| { EveryAt(2, 4, h, k - |p| - |q|); }
    if k >= |p| + |q| + |r| { EveryAt(1, 2, h, k - |p| - |q| - |r|); }
    EveryAt(0, 1, h, k);
    Times(k);
    Times(k - |p|);
    Times(k - |p| - |q|);
    Times(k - |p| - |q| - |r|);
  }

  lemma Times(k: int)
    ensures k >= 0 ==> Ix(k, 8) == 8 * k && Ix(k, 4) == 4 * k && Ix(k, 2) == 2 * k && Ix(k, 1) == k
  {
  }

  lemma JoinedAt(p: seq<nat>, q: seq<nat>, r: seq<nat>, t: seq<nat>, k: nat)
    requires k < |p| + |q| + |r| + |t|
    ensures (p + q + r + t)[k] == if k < |p| then p[k] else if k < |p| + |q| then q[k - |p|]
      else if k < |p| + |q| + |r| then r[k - |p| - |q|] else t[k - |p| - |q| - |r|]
  {
  }

  lemma PassLengths(h: nat)
    ensures |Every(0, 8, h)| == (h + 7) / 8 && |Every(4, 8, h)| == (h + 3) / 8
    ensures |Every(2, 4, h)| == (h + 1) / 4 && |Every(1, 2, h)| == h / 2 && |Every(0, 1, h)| == h
    ensures (h + 7) / 8 + (h + 3) / 8 + (h + 1) / 4 + h / 2 == h
  {
    hide Every, Ix;
    EighthsLength(h);
    Times((h + 1) / 4);
    Times((h + 1) / 4 - 1);
    EveryLength(2, 4, h, (h + 1) / 4);
    Times(h / 2);
    Times(h / 2 - 1);
    EveryLength(1, 2, h, h / 2);
    Times(h);
    Times(h - 1);
    EveryLength(0, 1, h, h);
    PartsOfHeight(h);
  }

  lemma EighthsLength(h: nat)
    ensures |Every(0, 8, h)| == (h + 7) / 8 && |Every(4, 8, h)| == (h + 3) / 8
  {
    hide Every, Ix;
    Times((h + 7) / 8);
    Times((h + 7) / 8 - 1);
    EveryLength(0, 8, h, (h + 7) / 8);
    Times((h + 3) / 8);
    Times((h + 3) / 8 - 1);
    EveryLength(4, 8, h, (h + 3) / 8);
  }

  lemma PartsOfHeight(h: nat)
    ensures (h + 7) / 8 + (h + 3) / 8 + (h + 1) / 4 + h / 2 == h
  {
    var q, r := h / 8, h % 8;
    assert h == 8 * q + r;
    assert (h + 7) / 8 == q + (r + 7) / 8 && (h + 3) / 8 == q + (r + 3) / 8;
    assert (h + 1) / 4 == 2 * q + (r + 1) / 4 && h / 2 == 4 * q + r / 2;
  }

  lemma {:induction false} EveryAt(a: nat, s: nat, h: nat, k: nat)
    requires s > 0
    ensures k < |Every(a, s, h)| <==> a + Ix(k, s) < h
    ensures k < |Every(a, s, h)| ==> Every(a, s, h)[k] == a + Ix(k, s)
    decreases k
  {
    IxStep(0, s);
    if k > 0 && a < h {
      EveryAt(a + s, s, h, k - 1);
      IxStep(k - 1, s);
    }
  }

  lemma EveryLength(a: nat, s: nat, h: nat, n: nat)
    requires s > 0 && a + Ix(n, s) >= h && (n > 0 ==> a + Ix(n - 1, s) < h)
    ensures |Every(a, s, h)| == n
  {
    EveryAt(a, s, h, n);
    if n > 0 { EveryAt(a, s, h, n - 1); }
  }

  // ---------------------------------------------------------------------------
  // Every row once

  lemma {:induction false} EveryHas(a: nat, s: nat, h: nat, r: nat)
    requires s > 0 && a < h + s
    ensures r in Every(a, s, h) <==> a <= r < h && (r - a) % s == 0
    ensures forall i, j :: 0 <= i < j < |Every(a, s, h)| ==> Every(a, s, h)[i] != Every(a, s, h)[j]
    decreases if a < h then h - a else 0
  {
    hide Every;
    if a >= h {
      NoneLeft(a, s, h);
    } else {
      EveryStep(a, s, h);
      EveryHas(a + s, s, h, r);
      EveryHas(a + s, s, h, a);
      if a < r {
        if r >= a + s { StepDown(r - a, s); } else { Small(r - a, s); }
      }
    }
  }

  lemma StepDown(n: nat, s: nat)
    requires 0 < s <= n
    ensures (n - s) % s == 0 <==> n % s == 0
  {
    var q, r := n / s, n % s;
    assert n == s * q + r;
    Commute(s, q);
    Distribute(q - 1, 1, s);
    if q == 0 { assert false; }
    DivModUnique(q - 1, s, r);
  }

  lemma Small(n: nat, s: nat)
    requires 0 < n < s
    ensures n % s != 0
  {
    DivModUnique(0, s, n);
  }

  lemma {:induction false} EveryRows(a: nat, s: nat, h: nat)
    requires s > 0 && a < h + s
    ensures forall r: nat :: r in Every(a, s, h) <==> a <= r < h && (r - a) % s == 0
    ensures forall i, j :: 0 <= i < j < |Every(a, s, h)| ==> Every(a, s, h)[i] != Every(a, s, h)[j]
  {
    forall r: nat
      ensures r in Every(a, s, h) <==> a <= r < h && (r - a) % s == 0
    {
      EveryHas(a, s, h, r);
    }
    EveryHas(a, s, h, 0);
  }

  ghost predicate Distinct(s: seq<nat>) {
    forall i, j :: 0 <= i < j < |s| ==> s[i] != s[j]
  }

  lemma DistinctJoin(a: seq<nat>, b: seq<nat>)
    requires Distinct(a) && Distinct(b) && forall r :: r in a ==> r !in b
    ensures Distinct(a + b)
  {
    var c := a + b;
    forall i, j | 0 <= i < j < |c|
      ensures c[i] != c[j]
    {
      if i < |a| <= j {
        assert c[i] == a[i] && a[i] in a;
        assert c[j] == b[j - |a|] && b[j - |a|] in b;
      }
    }
  }

  lemma EveryResidue(a: nat, s: nat, h: nat)
    requires s > 0 && a < s
    ensures Distinct(Every(a, s, h)) && forall r: nat :: r in Every(a, s, h) <==> r < h && r % s == a
  {
    EveryRows(a, s, h);
    forall r: nat
      ensures r in Every(a, s, h) <==> r < h && r % s == a
    {
      if r >= a {
        var q, m := (r - a) / s, (r - a) % s;
        assert r - a == s * q + m;
        Commute(s, q);
        if m == 0 { DivModUnique(q, s, a); }
        if r % s == a {
          assert r == s * (r / s) + a;
          Commute(s, r / s);
          DivModUnique(r / s, s, 0);
        }
      } else {
        DivModUnique(0, s, r);
      }
    }
  }

  /** Every row of the rectangle is in the order, once, and nothing else is. */
  lemma EveryRowOnce(h: nat, interlaced: bool)
    ensures Distinct(RowOrder(h, interlaced)) && |RowOrder(h, interlaced)| == h
    ensures forall r: nat :: r in RowOrder(h, interlaced) <==> r < h
  {
    var order := RowOrder(h, interlaced);
    if interlaced {
      EveryResidue(0, 8, h);
      EveryResidue(4, 8, h);
      EveryResidue(2, 4, h);
      EveryResidue(1, 2, h);
      Interleave(Every(0, 8, h), Every(4, 8, h), Every(2, 4, h), Every(1, 2, h), h);
    } else {
      EveryResidue(0, 1, h);
    }
    RangeLength(order, h);
  }

  lemma Interleave(a: seq<nat>, b: seq<nat>, c: seq<nat>, d: seq<nat>, h: nat)
    requires Distinct(a) && Distinct(b) && Distinct(c) && Distinct(d)
    requires forall r: nat :: r in a <==> r < h && r % 8 == 0
    requires forall r: nat :: r in b <==> r < h && r % 8 == 4
    requires forall r: nat :: r in c <==> r < h && r % 4 == 2
    requires forall r: nat :: r in d <==> r < h && r % 2 == 1
    ensures Distinct(a + b + c + d) && forall r: nat :: r in a + b + c + d <==> r < h
  {
    forall r: nat
      ensures (r % 8 == 0 || r % 8 == 4 <==> r % 4 == 0) && (r % 4 == 0 || r % 4 == 2 <==> r % 2 == 0)
    {
      Halves(r);
    }
    DistinctJoin(a, b);
    DistinctJoin(a + b, c);
    DistinctJoin(a + b + c, d);
  }

  lemma HasFirst(s: seq<nat>)
    requires |s| > 0
    ensures exists r: nat :: r in s
  {
    assert s[0] in s;
  }

  /** A list without repetitions of exactly the numbers below h has length h. */
  lemma {:induction false} RangeLength(s: seq<nat>, h: nat)
    requires Distinct(s) && forall r: nat :: r in s <==> r < h
    ensures |s| == h
    decreases h
  {
    if h == 0 {
      if |s| > 0 { HasFirst(s); assert false; }
    } else {
      assert h - 1 in s;
      var k :| 0 <= k < |s| && s[k] == h - 1;
      var t := s[..k] + s[k + 1..];
      forall r: nat
        ensures r in t <==> r < h - 1
      {
        if r in t { assert r in s; }
        if r < h - 1 {
          assert r in s;
          var j :| 0 <= j < |s| && s[j] == r;
          assert t[if j < k then j else j - 1] == r;
        }
      }
      RangeLength(t, h - 1);
    }
  }

  // ---------------------------------------------------------------------------
  // The whole cursor, pixel by pixel

  datatype Cursor = Cursor(x: nat, rows: Rows)

  /** After a pixel: to the right, or to the next row. Below the last row the cursor stays where it is. */
  function Next(c: Cursor, w: nat, h: nat): Cursor {
    if c.rows.y >= h then c
    else if c.x + 1 >= w then Cursor(0, NextRow(c.rows, h))
    else c.(x := c.x + 1)
  }

  /** The cursor after n pixels. */
  function CursorAt(n: nat, w: nat, h: nat, interlaced: bool): Cursor {
    if n == 0 then Cursor(0, StartRows(interlaced)) else Next(CursorAt(n - 1, w, h, interlaced), w, h)
  }

  function RowsAt(k: nat, h: nat, interlaced: bool): (c: Rows)
    ensures c.step > 0 && c.passes <= 3
  {
    if k == 0 then StartRows(interlaced)
    else
      WrapPasses(RowsAt(k - 1, h, interlaced), h);
      NextRow(RowsAt(k - 1, h, interlaced), h)
  }

  lemma VisitedStep(c: Rows, h: nat)
    requires c.step > 0 && c.passes <= 3 && NextRow(c, h).step > 0 && NextRow(c, h).passes <= 3
    ensures Visited(c, h) == if c.y < h then [c.y] + Visited(NextRow(c, h), h) else []
  {
  }

  lemma WrapPasses(c: Rows, h: nat)
    requires c.step > 0 && c.passes <= 3
    ensures NextRow(c, h).step > 0 && NextRow(c, h).passes <= 3
  {
  }

  lemma {:induction false} RowsFrom(c: Rows, k: nat, j: nat, h: nat, interlaced: bool)
    requires c == RowsAt(k, h, interlaced) && j <= |Visited(c, h)|
    ensures j < |Visited(c, h)| ==> RowsAt(k + j, h, interlaced).y == Visited(c, h)[j]
    ensures j == |Visited(c, h)| ==> RowsAt(k + j, h, interlaced).y >= h
    decreases j
  {
    hide Wrap, NextRow, RowsAt, Visited;
    WrapPasses(c, h);
    VisitedStep(c, h);
    if j > 0 {
      RowsNext(k, h, interlaced);
      RowsFrom(NextRow(c, h), k + 1, j - 1, h, interlaced);
    }
  }

  /** Row k of the cursor is row k of the order; after the last one it is outside. */
  lemma RowOfCursor(k: nat, h: nat, interlaced: bool)
    requires k <= h
    ensures |RowOrder(h, interlaced)| == h
    ensures if k < h then RowsAt(k, h, interlaced).y == RowOrder(h, interlaced)[k] < h else RowsAt(k, h, interlaced).y >= h
  {
    hide RowOrder, Visited, RowsAt;
    EveryRowOnce(h, interlaced);
    CursorFollowsOrder(h, interlaced);
    FirstRows(h, interlaced);
    RowsFrom(StartRows(interlaced), 0, k, h, interlaced);
    if k < h { assert RowOrder(h, interlaced)[k] in RowOrder(h, interlaced); }
  }

  lemma FirstRows(h: nat, interlaced: bool)
    ensures RowsAt(0, h, interlaced) == StartRows(interlaced)
  {
  }

  /** Pixel n of the raster is n % w in row n / w of the order; behind the last pixel the cursor is below
      the rectangle. */
  ghost predicate Visits(n: nat, w: nat, h: nat, interlaced: bool)
    requires w > 0
  {
    && |RowOrder(h, interlaced)| == h
    && if n < Ix(h, w) then
         && n / w < h
         && CursorAt(n, w, h, interlaced) == Cursor(n % w, RowsAt(n / w, h, interlaced))
         && CursorAt(n, w, h, interlaced).rows.y == RowOrder(h, interlaced)[n / w]
       else CursorAt(n, w, h, interlaced).rows.y >= h
  }

  lemma {:induction false} CursorVisits(n: nat, w: nat, h: nat, interlaced: bool)
    requires w > 0
    ensures Visits(n, w, h, interlaced)
  {
    hide RowOrder, RowsAt, Ix, NextRow;
    if n > 0 {
      CursorVisits(n - 1, w, h, interlaced);
      CursorStep(n, w, h, interlaced);
    } else {
      CursorFirst(w, h, interlaced);
    }
  }

  lemma CursorFirst(w: nat, h: nat, interlaced: bool)
    requires w > 0
    ensures Visits(0, w, h, interlaced)
  {
    hide RowOrder, Ix;
    IxStep(0, w);
    RowOfCursor(0, h, interlaced);
    if h > 0 { IxMonotone(1, h, w); }
    DivModUnique(0, w, 0);
  }

  lemma CursorStep(n: nat, w: nat, h: nat, interlaced: bool)
    requires w > 0 && n > 0 && Visits(n - 1, w, h, interlaced)
    ensures Visits(n, w, h, interlaced)
  {
    hide RowOrder, RowsAt, Ix, NextRow, CursorAt;
    PixelStep(n, w, h);
    var k, x := (n - 1) / w, (n - 1) % w;
    NextAt(n, w, h, interlaced);
    if n - 1 < Ix(h, w) {
      RowOfCursor(k, h, interlaced);
      RowsNext(k, h, interlaced);
      if n <= Ix(h, w) { RowOfCursor(n / w, h, interlaced); }
    }
  }

  lemma NextAt(n: nat, w: nat, h: nat, interlaced: bool)
    requires n > 0
    ensures CursorAt(n, w, h, interlaced) == Next(CursorAt(n - 1, w, h, interlaced), w, h)
  {
  }

  lemma RowsNext(k: nat, h: nat, interlaced: bool)
    ensures RowsAt(k + 1, h, interlaced) == NextRow(RowsAt(k, h, interlaced), h)
  {
  }

  lemma PixelStep(n: nat, w: nat, h: nat)
    requires n > 0 && w > 0
    ensures if (n - 1) % w + 1 == w then n / w == (n - 1) / w + 1 && n % w == 0
            else n / w == (n - 1) / w && n % w == (n - 1) % w + 1
    ensures (n - 1) % w < w
    ensures n < Ix(h, w) ==> n / w < h
    ensures n == Ix(h, w) ==> n / w == h && n % w == 0
    ensures n - 1 < Ix(h, w) ==> (n - 1) / w < h
  {
    var q, r := (n - 1) / w, (n - 1) % w;
    assert n - 1 == w * q + r;
    Commute(w, q);
    Distribute(q, 1, w);
    if r + 1 == w { DivModUnique(q + 1, w, 0); } else { DivModUnique(q, w, r + 1); }
    if n < Ix(h, w) { Below(n, w, h); }
    if n - 1 < Ix(h, w) { Below(n - 1, w, h); }
    DivModUnique(h, w, 0);
  }

  lemma Below(n: nat, w: nat, h: nat)
    requires w > 0 && n < Ix(h, w)
    ensures n / w < h
  {
    var q := n / w;
    assert n == w * q + n % w;
    Commute(w, q);
    if q >= h { IxMonotone(h, q, w); }
  }

  /** The first w * h positions are different pixels of the rectangle, and every pixel is one of them. */
  lemma EveryPixelOnce(w: nat, h: nat, interlaced: bool, x: nat, y: nat) returns (n: nat)
    requires x < w && y < h
    ensures n < Ix(h, w) && IsAt(n, w, h, interlaced, x, y)
    ensures forall m: nat :: m < Ix(h, w) && IsAt(m, w, h, interlaced, x, y) ==> m == n
  {
    hide RowOrder, Ix, RowsAt, CursorAt;
    EveryRowOnce(h, interlaced);
    var order := RowOrder(h, interlaced);
    assert y in order;
    var k :| 0 <= k < h && order[k] == y;
    n := Ix(k, w) + x;
    IxMonotone(k, h, w);
    DivOfIx(k, w, x);
    CursorVisits(n, w, h, interlaced);
    forall m: nat | m < Ix(h, w) && IsAt(m, w, h, interlaced, x, y)
      ensures m == n
    {
      CursorVisits(m, w, h, interlaced);
      IxOfDiv(m, w);
    }
  }

  ghost predicate IsAt(n: nat, w: nat, h: nat, interlaced: bool, x: nat, y: nat) {
    CursorAt(n, w, h, interlaced).x == x && CursorAt(n, w, h, interlaced).rows.y == y
  }

  lemma DivOfIx(k: nat, w: nat, x: nat)
    requires x < w
    ensures (Ix(k, w) + x) / w == k && (Ix(k, w) + x) % w == x
  {
    DivModUnique(k, w, x);
  }

  lemma IxOfDiv(m: nat, w: nat)
    requires w > 0
    ensures m == Ix(m / w, w) + m % w
  {
    Commute(w, m / w);
  }
}
