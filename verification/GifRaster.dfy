/** stbi__gif: the raster of one GIF frame. The dictionary is a forest of one-letter links that is
    printed by recursion, the codes are taken out of a word that is filled a byte at a time, and the
    pixels go straight to their places. It is proved against the decoder of GifLzw, which keeps
    strings, and the painting of GifPaint, which knows where pixel n lies. */
module GifRaster {
  import opened Bits
  import opened Words
  import opened GifOrder
  import opened GifLzw
  import opened GifBlocks
  import opened GifPaint

  /** stbi__gif_lzw */
  datatype Entry = Entry(prefix: int, first: byte, suffix: byte)

  /** The string of a code. */
  function Str(codes: seq<Entry>, c: nat): (s: seq<byte>)
    ensures c < |codes| ==> s != []
    decreases c
  {
    if c >= |codes| then []
    else (if 0 <= codes[c].prefix < c then Str(codes, codes[c].prefix) else []) + [codes[c].suffix]
  }

  /** From c the prefixes lead down to a code without one, each smaller than the last. */
  ghost predicate Descends(codes: seq<Entry>, c: nat)
    decreases c
  {
    && c < |codes| && -1 <= codes[c].prefix < c
    && (codes[c].prefix >= 0 ==> Descends(codes, codes[c].prefix))
  }

  /** Every entry in use descends, and its `first` is the first letter of its string. */
  ghost predicate Linked(codes: seq<Entry>, m: nat, n: nat) {
    n <= |codes| && forall c: nat :: c < n && IsText(c, m) ==> Live(codes, c)
  }

  ghost predicate Live(codes: seq<Entry>, c: nat) {
    Descends(codes, c) && codes[c].first == Str(codes, c)[0]
  }

  function DictOf(codes: seq<Entry>, m: nat, n: nat): (d: Dict)
    ensures |d| == n
  {
    seq<seq<byte>>(n, c requires 0 <= c => if IsText(c, m) then Str(codes, c) else [])
  }

  // ---------------------------------------------------------------------------
  // The dictionary

  lemma {:induction false} SameBelow(a: seq<Entry>, b: seq<Entry>, n: nat, c: nat)
    requires c < n <= |a| && n <= |b| && a[..n] == b[..n]
    ensures Str(a, c) == Str(b, c)
    ensures Descends(a, c) ==> Descends(b, c)
    decreases c
  {
    assert a[c] == a[..n][c] == b[..n][c] == b[c];
    if 0 <= a[c].prefix < c {
      SameBelow(a, b, n, a[c].prefix);
    }
  }

  /** The letters alone. */
  ghost predicate Letters(codes: seq<Entry>, k: nat) {
    k <= |codes| && forall c: nat :: c < k ==> codes[c] == Entry(-1, Letter(c), Letter(c))
  }

  lemma LettersFresh(codes: seq<Entry>, m: nat)
    requires Letters(codes, Pow2(m)) && Pow2(m) + 2 <= |codes|
    ensures Linked(codes, m, Pow2(m) + 2) && DictOf(codes, m, Pow2(m) + 2) == FreshDict(m)
  {
    hide Pow2, Letter;
    forall c: nat | c < Pow2(m)
      ensures Str(codes, c) == [Letter(c)] && Live(codes, c)
    {
      LetterString(codes, c);
    }
    var d, f := DictOf(codes, m, Pow2(m) + 2), FreshDict(m);
    forall c | 0 <= c < |f| ensures d[c] == f[c] {
    }
  }

  lemma LetterString(codes: seq<Entry>, c: nat)
    requires c < |codes| && codes[c] == Entry(-1, Letter(c), Letter(c))
    ensures Str(codes, c) == [Letter(c)] && Live(codes, c)
  {
  }

  lemma LettersKept(a: seq<Entry>, b: seq<Entry>, n: nat, k: nat)
    requires k <= n <= |a| && n <= |b| && a[..n] == b[..n] && Letters(a, k)
    ensures Letters(b, k)
  {
    forall c: nat | c < k
      ensures b[c] == Entry(-1, Letter(c), Letter(c))
    {
      assert b[c] == b[..n][c] == a[..n][c] == a[c];
    }
  }

  /** The entry n made from the last code: its string is the last string and one more letter. */
  ghost predicate Extends(a: seq<Entry>, b: seq<Entry>, n: nat, last: nat, suffix: byte) {
    && n < |a| == |b| && a[..n] == b[..n] && last < n
    && b[n] == Entry(last, a[last].first, suffix)
  }

  lemma EntryLearned(a: seq<Entry>, b: seq<Entry>, m: nat, n: nat, last: nat, suffix: byte)
    requires Extends(a, b, n, last, suffix) && Linked(a, m, n) && IsText(last, m) && Pow2(m) + 2 <= n
    ensures Linked(b, m, n + 1)
    ensures DictOf(b, m, n + 1) == DictOf(a, m, n) + [Str(a, last) + [suffix]]
    ensures forall c: nat :: c < n ==> Str(b, c) == Str(a, c)
    ensures Str(b, n) == Str(a, last) + [suffix]
  {
    hide Str, Descends, Pow2;
    forall c: nat | c < n
      ensures Str(b, c) == Str(a, c) && (IsText(c, m) ==> Live(b, c))
    {
      LiveBelow(a, b, n, c);
    }
    assert Live(a, last);
    LastEntry(a, b, n, last, suffix);
  }

  lemma LiveBelow(a: seq<Entry>, b: seq<Entry>, n: nat, c: nat)
    requires c < n <= |a| && n <= |b| && a[..n] == b[..n]
    ensures Str(a, c) == Str(b, c) && (Live(a, c) ==> Live(b, c))
  {
    SameBelow(a, b, n, c);
    assert a[c] == a[..n][c] == b[..n][c] == b[c];
  }

  lemma LastEntry(a: seq<Entry>, b: seq<Entry>, n: nat, last: nat, suffix: byte)
    requires Extends(a, b, n, last, suffix) && Live(a, last)
    ensures Str(b, n) == Str(a, last) + [suffix] && Live(b, n)
  {
    LiveBelow(a, b, n, last);
  }

  /** The variables of the raster loop, m being the minimum code size, stand for the state st. */
  ghost predicate Holds(codes: seq<Entry>, m: nat, avail: nat, codesize: nat, oldcode: int, first: bool, st: State) {
    && Good(st, m) && Pow2(m) + 2 <= avail <= LIMIT == |codes|
    && st.dict == DictOf(codes, m, avail) && Linked(codes, m, avail) && Letters(codes, Pow2(m))
    && st.width == codesize && st.cleared == !first && -1 <= oldcode < avail
    && if oldcode < 0 then st.last == [] else IsText(oldcode, m) && st.last == Str(codes, oldcode)
  }

  lemma HoldsFresh(codes: seq<Entry>, m: nat)
    requires Letters(codes, Pow2(m)) && Pow2(m) + 2 <= LIMIT == |codes|
    ensures Holds(codes, m, Pow2(m) + 2, m + 1, -1, true, Start(m))
    ensures Holds(codes, m, Pow2(m) + 2, m + 1, -1, false, Cleared(m))
  {
    hide DictOf, FreshDict, Pow2, Letters, Linked;
    LettersFresh(codes, m);
    FreshIsGood(m);
  }

  /** What the branch for a code with a string tests is whether the code is legal. */
  lemma HoldsLegal(codes: seq<Entry>, m: nat, avail: nat, codesize: nat, oldcode: int, first: bool, st: State, code: nat)
    requires Holds(codes, m, avail, codesize, oldcode, first, st)
    ensures Legal(st, code) <==>
      !first && code <= avail && if oldcode < 0 then code != avail else avail < LIMIT
  {
  }

  /** A code right after a clear. */
  lemma HoldsFirst(codes: seq<Entry>, m: nat, avail: nat, codesize: nat, oldcode: int, st: State, code: nat)
    requires Holds(codes, m, avail, codesize, oldcode, false, st)
    requires oldcode < 0 && IsText(code, m) && Legal(st, code)
    ensures Descends(codes, code) && Str(codes, code) == Text(st, code, m)
    ensures Holds(codes, m, avail, Widen(codesize, avail), code, false, GifLzw.Advance(st, code, m))
  {
    hide Str, Descends, Pow2, FreshDict, Widen;
    assert Live(codes, code);
    assert st.dict[code] == Str(codes, code);
  }

  /** A code that makes an entry of the last string and its own first letter. The entry is made before
      the code is looked up, so it may be the code's own. */
  lemma HoldsNext(a: seq<Entry>, b: seq<Entry>, m: nat, avail: nat, codesize: nat, oldcode: nat, st: State, code: nat, suffix: byte)
    requires Holds(a, m, avail, codesize, oldcode, false, st)
    requires IsText(code, m) && Legal(st, code) && Extends(a, b, avail, oldcode, suffix)
    requires suffix == if code == avail then a[oldcode].first else a[code].first
    ensures Descends(b, code) && Str(b, code) == Text(st, code, m)
    ensures Holds(b, m, avail + 1, Widen(codesize, avail + 1), code, false, GifLzw.Advance(st, code, m))
  {
    hide Str, Descends, Pow2, FreshDict, Letters, Widen;
    EntryLearned(a, b, m, avail, oldcode, suffix);
    LettersKept(a, b, avail, Pow2(m));
    assert Live(a, oldcode) && Live(b, code);
    if code < avail {
      assert Live(a, code);
      assert st.dict[code] == Str(a, code);
    }
    assert Text(st, code, m)[0] == suffix;
  }

  // ---------------------------------------------------------------------------
  // The input

  /** The in-memory part of stbi__context. */
  class Context {
    const data: seq<byte>
    var pos: nat

    constructor (data: seq<byte>)
      ensures this.data == data && pos == 0
    {
      this.data := data;
      pos := 0;
    }

    method Get8() returns (b: byte)
      modifies `pos
      ensures b == ByteAt(data, old(pos))
      ensures pos == After(data, old(pos))
    {
      if pos < |data| {
        b := data[pos];
        pos := pos + 1;
      } else {
        b := 0;
      }
    }

    method Skip(n: nat)
      modifies `pos
      ensures pos == old(pos) + n
    {
      pos := pos + n;
    }
  }

  /** The buffered bits are the bits of the payload from p on, and behind them comes what is still to be
      read in the file: len more bytes of this sub-block, then the other sub-blocks. */
  ghost predicate Buffered(payload: seq<byte>, data: seq<byte>, pos: nat, len: nat, end: nat, p: nat, k: nat, bits: nat, valid: nat) {
    && p + valid == 8 * k && k <= |payload|
    && bits == Lsb(ToBits(payload), p, valid)
    && payload[k..] == Rest(data, pos, len)
    && Clip(data, Past(data, pos + len)) == end
  }

  lemma BufferedStart(data: seq<byte>, p: nat)
    ensures Buffered(Payload(data, p), data, p, 0, Clip(data, Past(data, p)), 0, 0, 0, 0)
  {
    assert Rest(data, p, 0) == Payload(data, p);
  }

  /** Entering a sub-block: when there is none, nothing is left of the payload. */
  lemma BufferedOpen(payload: seq<byte>, data: seq<byte>, pos: nat, end: nat, p: nat, k: nat, bits: nat, valid: nat)
    requires Buffered(payload, data, pos, 0, end, p, k, bits, valid)
    ensures var n, q := ByteAt(data, pos), After(data, pos);
      if n == 0 then p + valid == |ToBits(payload)| && Clip(data, q) == end
      else Buffered(payload, data, q, n, end, p, k, bits, valid)
  {
    hide Lsb, Payload, Past, Bytes;
    RestOpen(data, pos);
    assert Rest(data, pos, 0) == Payload(data, pos);
  }

  lemma BufferedByte(payload: seq<byte>, data: seq<byte>, pos: nat, len: nat, end: nat, p: nat, k: nat, bits: nat, valid: nat)
    requires Buffered(payload, data, pos, len, end, p, k, bits, valid) && len > 0
    ensures var q := After(data, pos);
      k < |payload|
      && Buffered(payload, data, q, len - 1, end, p, k + 1, bits + Shl(ByteAt(data, pos), valid), valid + 8)
  {
    hide Lsb, ToBits, Rest, Past, Shl;
    RestTake(data, pos, len);
    assert payload[k] == payload[k..][0] == ByteAt(data, pos);
    assert payload[k + 1..] == payload[k..][1..];
    FillStep(payload, p, valid, k);
  }

  lemma BufferSmall(payload: seq<byte>, p: nat, k: nat, bits: nat, valid: nat, data: seq<byte>, pos: nat, len: nat, end: nat)
    requires Buffered(payload, data, pos, len, end, p, k, bits, valid)
    ensures bits < Pow2(valid)
  {
  }

  lemma BufferedTake(payload: seq<byte>, data: seq<byte>, pos: nat, len: nat, end: nat, p: nat, k: nat, bits: nat, valid: nat, n: nat)
    requires Buffered(payload, data, pos, len, end, p, k, bits, valid) && n <= valid <= 32
    ensures MaskOf(bits, n, 32) == Lsb(ToBits(payload), p, n) && p + n <= |ToBits(payload)|
    ensures Buffered(payload, data, pos, len, end, p + n, k, RightOf(bits, n, 32), valid - n)
    ensures Clip(data, Past(data, pos + len)) == end
  {
    hide Lsb, ToBits, Rest, Past, Low, Shr, MaskOf, RightOf, Pow2;
    LsbTake(ToBits(payload), p, n, valid);
    Pow2Monotone(valid, 32);
    MaskNumber(bits, n, 32);
    RightNumber(bits, n, 32);
  }

  // ---------------------------------------------------------------------------
  // The cursor

  lemma HalfStep(p: nat, line: nat)
    requires p > 0
    ensures Ix(Pow2(p), line) / 2 == Ix(Pow2(p) / 2, line)
  {
    var k := Pow2(p - 1);
    assert Pow2(p) == k + k && Pow2(p) / 2 == k;
    Distribute(k, k, line);
  }

  lemma RowsAdd(a: nat, b: nat, line: nat)
    ensures Ix(a + b, line) == Ix(a, line) + Ix(b, line)
  {
    Distribute(a, b, line);
  }

  /** Comparing byte offsets of rows compares the rows. */
  lemma RowsCompare(a: nat, b: nat, line: nat)
    requires line > 0
    ensures Ix(a, line) >= Ix(b, line) <==> a >= b
  {
    if a >= b { IxMonotone(b, a, line); } else { IxMonotone(a, b, line); }
  }

  lemma ByteOfPixel(row: nat, column: nat, width: nat)
    ensures Ix(row, 4 * width) + 4 * column == 4 * (Ix(row, width) + column)
  {
    Assoc(row, 4, width);
    Assoc(4, row, width);
  }

  class Gif {
    const w: nat
    const h: nat
    const codes: array<Entry>
    const out: array<byte>
    const history: array<byte>
    var colorTable: array<byte>
    var parse: nat
    var step: nat
    var startX: nat
    var startY: nat
    var maxX: nat
    var maxY: nat
    var curX: nat
    var curY: nat
    var lineSize: nat

    ghost var rect: Rect
    ghost var base: seq<byte>     // the image before this frame
    ghost var before: seq<byte>   // the history before this frame
    ghost var emitted: seq<byte>  // the indices of this frame so far

    /** An image of transparent black. */
    constructor (w: nat, h: nat)
      ensures Shape() && this.w == w && this.h == h
      ensures (forall i :: 0 <= i < out.Length ==> out[i] == 0) && forall i :: 0 <= i < history.Length ==> history[i] == 0
      ensures fresh(out) && fresh(history) && fresh(colorTable) && fresh(codes)
    {
      this.w, this.h := w, h;
      codes := new Entry[LIMIT];
      out := new byte[4 * Ix(h, w)](_ => 0);
      history := new byte[Ix(h, w)](_ => 0);
      colorTable := new byte[1024](_ => 0);
    }

    ghost predicate Shape()
      reads `colorTable
    {
      && codes.Length == LIMIT && colorTable.Length == 1024
      && out.Length == 4 * Ix(h, w) && history.Length == Ix(h, w)
      && out != history && out != colorTable && history != colorTable
    }

    /** The frame of the image descriptor. */
    ghost predicate Framed()
      reads `rect, `lineSize, `startX, `startY, `maxX, `maxY
    {
      && rect.width == w && Fits(rect, h)
      && lineSize == 4 * w && startX == 4 * rect.x && startY == Ix(rect.y, lineSize)
      && maxX == 4 * (rect.x + rect.w) && maxY == Ix(rect.y + rect.h, lineSize)
    }

    ghost predicate CursorIs(c: Cursor)
      reads `rect, `lineSize, `curX, `curY, `step, `parse
    {
      && curX == 4 * (rect.x + c.x) && curY == Ix(rect.y + c.rows.y, lineSize)
      && step == Ix(c.rows.step, lineSize) && parse == c.rows.passes
    }

    ghost predicate Drawing()
      reads this, out, history, colorTable
    {
      && Shape() && Framed() && CursorIs(CursorOf(rect, |emitted|))
      && |base| == out.Length && |before| == history.Length
      && out[..] == Painted(base, colorTable[..], rect, emitted)
      && history[..] == Marked(before, rect, |emitted|)
    }

    /** The image descriptor (0x2C) up to the raster: false when the rectangle leaves the image. */
    method BeginImage(x: nat, y: nat, rw: nat, rh: nat, lflags: byte) returns (ok: bool)
      requires Shape()
      modifies `parse, `step, `startX, `startY, `maxX, `maxY, `curX, `curY, `lineSize
      modifies `rect, `base, `before, `emitted
      ensures ok <==> x + rw <= w && y + rh <= h
      ensures ok ==> Drawing() && emitted == [] && rect == Rect(w, x, y, rw, rh, lflags / 64 % 2 == 1)
      ensures ok ==> base == old(out[..]) && before == old(history[..])
    {
      hide Ix, CursorOf, Painted, Marked, Framed, CursorIs;
      if x + rw > w || y + rh > h {
        return false;
      }
      rect := Rect(w, x, y, rw, rh, lflags / 64 % 2 == 1);
      base, before, emitted := out[..], history[..], [];
      NothingPainted(base, colorTable[..], before, rect);
      SetFrame(x, y, rw, rh);
      StartCursor(rw, lflags / 64 % 2 == 1);
      ok := true;
    }

    /** The edges of the rectangle, as byte offsets. */
    method SetFrame(x: nat, y: nat, rw: nat, rh: nat)
      requires rect.x == x && rect.y == y && rect.w == rw && rect.h == rh && rect.width == w && x + rw <= w && y + rh <= h
      modifies `startX, `startY, `maxX, `maxY, `lineSize
      ensures Framed()
    {
      hide Ix;
      lineSize := 4 * w;
      startX := x * 4;
      startY := Ix(y, lineSize);
      RowsAdd(y, rh, lineSize);
      maxX := startX + rw * 4;
      maxY := startY + Ix(rh, lineSize);
    }

    /** The cursor of the descriptor; a frame without columns starts below its last row. */
    method StartCursor(rw: nat, interlaced: bool)
      requires Framed() && rw == rect.w && interlaced == rect.interlaced
      modifies `parse, `step, `curX, `curY
      ensures CursorIs(CursorOf(rect, 0))
    {
      hide Ix, CursorOf;
      FirstCursor(rect);
      curX := startX;
      curY := startY;
      if rw == 0 {
        curY := maxY;
      }
      if interlaced {
        step := Ix(8, lineSize);
        parse := 3;
      } else {
        IxStep(0, lineSize);
        step := lineSize;
        parse := 0;
      }
    }

    // -------------------------------------------------------------------------
    // stbi__out_gif_code

    /** The pixel at idx, and its mark in the history. */
    method Dot(idx: nat, suffix: byte)
      requires Shape() && idx % 4 == 0 && idx + 4 <= out.Length
      modifies out, history
      ensures out[..] == Dab(old(out[..]), idx / 4, Colour(colorTable[..], suffix))
      ensures history[..] == old(history[..])[idx / 4 := 1]
    {
      history[idx / 4] := 1;
      var c := 4 * suffix;
      if colorTable[c + 3] > 128 {
        out[idx] := colorTable[c + 2];
        out[idx + 1] := colorTable[c + 1];
        out[idx + 2] := colorTable[c];
        out[idx + 3] := colorTable[c + 3];
      }
    }

    /** To the next pixel of the raster. */
    method Advance(ghost c: Cursor)
      requires Framed() && CursorIs(c) && c.rows.y < rect.h && lineSize > 0
      modifies `curX, `curY, `step, `parse
      ensures CursorIs(Next(c, rect.w, rect.h))
    {
      hide Ix, Wrap;
      curX := curX + 4;
      if curX >= maxX {
        curX := startX;
        curY := curY + step;
        RowsAdd(rect.y + c.rows.y, c.rows.step, lineSize);
        SkipPasses(c.rows.(y := c.rows.y + c.rows.step));
      }
    }

    /** At the bottom, on to the next pass that has a row. */
    method SkipPasses(ghost c: Rows)
      requires Framed() && CursorIs(Cursor(0, c)) && lineSize > 0
      modifies `curY, `step, `parse
      ensures CursorIs(Cursor(0, Wrap(c, rect.h)))
    {
      hide Framed, CursorIs, Pow2;
      ghost var at := c;
      AtBottom(at);
      while curY >= maxY && parse > 0
        invariant CursorIs(Cursor(0, at)) && Framed() && lineSize > 0 && parse == at.passes
        invariant curY >= maxY <==> at.y >= rect.h
        invariant Wrap(at, rect.h) == Wrap(c, rect.h)
        decreases at.passes
      {
        NextPass(at);
        at := Rows(Pow2(at.passes) / 2, Pow2(at.passes), at.passes - 1);
        AtBottom(at);
      }
    }

    method NextPass(ghost c: Rows)
      requires Framed() && CursorIs(Cursor(0, c)) && c.passes > 0
      modifies `curY, `step, `parse
      ensures CursorIs(Cursor(0, Rows(Pow2(c.passes) / 2, Pow2(c.passes), c.passes - 1)))
    {
      hide Ix, Pow2;
      HalfStep(parse, lineSize);
      RowsAdd(rect.y, Pow2(parse) / 2, lineSize);
      step := Ix(Pow2(parse), lineSize);
      curY := startY + step / 2;
      parse := parse - 1;
    }

    lemma AtBottom(c: Rows)
      requires Framed() && CursorIs(Cursor(0, c)) && lineSize > 0
      ensures (curY >= maxY <==> c.y >= rect.h) && parse == c.passes
    {
      hide Ix;
      RowsCompare(rect.y + c.y, rect.y + rect.h, lineSize);
    }

    /** One index: nothing once the cursor is below the rectangle. */
    method Plot(suffix: byte)
      requires Drawing()
      modifies out, history, `curX, `curY, `step, `parse, `emitted
      ensures Drawing() && emitted == old(emitted) + [suffix]
    {
      hide Ix, Dab, Colour, CursorOf, NextRow;
      ghost var n, px := |emitted|, emitted;
      emitted := emitted + [suffix];
      assert emitted[..n] == px;
      CursorNext(rect, n);
      RowOfOffset(rect, h, n, lineSize);
      if curY >= maxY {
        return;
      }
      PixelBound(rect, h, n);
      PixelAddress(rect, n);
      Dot(curX + curY, suffix);
      Advance(CursorOf(rect, n));
    }

    /** The string of a code, the prefix first. */
    method OutGifCode(code: nat)
      requires Drawing() && Descends(codes[..], code)
      modifies out, history, `curX, `curY, `step, `parse, `emitted
      ensures Drawing() && emitted == old(emitted) + Str(codes[..], code)
      decreases code
    {
      hide Painted, Marked, CursorOf, Ix;
      if codes[code].prefix >= 0 {
        OutGifCode(codes[code].prefix);
      }
      Plot(codes[code].suffix);
    }

    // -------------------------------------------------------------------------
    // stbi__process_gif_raster

    lemma Sizes()
      requires Drawing()
      ensures codes.Length == LIMIT
    {
    }

    /** The branch for a code with a string. */
    method TextCode(ghost st: State, ghost m: nat, code: nat, avail: nat, codesize: nat, oldcode: int, first: bool)
        returns (ok: bool, avail': nat, codesize': nat)
      requires Drawing() && IsText(code, m)
      requires Holds(codes[..], m, avail, codesize, oldcode, first, st)
      modifies codes, out, history, `curX, `curY, `step, `parse, `emitted
      ensures Drawing() && (ok <==> Legal(st, code))
      ensures ok ==> emitted == old(emitted) + Text(st, code, m)
      ensures ok ==> Holds(codes[..], m, avail', codesize', code, first, GifLzw.Advance(st, code, m))
      ensures !ok ==> emitted == old(emitted)
      ensures codesize <= WIDEST + 1 ==> codesize' <= WIDEST + 1
    {
      hide Holds, Painted, Marked, CursorOf, Ix, Pow2, Text, GifLzw.Advance, Legal, Str, Low, Descends;
      HoldsLegal(codes[..], m, avail, codesize, oldcode, first, st, code);
      HoldsBounds(codes[..], m, avail, codesize, oldcode, first, st);
      avail', codesize', ok := avail, codesize, false;
      if code > avail || first {
        return;
      }
      if oldcode >= 0 {
        var p := avail;
        avail' := avail + 1;
        if avail' > LIMIT {
          return;
        }
        ghost var a := codes[..];
        codes[p] := codes[p].(prefix := oldcode);
        codes[p] := codes[p].(first := codes[oldcode].first);
        // code == avail is never true here, the size having grown; codes[code] may be the new entry
        codes[p] := codes[p].(suffix := codes[code].first);
        HoldsNext(a, codes[..], m, avail, codesize, oldcode, st, code, codes[p].suffix);
      } else {
        if code == avail {
          return;
        }
        HoldsFirst(codes[..], m, avail, codesize, oldcode, st, code);
      }
      OutGifCode(code);
      if codesize <= WIDEST + 1 { WidenBound(codesize, avail'); }
      if Low(avail', codesize) == 0 && avail' <= 0xFFF {
        codesize' := codesize + 1;
      }
      ok := true;
    }

    /** Eight more bits, entering the next sub-block when this one is used up; false when there is none. */
    static method FillByte(s: Context, ghost payload: seq<byte>, len: nat, ghost end: nat, ghost p: nat, ghost k: nat, bits: nat, valid: nat)
        returns (more: bool, len': nat, bits': nat, valid': nat)
      requires Buffered(payload, s.data, s.pos, len, end, p, k, bits, valid) && valid <= 24
      modifies s
      ensures if more then k < |payload| && Buffered(payload, s.data, s.pos, len', end, p, k + 1, bits', valid') && valid' <= 32
        else p + valid == |ToBits(payload)| && Clip(s.data, s.pos) == end
    {
      hide Buffered, ToBits, Shl, Past, OrOf, LeftOf;
      BufferSmall(payload, p, k, bits, valid, s.data, s.pos, len, end);
      more, len', bits', valid' := true, len, bits, valid;
      if len == 0 {
        BufferedOpen(payload, s.data, s.pos, end, p, k, bits, valid);
        len' := s.Get8();
        if len' == 0 {
          more := false;
          return;
        }
      }
      BufferedByte(payload, s.data, s.pos, len', end, p, k, bits, valid);
      len' := len' - 1;
      var b := s.Get8();
      OrByte(bits, b, valid, 32);
      bits' := OrOf(bits, LeftOf(b, valid, 32), 32);
      valid' := valid + 8;
    }

    /** The whole raster. The result, the indices painted and the place in the file are those of the
        reference decoder on the bits of the sub-blocks. */
    method ProcessGifRaster(s: Context) returns (ok: bool)
      requires Drawing() && emitted == []
      modifies s, codes, out, history, `curX, `curY, `step, `parse, `emitted
      ensures Drawing()
      ensures var m := ByteAt(s.data, old(s.pos));
        if m > WIDEST then !ok && emitted == []
        else RasterIs(s.data, After(s.data, old(s.pos)), m, ok, emitted, s.pos)
    {
      hide Painted, Marked, CursorOf, Ix, Pow2, Holds, Buffered, Lsb, ToBits, Low, MaskOf, RightOf, Payload, Past, Decode,
        Text, Legal, GifLzw.Advance, Cleared, Drawing, RasterIs, Good, Start, Letters, Clip, After, Widen;
      var m := s.Get8();
      if m > WIDEST {
        return false;
      }
      ghost var start := s.pos;
      ghost var payload, end := Payload(s.data, start), Clip(s.data, Past(s.data, start));
      ghost var all := ToBits(payload);
      CodesFit(m);
      assert codes.Length == LIMIT by { Sizes(); }
      var clear := Pow2(m);
      EnterLetters(clear);
      HoldsFresh(codes[..], m);
      FreshIsGood(m);
      BufferedStart(s.data, start);
      var first: bool, oldcode: int := true, -1;
      var codesize: nat, avail: nat, bits: nat, valid: nat, len: nat := m + 1, clear + 2, 0, 0, 0;
      ghost var st: State, p: nat, k: nat := Start(m), 0, 0;
      ghost var whole := Decode(all, 0, m, st);
      while true
        invariant Drawing() && Holds(codes[..], m, avail, codesize, oldcode, first, st) && Good(st, m)
        invariant Buffered(payload, s.data, s.pos, len, end, p, k, bits, valid) && k <= |payload|
        invariant codesize <= WIDEST + 1 && valid <= 32
        invariant whole == Result(Decode(all, p, m, st).ok, emitted + Decode(all, p, m, st).pixels)
        decreases |payload| - k, valid
      {
        HoldsBounds(codes[..], m, avail, codesize, oldcode, first, st);
        if valid < codesize {
          var more;
          more, len, bits, valid := FillByte(s, payload, len, end, p, k, bits, valid);
          if !more {
            DecodeOut(all, p, m, st);
            RasterRead(s.data, start, m, true, emitted, s.pos);
            return true;
          }
          k := k + 1;
        } else {
          BufferedTake(payload, s.data, s.pos, len, end, p, k, bits, valid, codesize);
          var code := MaskOf(bits, codesize, 32);
          DecodeStep(all, p, m, st, code);
          bits := RightOf(bits, codesize, 32);
          valid := valid - codesize;
          ghost var q := p + codesize;
          if code == clear {
            codesize, avail, oldcode, first := m + 1, clear + 2, -1, false;
            HoldsFresh(codes[..], m);
            st := Cleared(m);
          } else if code == clear + 1 {
            SkipBlocks(s, len);
            RasterRead(s.data, start, m, true, emitted, s.pos);
            return true;
          } else {
            if Legal(st, code) { TextJoins(emitted, Text(st, code, m), Decode(all, q, m, GifLzw.Advance(st, code, m)).pixels); }
            var good;
            good, avail, codesize := TextCode(st, m, code, avail, codesize, oldcode, first);
            if !good {
              RasterRead(s.data, start, m, false, emitted, s.pos);
              return false;
            }
            oldcode := code;
            st := GifLzw.Advance(st, code, m);
          }
          p := q;
        }
      }
    }

    /** Everything up to and including the block that ends the image. */
    method SkipBlocks(s: Context, n: nat)
      modifies s
      ensures Clip(s.data, s.pos) == Clip(s.data, Past(s.data, old(s.pos) + n))
    {
      hide Past;
      s.Skip(n);
      ghost var end := Clip(s.data, Past(s.data, s.pos));
      while true
        invariant Clip(s.data, Past(s.data, s.pos)) == end
        decreases if s.pos < |s.data| then |s.data| - s.pos else 0
      {
        PayloadStep(s.data, s.pos, ByteAt(s.data, s.pos), s.pos + 1 + ByteAt(s.data, s.pos));
        var len := s.Get8();
        if len == 0 {
          return;
        }
        s.Skip(len);
      }
    }

    /** The code of every letter. */
    method EnterLetters(clear: nat)
      requires codes.Length == LIMIT && clear <= LIMIT
      modifies codes
      ensures Letters(codes[..], clear)
    {
      var init: nat := 0;
      while init < clear
        invariant init <= clear && forall c: nat :: c < init ==> codes[c] == Entry(-1, Letter(c), Letter(c))
      {
        codes[init] := Entry(-1, Letter(init), Letter(init));
        init := init + 1;
      }
    }
  }

  /** What reading a raster from position p of the file amounts to. */
  ghost predicate RasterIs(data: seq<byte>, p: nat, m: nat, ok: bool, emitted: seq<byte>, pos: nat) {
    FreshIsGood(m);
    && Result(ok, emitted) == Decode(ToBits(Payload(data, p)), 0, m, Start(m))
    && (ok ==> Clip(data, pos) == Clip(data, Past(data, p)))
  }

  lemma RasterRead(data: seq<byte>, p: nat, m: nat, ok: bool, emitted: seq<byte>, pos: nat)
    requires Good(Start(m), m) && Decode(ToBits(Payload(data, p)), 0, m, Start(m)) == Result(ok, emitted + [])
    requires ok ==> Clip(data, pos) == Clip(data, Past(data, p))
    ensures RasterIs(data, p, m, ok, emitted, pos)
  {
    assert emitted + [] == emitted;
  }

  lemma CodesFit(m: nat)
    requires m <= WIDEST
    ensures Pow2(m) + 2 <= LIMIT
  {
    Pow2Monotone(m, WIDEST);
    Bounds(2, WIDEST);
  }

  lemma HoldsBounds(codes: seq<Entry>, m: nat, avail: nat, codesize: nat, oldcode: int, first: bool, st: State)
    requires Holds(codes, m, avail, codesize, oldcode, first, st)
    ensures avail <= LIMIT == |codes| && -1 <= oldcode < avail && codesize == st.width >= 1
    ensures Letters(codes, Pow2(m))
  {
  }

  lemma FirstCursor(r: Rect)
    ensures var c := CursorOf(r, 0);
      c.x == 0 && c.rows.y == (if r.w == 0 then r.h else 0)
      && c.rows.step == (if r.interlaced then 8 else 1) && c.rows.passes == if r.interlaced then 3 else 0
  {
  }

  lemma NothingPainted(base: seq<byte>, pal: Palette, before: seq<byte>, r: Rect)
    ensures Painted(base, pal, r, []) == base && Marked(before, r, 0) == before
  {
  }

  /** The test on byte offsets asks whether pixel n is inside. */
  lemma RowOfOffset(r: Rect, height: nat, n: nat, line: nat)
    requires Fits(r, height) && line == 4 * r.width
    ensures Ix(r.y + CursorOf(r, n).rows.y, line) >= Ix(r.y + r.h, line) <==> !Inside(r, n)
    ensures Inside(r, n) ==> line > 0
  {
    if line == 0 {
      ZeroRows(r.y + CursorOf(r, n).rows.y);
      ZeroRows(r.y + r.h);
    } else {
      RowsCompare(r.y + CursorOf(r, n).rows.y, r.y + r.h, line);
    }
  }

  lemma ZeroRows(k: nat)
    ensures Ix(k, 0) == 0
  {
    Commute(k, 0);
  }

  lemma PixelAddress(r: Rect, n: nat)
    ensures var idx := 4 * (r.x + CursorOf(r, n).x) + Ix(r.y + CursorOf(r, n).rows.y, 4 * r.width);
      idx == 4 * PixelOf(r, n)
  {
    ByteOfPixel(r.y + CursorOf(r, n).rows.y, r.x + CursorOf(r, n).x, r.width);
  }

  lemma TextJoins(a: seq<byte>, b: seq<byte>, c: seq<byte>)
    ensures a + (b + c) == a + b + c
  {
  }
}
