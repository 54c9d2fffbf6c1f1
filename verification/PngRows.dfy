/** The row loops of stbi__create_png_image_raw: unfiltering into the output array, with and without
    room for an alpha channel. What the array holds is described by predicates on its contents. */
module PngRows {
  import opened Bits
  import opened Filters

  ghost predicate SameOutside(a: seq<byte>, b: seq<byte>, lo: nat, hi: nat) {
    |a| == |b| && forall t :: 0 <= t < |a| && !(lo <= t < hi) ==> a[t] == b[t]
  }

  lemma SameTwice(a: seq<byte>, b: seq<byte>, c: seq<byte>, lo: nat, hi: nat, lo': nat, hi': nat)
    requires SameOutside(b, a, lo, hi) && SameOutside(c, b, lo', hi') && lo <= lo' && hi' <= hi
    ensures SameOutside(c, a, lo, hi)
  {
  }

  lemma SameSelf(a: seq<byte>, lo: nat, hi: nat)
    ensures SameOutside(a, a, lo, hi)
  {
  }

  lemma SameUpdate(a: seq<byte>, i: nat, v: byte, lo: nat, hi: nat)
    requires lo <= i < hi <= |a|
    ensures SameOutside(a[i := v], a, lo, hi)
  {
  }

  lemma SliceOfSlice(a: seq<byte>, base: nat, n: nat, i: nat, k: nat)
    requires i + k <= n && base + n <= |a|
    ensures a[base..base + n][i..i + k] == a[base + i..base + i + k]
  {
    var b, c := a[base..base + n][i..i + k], a[base + i..base + i + k];
    assert forall t :: 0 <= t < k ==> b[t] == c[t];
  }

  lemma SliceUntouched(a: seq<byte>, b: seq<byte>, lo: nat, hi: nat, i: nat, k: nat)
    requires SameOutside(a, b, lo, hi) && i <= k <= |a| && (k <= lo || hi <= i)
    ensures a[i..k] == b[i..k]
  {
  }

  // ---------------------------------------------------------------------------
  // Rows without inserted alpha, and packed rows

  /** The bytes above: n of them, one stride before base, or zeros on the first row. */
  ghost predicate AboveIs(s: seq<byte>, base: nat, stride: nat, first: bool, prior: seq<byte>) {
    if first then prior == ZeroRow(|prior|)
    else |prior| <= stride <= base <= |s| && s[base - stride..base - stride + |prior|] == prior
  }

  /** The first k bytes of the row stand at base, below prior. */
  ghost predicate FlatState(s: seq<byte>, base: nat, stride: nat, first: bool, prior: seq<byte>, row: seq<byte>, k: nat) {
    && k <= |row| == |prior| && base + |row| <= |s| && AboveIs(s, base, stride, first, prior)
    && s[base..base + k] == row[..k]
  }

  /** The first bpp bytes have no left neighbour; then the rest of the row. */
  method FlatRow(out: array<byte>, base: nat, stride: nat, first: bool, kind: nat, raw: seq<byte>, bpp: nat, ghost prior: seq<byte>)
    requires kind <= 4 && 0 < bpp <= |raw| == |prior| && base + |raw| <= out.Length
    requires AboveIs(out[..], base, stride, first, prior)
    modifies out
    ensures out[base..base + |raw|] == Unfilter(kind, raw, prior, bpp, |raw|)
    ensures SameOutside(out[..], old(out[..]), base, base + |raw|)
  {
    hide Unfilter, SameOutside, AboveIs, FlatState;
    ghost var row := Unfilter(kind, raw, prior, bpp, |raw|);
    FlatStart(out[..], base, stride, first, prior, row);
    SameSelf(out[..], base, base + |raw|);
    var k := 0;
    while k < bpp
      invariant k <= bpp && FlatState(out[..], base, stride, first, prior, row, k)
      invariant SameOutside(out[..], old(out[..]), base, base + |raw|)
    {
      FlatByte(out, base, stride, first, kind, raw, bpp, k, prior, row, old(out[..]));
      k := k + 1;
    }
    while k < |raw|
      invariant bpp <= k <= |raw| && FlatState(out[..], base, stride, first, prior, row, k)
      invariant SameOutside(out[..], old(out[..]), base, base + |raw|)
    {
      FlatByte(out, base, stride, first, kind, raw, bpp, k, prior, row, old(out[..]));
      k := k + 1;
    }
    FlatEnd(out[..], base, stride, first, prior, row);
  }

  lemma FlatStart(s: seq<byte>, base: nat, stride: nat, first: bool, prior: seq<byte>, row: seq<byte>)
    requires |row| == |prior| && base + |row| <= |s| && AboveIs(s, base, stride, first, prior)
    ensures FlatState(s, base, stride, first, prior, row, 0)
  {
  }

  lemma FlatEnd(s: seq<byte>, base: nat, stride: nat, first: bool, prior: seq<byte>, row: seq<byte>)
    requires FlatState(s, base, stride, first, prior, row, |row|)
    ensures s[base..base + |row|] == row
  {
  }

  method FlatByte(out: array<byte>, base: nat, stride: nat, first: bool, kind: nat, raw: seq<byte>, bpp: nat, k: nat,
                  ghost prior: seq<byte>, ghost row: seq<byte>, ghost before: seq<byte>)
    requires kind <= 4 && 0 < bpp <= |raw| == |prior| && k < |raw|
    requires row == Unfilter(kind, raw, prior, bpp, |raw|)
    requires FlatState(out[..], base, stride, first, prior, row, k) && SameOutside(out[..], before, base, base + |raw|)
    modifies out
    ensures FlatState(out[..], base, stride, first, prior, row, k + 1)
    ensures SameOutside(out[..], before, base, base + |raw|)
  {
    hide Unfilter, SameOutside, ZeroRow;
    ghost var s := out[..];
    var a := if k < bpp then 0 else out[base + k - bpp];
    var b := if first then 0 else out[base + k - stride];
    var c := if first || k < bpp then 0 else out[base + k - bpp - stride];
    FlatValue(s, base, stride, first, kind, raw, bpp, k, prior, row, a, b, c);
    var f := if first then FirstRowFilter(kind) else Of(kind);
    out[base + k] := Recon(f, raw[k], a, b, c);
    assert out[..] == s[base + k := row[k]];
    FlatNext(s, base, stride, first, prior, row, k);
    SameUpdate(s, base + k, row[k], base, base + |raw|);
    SameTwice(before, s, out[..], base, base + |raw|, base, base + |raw|);
  }

  lemma FlatValue(s: seq<byte>, base: nat, stride: nat, first: bool, kind: nat, raw: seq<byte>, bpp: nat, k: nat,
                  prior: seq<byte>, row: seq<byte>, a: byte, b: byte, c: byte)
    requires kind <= 4 && 0 < bpp <= |raw| == |prior| && k < |raw|
    requires row == Unfilter(kind, raw, prior, bpp, |raw|)
    requires FlatState(s, base, stride, first, prior, row, k)
    requires a == if k < bpp then 0 else s[base + k - bpp]
    requires !first ==> b == s[base + k - stride] && c == if k < bpp then 0 else s[base + k - bpp - stride]
    ensures Recon(if first then FirstRowFilter(kind) else Of(kind), raw[k], a, b, c) == row[k]
  {
    hide Unfilter, Recon, Restore;
    if k >= bpp { assert a == s[base..base + k][k - bpp]; }
    if !first {
      assert b == s[base - stride..base - stride + |prior|][k];
      if k >= bpp { assert c == s[base - stride..base - stride + |prior|][k - bpp]; }
    }
    UnfilterAt(kind, raw, prior, bpp, |raw|, k);
    ReconRestores(kind, raw[k], a, b, c);
  }

  lemma FlatNext(s: seq<byte>, base: nat, stride: nat, first: bool, prior: seq<byte>, row: seq<byte>, k: nat)
    requires FlatState(s, base, stride, first, prior, row, k) && k < |row|
    ensures FlatState(s[base + k := row[k]], base, stride, first, prior, row, k + 1)
  {
    hide ZeroRow;
    var s' := s[base + k := row[k]];
    assert s'[base..base + k + 1] == s[base..base + k] + [row[k]];
    if !first { assert s'[base - stride..base - stride + |prior|] == s[base - stride..base - stride + |prior|]; }
  }

  // ---------------------------------------------------------------------------
  // Output lines with an alpha channel

  /** Pixel i of an output line: the fb bytes of the channels, then alpha bytes of 255. */
  ghost predicate PixelHolds(line: seq<byte>, i: nat, channels: seq<byte>, fb: nat, ob: nat, alpha: nat)
    requires fb + alpha <= ob
  {
    && Ix(i, ob) + ob <= |line| && Ix(i, fb) + fb <= |channels|
    && line[Ix(i, ob)..Ix(i, ob) + fb] == channels[Ix(i, fb)..Ix(i, fb) + fb]
    && forall t :: Ix(i, ob) + fb <= t < Ix(i, ob) + fb + alpha ==> line[t] == 255
  }

  ghost predicate Pixels(line: seq<byte>, lo: nat, hi: nat, channels: seq<byte>, fb: nat, ob: nat, alpha: nat)
    requires fb + alpha <= ob
  {
    forall i: nat :: lo <= i < hi ==> PixelHolds(line, i, channels, fb, ob, alpha)
  }

  /** A finished output line of x pixels. */
  ghost predicate LineHolds(line: seq<byte>, channels: seq<byte>, x: nat, fb: nat, ob: nat, alpha: nat)
    requires fb + alpha <= ob
  {
    |line| == Ix(x, ob) && |channels| == Ix(x, fb) && Pixels(line, 0, x, channels, fb, ob, alpha)
  }

  lemma PixelKept(a: seq<byte>, b: seq<byte>, lo: nat, hi: nat, i: nat, channels: seq<byte>, fb: nat, ob: nat, alpha: nat)
    requires fb + alpha <= ob && PixelHolds(a, i, channels, fb, ob, alpha) && SameOutside(b, a, lo, hi)
    requires hi <= Ix(i, ob) || Ix(i, ob) + fb + alpha <= lo
    ensures PixelHolds(b, i, channels, fb, ob, alpha)
  {
    hide Ix;
    assert b[Ix(i, ob)..Ix(i, ob) + fb] == a[Ix(i, ob)..Ix(i, ob) + fb];
  }

  lemma PixelBounds(i: nat, x: nat, fb: nat, ob: nat)
    requires i < x
    ensures Ix(i, ob) + ob <= Ix(x, ob) && Ix(i, fb) + fb <= Ix(x, fb)
    ensures i > 0 ==> Ix(i, ob) >= ob && Ix(i, fb) >= fb
    ensures Ix(0, ob) == 0 && Ix(0, fb) == 0
  {
    IxMonotone(i, x, ob);
    IxMonotone(i, x, fb);
    IxMonotone(0, i, ob);
    IxMonotone(0, i, fb);
    IxStep(0, ob);
    IxStep(0, fb);
  }

  /** Row state: the line above is finished, and so are the channels and first alpha byte of i pixels. */
  ghost predicate RowState(s: seq<byte>, base: nat, stride: nat, first: bool, prior: seq<byte>, row: seq<byte>,
                           x: nat, fb: nat, ob: nat, i: nat)
  {
    && i <= x && 0 < fb < ob && stride == Ix(x, ob) && |row| == |prior| == Ix(x, fb) && base + stride <= |s|
    && (if first then prior == ZeroRow(|prior|)
        else stride <= base && LineHolds(s[base - stride..base], prior, x, fb, ob, ob - fb))
    && Pixels(s[base..base + stride], 0, i, row, fb, ob, 1)
  }

  /** What one pixel needs around it: its left, upper and upper-left neighbours. */
  ghost predicate Neighbours(s: seq<byte>, cur: nat, at: nat, stride: nat, first: bool, prior: seq<byte>, row: seq<byte>, fb: nat, ob: nat)
  {
    && 0 < fb < ob && at + fb <= |row| == |prior| && cur + ob <= |s|
    && (at == 0 || (fb <= at && ob <= cur && s[cur - ob..cur - ob + fb] == row[at - fb..at]))
    && (if first then prior == ZeroRow(|prior|)
        else ob <= stride <= cur && s[cur - stride..cur - stride + fb] == prior[at..at + fb])
    && (first || at == 0 || (ob <= cur - stride && s[cur - stride - ob..cur - stride - ob + fb] == prior[at - fb..at]))
  }

  lemma RowNeighbours(s: seq<byte>, base: nat, stride: nat, first: bool, prior: seq<byte>, row: seq<byte>,
                      x: nat, fb: nat, ob: nat, i: nat)
    requires RowState(s, base, stride, first, prior, row, x, fb, ob, i) && i < x
    ensures Neighbours(s, base + Ix(i, ob), Ix(i, fb), stride, first, prior, row, fb, ob)
  {
    hide Ix, ZeroRow, PixelHolds;
    PixelBounds(i, x, fb, ob);
    PixelBounds(0, x, fb, ob);
    if !first {
      assert PixelHolds(s[base - stride..base], i, prior, fb, ob, ob - fb);
      ChannelsStand(s, base - stride, stride, i, prior, fb, ob, ob - fb);
    }
    if i > 0 {
      IxStep(i - 1, ob);
      IxStep(i - 1, fb);
      assert PixelHolds(s[base..base + stride], i - 1, row, fb, ob, 1);
      ChannelsStand(s, base, stride, i - 1, row, fb, ob, 1);
      if !first {
        assert PixelHolds(s[base - stride..base], i - 1, prior, fb, ob, ob - fb);
        ChannelsStand(s, base - stride, stride, i - 1, prior, fb, ob, ob - fb);
      }
    }
  }

  /** The channels of a pixel of the line at lo, as they stand in the array. */
  lemma ChannelsStand(s: seq<byte>, lo: nat, stride: nat, i: nat, channels: seq<byte>, fb: nat, ob: nat, alpha: nat)
    requires lo + stride <= |s| && fb + alpha <= ob && Ix(i, ob) + ob <= stride && Ix(i, fb) + fb <= |channels|
    requires PixelHolds(s[lo..lo + stride], i, channels, fb, ob, alpha)
    ensures s[lo + Ix(i, ob)..lo + Ix(i, ob) + fb] == channels[Ix(i, fb)..Ix(i, fb) + fb]
  {
    hide Ix;
    SliceOfSlice(s, lo, stride, Ix(i, ob), fb);
  }

  lemma LineSame(s: seq<byte>, s': seq<byte>, base: nat, stride: nat, lo: nat, hi: nat)
    requires SameOutside(s', s, lo, hi) && base <= lo <= hi && base + stride <= |s|
    ensures SameOutside(s'[base..base + stride], s[base..base + stride], lo - base, hi - base)
  {
  }

  lemma RowNext(s: seq<byte>, s': seq<byte>, base: nat, stride: nat, first: bool, prior: seq<byte>, row: seq<byte>,
                x: nat, fb: nat, ob: nat, i: nat)
    requires RowState(s, base, stride, first, prior, row, x, fb, ob, i) && i < x && |s'| == |s|
    requires var cur, at := base + Ix(i, ob), Ix(i, fb);
      && cur + fb < |s| && at + fb <= |row| && SameOutside(s', s, cur, cur + fb + 1)
      && s'[cur..cur + fb] == row[at..at + fb] && s'[cur + fb] == 255
    ensures RowState(s', base, stride, first, prior, row, x, fb, ob, i + 1)
    ensures SameOutside(s', s, base, base + stride)
  {
    hide Ix, ZeroRow, Pixels, PixelHolds;
    PixelBounds(i, x, fb, ob);
    var cur := base + Ix(i, ob);
    var line, line' := s[base..base + stride], s'[base..base + stride];
    if !first { SliceUntouched(s', s, cur, cur + fb + 1, base - stride, base); }
    LineSame(s, s', base, stride, cur, cur + fb + 1);
    SliceOfSlice(s', base, stride, Ix(i, ob), fb);
    assert line'[Ix(i, ob) + fb] == s'[cur + fb];
    PixelsNext(line, line', row, x, fb, ob, i);
  }

  lemma PixelsNext(line: seq<byte>, line': seq<byte>, row: seq<byte>, x: nat, fb: nat, ob: nat, i: nat)
    requires 0 < fb < ob && i < x && Ix(i, ob) + ob <= |line| == |line'| && Ix(i, fb) + fb <= |row|
    requires Pixels(line, 0, i, row, fb, ob, 1) && SameOutside(line', line, Ix(i, ob), Ix(i, ob) + fb + 1)
    requires line'[Ix(i, ob)..Ix(i, ob) + fb] == row[Ix(i, fb)..Ix(i, fb) + fb] && line'[Ix(i, ob) + fb] == 255
    ensures Pixels(line', 0, i + 1, row, fb, ob, 1)
  {
    hide Ix, SameOutside;
    forall t: nat | t < i
      ensures PixelHolds(line', t, row, fb, ob, 1)
    {
      IxMonotone(t, i, ob);
      assert PixelHolds(line, t, row, fb, ob, 1);
      PixelKept(line, line', Ix(i, ob), Ix(i, ob) + fb + 1, t, row, fb, ob, 1);
    }
    assert PixelHolds(line', i, row, fb, ob, 1);
  }

  /** The loop over the pixels of one row: fb bytes of channels, then 255 in the next byte; for 16-bit
      samples a second pass sets the low byte of each alpha sample. */
  method AlphaRow(out: array<byte>, base: nat, stride: nat, first: bool, kind: nat, raw: seq<byte>, x: nat, fb: nat, ob: nat,
                  ghost prior: seq<byte>)
    requires kind <= 4 && |raw| == |prior| && 0 < fb < ob <= fb + 2
    requires RowState(out[..], base, stride, first, prior, Unfilter(kind, raw, prior, fb, |raw|), x, fb, ob, 0)
    modifies out
    ensures LineHolds(out[base..base + stride], Unfilter(kind, raw, prior, fb, |raw|), x, fb, ob, ob - fb)
    ensures SameOutside(out[..], old(out[..]), base, base + stride)
  {
    hide Ix, Unfilter, LineHolds, Pixels, PixelHolds, SameOutside, ZeroRow, RowState, Neighbours;
    ghost var row := Unfilter(kind, raw, prior, fb, |raw|);
    RowShape(out[..], base, stride, first, prior, row, x, fb, ob, 0);
    SameSelf(out[..], base, base + stride);
    var i, cur, at := 0, base, 0;
    IxStep(0, ob);
    IxStep(0, fb);
    while i < x
      invariant i <= x && RowState(out[..], base, stride, first, prior, row, x, fb, ob, i)
      invariant cur == base + Ix(i, ob) && at == Ix(i, fb)
      invariant SameOutside(out[..], old(out[..]), base, base + stride)
    {
      ghost var s := out[..];
      RowNeighbours(s, base, stride, first, prior, row, x, fb, ob, i);
      AlphaPixel(out, cur, at, stride, first, kind, raw, fb, ob, prior, row);
      RowNext(s, out[..], base, stride, first, prior, row, x, fb, ob, i);
      RowShape(out[..], base, stride, first, prior, row, x, fb, ob, i + 1);
      SameTwice(old(out[..]), s, out[..], base, base + stride, base, base + stride);
      IxStep(i, ob);
      IxStep(i, fb);
      i, cur, at := i + 1, cur + ob, at + fb;
    }
    RowEnd(out[..], base, stride, first, prior, row, x, fb, ob);
    if ob == fb + 2 {
      LowAlpha(out, base, stride, x, fb, ob, row, old(out[..]));
    }
  }

  lemma RowShape(s: seq<byte>, base: nat, stride: nat, first: bool, prior: seq<byte>, row: seq<byte>, x: nat, fb: nat, ob: nat, i: nat)
    requires RowState(s, base, stride, first, prior, row, x, fb, ob, i)
    ensures i <= x && stride == Ix(x, ob) && |row| == Ix(x, fb) && base + stride <= |s|
  {
  }

  lemma RowEnd(s: seq<byte>, base: nat, stride: nat, first: bool, prior: seq<byte>, row: seq<byte>, x: nat, fb: nat, ob: nat)
    requires RowState(s, base, stride, first, prior, row, x, fb, ob, x)
    ensures ob == fb + 1 ==> LineHolds(s[base..base + stride], row, x, fb, ob, 1)
    ensures ob == fb + 2 ==> Pixels(s[base..base + stride], 0, x, row, fb, ob, 1)
  {
  }

  /** One pixel: each channel byte from its left, upper and upper-left neighbours, then alpha. */
  method AlphaPixel(out: array<byte>, cur: nat, at: nat, stride: nat, first: bool, kind: nat, raw: seq<byte>, fb: nat, ob: nat,
                    ghost prior: seq<byte>, ghost row: seq<byte>)
    requires kind <= 4 && |raw| == |prior| && 0 < fb && row == Unfilter(kind, raw, prior, fb, |raw|)
    requires Neighbours(out[..], cur, at, stride, first, prior, row, fb, ob)
    modifies out
    ensures cur + fb < out.Length && at + fb <= |row| && out[..][cur..cur + fb] == row[at..at + fb] && out[..][cur + fb] == 255
    ensures SameOutside(out[..], old(out[..]), cur, cur + fb + 1)
  {
    hide Unfilter, ZeroRow, Splice, SameOutside;
    ghost var s := out[..];
    ghost var pixel := row[at..at + fb];
    SpliceStart(s, cur, pixel);
    var k := 0;
    while k < fb
      invariant k <= fb && out[..] == Splice(s, cur, pixel[..k])
    {
      AlphaByte(out, cur, at, stride, first, kind, raw, fb, ob, prior, row, k, s);
      k := k + 1;
    }
    out[cur + fb] := 255;
    SpliceEnd(s, cur, pixel);
  }

  method AlphaByte(out: array<byte>, cur: nat, at: nat, stride: nat, first: bool, kind: nat, raw: seq<byte>, fb: nat, ob: nat,
                   ghost prior: seq<byte>, ghost row: seq<byte>, k: nat, ghost s: seq<byte>)
    requires kind <= 4 && |raw| == |prior| && 0 < fb && row == Unfilter(kind, raw, prior, fb, |raw|) && k < fb
    requires Neighbours(s, cur, at, stride, first, prior, row, fb, ob)
    requires out[..] == Splice(s, cur, row[at..at + fb][..k])
    modifies out
    ensures out[..] == Splice(s, cur, row[at..at + fb][..k + 1])
  {
    hide Unfilter, ZeroRow, Splice, Recon, SameOutside;
    ghost var was := out[..];
    var a := if at == 0 then 0 else out[cur + k - ob];
    var b := if first then 0 else out[cur + k - stride];
    var c := if first || at == 0 then 0 else out[cur + k - stride - ob];
    SpliceSame(s, cur, row[at..at + fb], k);
    PixelValue(s, was, cur, at, stride, first, kind, raw, fb, ob, prior, row, k, a, b, c);
    var f := if first then FirstRowFilter(kind) else Of(kind);
    out[cur + k] := Recon(f, raw[at + k], a, b, c);
    assert out[..] == was[cur + k := row[at + k]];
    SpliceNext(s, cur, row[at..at + fb], k);
  }

  /** s with x written over it at b. */
  ghost function Splice(s: seq<byte>, b: nat, x: seq<byte>): (r: seq<byte>)
    requires b + |x| <= |s|
    ensures |r| == |s|
    ensures forall t :: 0 <= t < |s| ==> r[t] == if b <= t < b + |x| then x[t - b] else s[t]
  {
    s[..b] + x + s[b + |x|..]
  }

  lemma SpliceStart(s: seq<byte>, b: nat, x: seq<byte>)
    requires b + |x| <= |s|
    ensures s == Splice(s, b, x[..0])
  {
  }

  lemma SpliceSame(s: seq<byte>, b: nat, x: seq<byte>, k: nat)
    requires b + |x| <= |s| && k < |x|
    ensures SameOutside(Splice(s, b, x[..k]), s, b, b + |x|)
  {
  }

  lemma SpliceNext(s: seq<byte>, b: nat, x: seq<byte>, k: nat)
    requires b + |x| <= |s| && k < |x|
    ensures Splice(s, b, x[..k])[b + k := x[k]] == Splice(s, b, x[..k + 1])
  {
  }

  lemma SpliceEnd(s: seq<byte>, b: nat, x: seq<byte>)
    requires b + |x| < |s|
    ensures var r := Splice(s, b, x[..|x|])[b + |x| := 255];
      r[b..b + |x|] == x && SameOutside(r, s, b, b + |x| + 1)
  {
  }

  lemma PixelValue(s: seq<byte>, w: seq<byte>, cur: nat, at: nat, stride: nat, first: bool, kind: nat, raw: seq<byte>, fb: nat, ob: nat,
                   prior: seq<byte>, row: seq<byte>, k: nat, a: byte, b: byte, c: byte)
    requires kind <= 4 && |raw| == |prior| && 0 < fb && row == Unfilter(kind, raw, prior, fb, |raw|) && k < fb
    requires Neighbours(s, cur, at, stride, first, prior, row, fb, ob) && SameOutside(w, s, cur, cur + fb)
    requires a == if at == 0 then 0 else w[cur + k - ob]
    requires !first ==> b == w[cur + k - stride]
    requires !first ==> c == if at == 0 then 0 else w[cur + k - stride - ob]
    ensures Recon(if first then FirstRowFilter(kind) else Of(kind), raw[at + k], a, b, c) == row[at + k]
  {
    hide Unfilter, Recon, Restore, Neighbours, SameOutside, ZeroRow;
    NeighbourValues(s, w, cur, at, stride, first, prior, row, fb, ob, k);
    UnfilterAt(kind, raw, prior, fb, |raw|, at + k);
    ReconRestores(kind, raw[at + k], a, b, c);
  }

  lemma NeighbourValues(s: seq<byte>, w: seq<byte>, cur: nat, at: nat, stride: nat, first: bool, prior: seq<byte>, row: seq<byte>,
                        fb: nat, ob: nat, k: nat)
    requires Neighbours(s, cur, at, stride, first, prior, row, fb, ob) && SameOutside(w, s, cur, cur + fb) && k < fb
    ensures at + k < |row| == |prior| && cur + ob <= |w|
    ensures at > 0 ==> ob <= cur && w[cur + k - ob] == Left(row, fb, at + k)
    ensures at == 0 ==> Left(row, fb, at + k) == 0 == Left(prior, fb, at + k)
    ensures if first then prior[at + k] == 0 && Left(prior, fb, at + k) == 0 else stride <= cur && w[cur + k - stride] == prior[at + k]
    ensures !first && at > 0 ==> ob <= cur - stride && w[cur + k - stride - ob] == Left(prior, fb, at + k)
  {
    hide ZeroRow;
    if at > 0 {
      assert s[cur + k - ob] == s[cur - ob..cur - ob + fb][k];
      if !first { assert s[cur + k - stride - ob] == s[cur - stride - ob..cur - stride - ob + fb][k]; }
    }
    if !first { assert s[cur + k - stride] == s[cur - stride..cur - stride + fb][k]; }
  }

  /** The second pass over a 16-bit row. */
  method LowAlpha(out: array<byte>, base: nat, stride: nat, x: nat, fb: nat, ob: nat, ghost row: seq<byte>, ghost before: seq<byte>)
    requires ob == fb + 2 && stride == Ix(x, ob) && |row| == Ix(x, fb) && base + stride <= out.Length
    requires Pixels(out[..][base..base + stride], 0, x, row, fb, ob, 1)
    requires SameOutside(out[..], before, base, base + stride)
    modifies out
    ensures LineHolds(out[base..base + stride], row, x, fb, ob, 2)
    ensures SameOutside(out[..], before, base, base + stride)
  {
    hide Ix, SameOutside, PixelHolds;
    var i, cur := 0, base;
    IxStep(0, ob);
    while i < x
      invariant i <= x && cur == base + Ix(i, ob)
      invariant SameOutside(out[..], before, base, base + stride)
      invariant Pixels(out[..][base..base + stride], 0, i, row, fb, ob, 2)
      invariant Pixels(out[..][base..base + stride], i, x, row, fb, ob, 1)
    {
      ghost var s := out[..];
      PixelBounds(i, x, fb, ob);
      out[cur + fb + 1] := 255;
      assert out[..] == s[cur + fb + 1 := 255];
      LowAlphaStep(s, base, stride, row, x, fb, ob, i);
      SameTwice(before, s, out[..], base, base + stride, base, base + stride);
      IxStep(i, ob);
      i, cur := i + 1, cur + ob;
    }
    assert out[..][base..base + stride] == out[base..base + stride];
  }

  lemma LowAlphaStep(s: seq<byte>, base: nat, stride: nat, row: seq<byte>, x: nat, fb: nat, ob: nat, i: nat)
    requires ob == fb + 2 && i < x && stride == Ix(x, ob) && base + stride <= |s| && base + Ix(i, ob) + ob <= base + stride
    requires Pixels(s[base..base + stride], 0, i, row, fb, ob, 2) && Pixels(s[base..base + stride], i, x, row, fb, ob, 1)
    ensures var s' := s[base + Ix(i, ob) + fb + 1 := 255];
      && Pixels(s'[base..base + stride], 0, i + 1, row, fb, ob, 2) && Pixels(s'[base..base + stride], i + 1, x, row, fb, ob, 1)
      && SameOutside(s', s, base, base + stride)
  {
    hide Ix;
    var k := Ix(i, ob) + fb + 1;
    var line, line' := s[base..base + stride], s[base + k := 255][base..base + stride];
    assert line' == line[k := 255];
    forall t: nat | t < i
      ensures PixelHolds(line', t, row, fb, ob, 2)
    {
      IxMonotone(t, i, ob);
      assert PixelHolds(line, t, row, fb, ob, 2);
      PixelKept(line, line', k, k + 1, t, row, fb, ob, 2);
    }
    forall t: nat | i < t < x
      ensures PixelHolds(line', t, row, fb, ob, 1)
    {
      IxMonotone(i, t, ob);
      assert PixelHolds(line, t, row, fb, ob, 1);
      PixelKept(line, line', k, k + 1, t, row, fb, ob, 1);
    }
    assert PixelHolds(line, i, row, fb, ob, 1);
    assert line'[Ix(i, ob)..Ix(i, ob) + fb] == line[Ix(i, ob)..Ix(i, ob) + fb];
    assert PixelHolds(line', i, row, fb, ob, 2);
  }
}
