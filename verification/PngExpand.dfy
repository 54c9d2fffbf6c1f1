/** Samples of 1, 2 or 4 bits: unpacked into one byte each, in place, and then moved apart to make
    room for an alpha channel (the last passes of stbi__create_png_image_raw). */
module PngExpand {
  import opened Bits
  import opened PngRows

  predicate Packed(depth: nat) {
    depth == 1 || depth == 2 || depth == 4
  }

  /** Samples in one byte. */
  function Per(depth: nat): nat
    requires Packed(depth)
  {
    if depth == 1 then 8 else if depth == 2 then 4 else 2
  }

  /** The first sample of byte t. */
  function FirstOf(t: nat, depth: nat): nat
    requires Packed(depth)
  {
    if depth == 1 then 8 * t else if depth == 2 then 4 * t else 2 * t
  }

  /** The byte that holds sample q, and the place of the sample in it. */
  function ByteIx(q: nat, depth: nat): (t: nat)
    requires Packed(depth)
    ensures FirstOf(t, depth) <= q < FirstOf(t, depth) + Per(depth)
  {
    if depth == 1 then q / 8 else if depth == 2 then q / 4 else q / 2
  }

  function Place(q: nat, depth: nat): (m: nat)
    requires Packed(depth)
    ensures m < Per(depth)
  {
    q - FirstOf(ByteIx(q, depth), depth)
  }

  /** stbi__depth_scale_table for grey images, 1 for the others. */
  function Scale(depth: nat, grey: bool): nat
    requires Packed(depth)
  {
    if !grey then 1 else if depth == 1 then 0xFF else if depth == 2 then 0x55 else 0x11
  }

  /** Sample m of a byte, the leftmost in the high bits. */
  function SampleOf(b: byte, m: nat, depth: nat): (v: nat)
    requires Packed(depth) && m < Per(depth)
    ensures v < Pow2(depth)
  {
    Low(Shr(b, Shift(m, depth)), depth)
  }

  function Shift(m: nat, depth: nat): nat
    requires Packed(depth) && m < Per(depth)
  {
    if depth == 1 then 7 - m else if depth == 2 then 6 - 2 * m else 4 - 4 * m
  }

  lemma SampleIs(b: byte, m: nat, depth: nat, d: nat, e: nat)
    requires Packed(depth) && m < Per(depth) && d == Pow2(Shift(m, depth)) && e == Pow2(depth)
    ensures SampleOf(b, m, depth) == b / d % e
  {
  }

  lemma ScaledIsByte(depth: nat, grey: bool, v: nat)
    requires Packed(depth) && v < Pow2(depth)
    ensures Scale(depth, grey) * v < 256
  {
    Pow2Values();
  }

  function Scaled(depth: nat, grey: bool, v: nat): byte
    requires Packed(depth) && v < Pow2(depth)
  {
    ScaledIsByte(depth, grey, v);
    Scale(depth, grey) * v
  }

  /** The first n samples of a packed row. */
  function Unpack(row: seq<byte>, n: nat, depth: nat, grey: bool): (s: seq<byte>)
    requires Packed(depth)
    requires n <= FirstOf(|row|, depth)
    ensures |s| == n
  {
    seq<byte>(n, q requires 0 <= q < n =>
      (InRow(q, |row|, depth); Scaled(depth, grey, SampleOf(row[ByteIx(q, depth)], Place(q, depth), depth))))
  }

  lemma InRow(q: nat, w: nat, depth: nat)
    requires Packed(depth)
    requires q < FirstOf(w, depth)
    ensures ByteIx(q, depth) < w
  {
  }

  /** Bytes needed for n samples. */
  function Width(n: nat, depth: nat): (w: nat)
    requires Packed(depth)
    ensures n <= FirstOf(w, depth) < n + Per(depth)
  {
    (n * depth + 7) / 8
  }

  /** Why the expansion can run in place: when q samples have been written from the left, the byte that
      holds sample q, packed at the right end of l bytes, has not been reached. */
  lemma NotYetOverwritten(q: nat, n: nat, depth: nat, l: nat)
    requires Packed(depth) && q < n <= l
    ensures q <= l - Width(n, depth) + ByteIx(q, depth) < l
  {
  }

  // ---------------------------------------------------------------------------
  // Packing, and that unpacking undoes it

  function Get(samples: seq<nat>, q: nat): nat {
    if q < |samples| then samples[q] else 0
  }

  ghost predicate Packable(samples: seq<nat>, depth: nat) {
    forall q :: 0 <= q < |samples| ==> samples[q] < Pow2(depth)
  }

  /** The encoder's side: the byte that holds the samples from q on, missing samples being 0. */
  function PackByte(samples: seq<nat>, q: nat, depth: nat): (b: nat)
    requires Packed(depth)
  {
    if depth == 4 then 16 * Get(samples, q) + Get(samples, q + 1)
    else if depth == 2 then
      64 * Get(samples, q) + 16 * Get(samples, q + 1) + 4 * Get(samples, q + 2) + Get(samples, q + 3)
    else
      128 * Get(samples, q) + 64 * Get(samples, q + 1) + 32 * Get(samples, q + 2) + 16 * Get(samples, q + 3)
      + 8 * Get(samples, q + 4) + 4 * Get(samples, q + 5) + 2 * Get(samples, q + 6) + Get(samples, q + 7)
  }

  lemma PackedByte(samples: seq<nat>, q: nat, depth: nat, m: nat)
    requires Packed(depth) && Packable(samples, depth) && m < Per(depth)
    ensures PackByte(samples, q, depth) < 256
    ensures SampleOf(PackByte(samples, q, depth), m, depth) == Get(samples, q + m)
  {
    GetBound(samples, depth);
    Pow2Values();
    if depth == 1 {
      PackedOnes(samples, q, m);
    } else if depth == 2 {
      PackedTwos(samples, q, m);
    } else {
      PackedFours(samples, q, m);
    }
  }

  lemma PackedOnes(samples: seq<nat>, q: nat, m: nat)
    requires m < 8 && forall i: nat :: Get(samples, i) < 2
    ensures PackByte(samples, q, 1) < 256 && SampleOf(PackByte(samples, q, 1), m, 1) == Get(samples, q + m)
  {
    hide Pow2, Get, SampleOf;
    Pow2Values();
    PowZero();
    SplitBits(Get(samples, q), Get(samples, q + 1), Get(samples, q + 2), Get(samples, q + 3),
              Get(samples, q + 4), Get(samples, q + 5), Get(samples, q + 6), Get(samples, q + 7));
    SampleIs(PackByte(samples, q, 1), m, 1, [128, 64, 32, 16, 8, 4, 2, 1][m], 2);
  }

  lemma PackedTwos(samples: seq<nat>, q: nat, m: nat)
    requires m < 4 && forall i: nat :: Get(samples, i) < 4
    ensures PackByte(samples, q, 2) < 256 && SampleOf(PackByte(samples, q, 2), m, 2) == Get(samples, q + m)
  {
    hide Pow2, Get, SampleOf;
    Pow2Values();
    PowZero();
    SplitPairs(Get(samples, q), Get(samples, q + 1), Get(samples, q + 2), Get(samples, q + 3));
    SampleIs(PackByte(samples, q, 2), m, 2, [64, 16, 4, 1][m], 4);
  }

  lemma PackedFours(samples: seq<nat>, q: nat, m: nat)
    requires m < 2 && forall i: nat :: Get(samples, i) < 16
    ensures PackByte(samples, q, 4) < 256 && SampleOf(PackByte(samples, q, 4), m, 4) == Get(samples, q + m)
  {
    hide Pow2, Get, SampleOf;
    Pow2Values();
    PowZero();
    SampleIs(PackByte(samples, q, 4), m, 4, [16, 1][m], 16);
  }

  lemma SplitPairs(a: nat, b: nat, c: nat, d: nat)
    requires a < 4 && b < 4 && c < 4 && d < 4
    ensures var v := 64 * a + 16 * b + 4 * c + d;
      v < 256 && v / 64 % 4 == a && v / 16 % 4 == b && v / 4 % 4 == c && v / 1 % 4 == d
  {
    var v2, v1 := 4 * a + b, 16 * a + 4 * b + c;
    DivModUnique(a, 64, 16 * b + 4 * c + d);
    DivModUnique(v2, 16, 4 * c + d);
    DivModUnique(v1, 4, d);
    DivModUnique(a, 4, b);
    DivModUnique(v2, 4, c);
  }

  lemma PowZero()
    ensures Pow2(0) == 1
  {
  }

  lemma GetBound(samples: seq<nat>, depth: nat)
    requires Packable(samples, depth)
    ensures forall q: nat :: Get(samples, q) < Pow2(depth)
  {
  }

  lemma SplitBits(a: nat, b: nat, c: nat, d: nat, e: nat, f: nat, g: nat, h: nat)
    requires a < 2 && b < 2 && c < 2 && d < 2 && e < 2 && f < 2 && g < 2 && h < 2
    ensures var v := 128 * a + 64 * b + 32 * c + 16 * d + 8 * e + 4 * f + 2 * g + h;
      && v < 256 && v / 128 % 2 == a && v / 64 % 2 == b && v / 32 % 2 == c && v / 16 % 2 == d
      && v / 8 % 2 == e && v / 4 % 2 == f && v / 2 % 2 == g && v / 1 % 2 == h
  {
    var v4 := 8 * a + 4 * b + 2 * c + d;
    SplitFour(v4, e, f, g, h);
    SplitFour(0, a, b, c, d);
    SplitHigh(v4, 8 * e + 4 * f + 2 * g + h);
  }

  lemma SplitHigh(u: nat, low: nat)
    requires low < 16
    ensures var v := 16 * u + low; v / 32 == u / 2 && v / 64 == u / 4 && v / 128 == u / 8
  {
    DivModUnique(u / 2, 32, 16 * (u % 2) + low);
    DivModUnique(u / 4, 64, 16 * (u % 4) + low);
    DivModUnique(u / 8, 128, 16 * (u % 8) + low);
  }

  lemma SplitFour(u: nat, a: nat, b: nat, c: nat, d: nat)
    requires a < 2 && b < 2 && c < 2 && d < 2
    ensures var v := 16 * u + (8 * a + 4 * b + 2 * c + d);
      && v / 16 == u && v / 8 % 2 == a && v / 4 % 2 == b && v / 2 % 2 == c && v / 1 % 2 == d
  {
    var v3, v2, v1 := 2 * u + a, 4 * u + 2 * a + b, 8 * u + 4 * a + 2 * b + c;
    DivModUnique(u, 16, 8 * a + 4 * b + 2 * c + d);
    DivModUnique(v3, 8, 4 * b + 2 * c + d);
    DivModUnique(v2, 4, 2 * c + d);
    DivModUnique(v1, 2, d);
    DivModUnique(u, 2, a);
    DivModUnique(v3, 2, b);
    DivModUnique(v2, 2, c);
  }

  function Pack(samples: seq<nat>, depth: nat): (row: seq<nat>)
    requires Packed(depth)
    ensures |row| == Width(|samples|, depth)
  {
    seq<nat>(Width(|samples|, depth), k requires 0 <= k < Width(|samples|, depth) => PackByte(samples, FirstOf(k, depth), depth))
  }

  /** Unpacking undoes packing, up to the scaling of grey samples. */
  lemma UnpackInvertsPack(samples: seq<nat>, row: seq<byte>, depth: nat, grey: bool, q: nat)
    requires Packed(depth) && Packable(samples, depth)
    requires row == Pack(samples, depth) && q < |samples|
    ensures Unpack(row, |samples|, depth, grey)[q] == Scale(depth, grey) * samples[q]
  {
    hide PackByte, SampleOf, Scale;
    InRow(q, |row|, depth);
    PackedByte(samples, FirstOf(ByteIx(q, depth), depth), depth, Place(q, depth));
  }

  // ---------------------------------------------------------------------------
  // The expansion, in place

  /** After q samples: they stand at the left of the line of l bytes, and the bytes still needed stand
      where they were, packed at its right end. */
  ghost predicate Expanding(line: seq<byte>, row: seq<byte>, samples: seq<byte>, q: nat, t: nat)
  {
    && |row| <= |line| && q <= |samples| <= |line| && t <= |row|
    && line[..q] == samples[..q] && line[|line| - |row| + t..] == row[t..]
  }

  /** The loops over one row. Each packed byte is read again for every sample in it, while samples are
      being written to its left; the last byte may hold fewer samples than fit. */
  method ExpandRow(out: array<byte>, base: nat, l: nat, n: nat, depth: nat, grey: bool, ghost row: seq<byte>)
    requires Packed(depth) && base + l <= out.Length && n <= l
    requires |row| == Width(n, depth) <= l && out[base + l - |row|..base + l] == row
    modifies out
    ensures out[base..base + n] == Unpack(row, n, depth, grey)
    ensures SameOutside(out[..], old(out[..]), base, base + l)
  {
    hide Unpack, Width, SampleOf, Scaled, SameOutside, Expanding;
    ghost var samples := Unpack(row, n, depth, grey);
    ExpandStart(out[..], base, l, row, samples);
    SameSelf(out[..], base, base + l);
    var cur, at, k := base, base + l - Width(n, depth), n;
    while k > 0
      invariant 0 <= k <= n && cur == base + n - k && base + l - |row| <= at <= base + l
      invariant k > 0 ==> n - k == FirstOf(at - (base + l - |row|), depth)
      invariant Expanding(out[..][base..base + l], row, samples, n - k, if k > 0 then at - (base + l - |row|) else |row|)
      invariant SameOutside(out[..], old(out[..]), base, base + l)
    {
      var take := if k < Per(depth) then k else Per(depth);
      ExpandByte(out, base, l, n, depth, grey, cur, at, take, row, samples, old(out[..]));
      cur, at, k := cur + take, at + 1, k - take;
    }
    ExpandEnd(out[..], base, l, row, samples);
  }

  lemma ExpandStart(s: seq<byte>, base: nat, l: nat, row: seq<byte>, samples: seq<byte>)
    requires base + l <= |s| && |row| <= l && |samples| <= l && s[base + l - |row|..base + l] == row
    ensures Expanding(s[base..base + l], row, samples, 0, 0)
  {
    SliceOfSlice(s, base, l, l - |row|, |row|);
  }

  lemma ExpandEnd(s: seq<byte>, base: nat, l: nat, row: seq<byte>, samples: seq<byte>)
    requires base + l <= |s| && |samples| <= l && Expanding(s[base..base + l], row, samples, |samples|, |row|)
    ensures s[base..base + |samples|] == samples
  {
    SliceOfSlice(s, base, l, 0, |samples|);
  }

  /** The samples of one byte. */
  method ExpandByte(out: array<byte>, base: nat, l: nat, n: nat, depth: nat, grey: bool, cur: nat, at: nat, take: nat,
                    ghost row: seq<byte>, ghost samples: seq<byte>, ghost before: seq<byte>)
    requires Packed(depth) && base + l <= out.Length && n <= l
    requires |row| == Width(n, depth) <= l && samples == Unpack(row, n, depth, grey)
    requires base <= cur <= base + n && base + l - |row| <= at < base + l
    requires cur - base == FirstOf(at - (base + l - |row|), depth)
    requires 0 < take <= Per(depth) && take == if n - (cur - base) < Per(depth) then n - (cur - base) else Per(depth)
    requires Expanding(out[..][base..base + l], row, samples, cur - base, at - (base + l - |row|))
    requires SameOutside(out[..], before, base, base + l)
    modifies out
    ensures Expanding(out[..][base..base + l], row, samples, cur - base + take,
                      if cur - base + take < n then at - (base + l - |row|) + 1 else |row|)
    ensures SameOutside(out[..], before, base, base + l)
  {
    hide Unpack, Width, SampleOf, Scaled, SameOutside, Expanding;
    ghost var t, q := at - (base + l - |row|), cur - base;
    var m := 0;
    while m < take
      invariant m <= take
      invariant Expanding(out[..][base..base + l], row, samples, q + m, if m < take then t else if q + m < n then t + 1 else |row|)
      invariant SameOutside(out[..], before, base, base + l)
    {
      ghost var s := out[..];
      SampleValue(s, base, l, n, depth, grey, row, samples, q, m, t);
      out[cur + m] := Scaled(depth, grey, SampleOf(out[at], m, depth));
      assert out[..] == s[base + (q + m) := samples[q + m]];
      ExpandNext(s, base, l, n, depth, row, samples, q, m, t, take);
      SameUpdate(s, base + (q + m), samples[q + m], base, base + l);
      SameTwice(before, s, out[..], base, base + l, base, base + l);
      m := m + 1;
    }
  }

  lemma SampleValue(s: seq<byte>, base: nat, l: nat, n: nat, depth: nat, grey: bool, row: seq<byte>, samples: seq<byte>,
                    q: nat, m: nat, t: nat)
    requires Packed(depth) && base + l <= |s| && |row| == Width(n, depth)
    requires samples == Unpack(row, n, depth, grey) && m < Per(depth) && q == FirstOf(t, depth) && q + m < n && t < |row|
    requires Expanding(s[base..base + l], row, samples, q + m, t)
    ensures base + l - |row| + t < |s| && samples[q + m] == Scaled(depth, grey, SampleOf(s[base + l - |row| + t], m, depth))
  {
    hide Width, SampleOf, Scaled;
    assert ByteIx(q + m, depth) == t && Place(q + m, depth) == m;
    InRow(q + m, |row|, depth);
    assert s[base + l - |row| + t] == s[base..base + l][l - |row| + t..][0] == row[t..][0];
  }

  lemma ExpandNext(s: seq<byte>, base: nat, l: nat, n: nat, depth: nat, row: seq<byte>, samples: seq<byte>,
                   q: nat, m: nat, t: nat, take: nat)
    requires Packed(depth) && base + l <= |s| && |row| == Width(n, depth) && |samples| == n <= l
    requires q == FirstOf(t, depth) && q + m < n && t < |row| && m < take <= Per(depth)
    requires take == if n - q < Per(depth) then n - q else Per(depth)
    requires Expanding(s[base..base + l], row, samples, q + m, t)
    ensures var s' := s[base + (q + m) := samples[q + m]];
      Expanding(s'[base..base + l], row, samples, q + m + 1, if m + 1 < take then t else if q + m + 1 < n then t + 1 else |row|)
  {
    hide Width, FirstOf, Per;
    var t' := if m + 1 < take then t else if q + m + 1 < n then t + 1 else |row|;
    var line := s[base..base + l];
    var line' := s[base + (q + m) := samples[q + m]][base..base + l];
    assert line' == line[q + m := samples[q + m]];
    NextByte(q, m, n, depth, l, t, take);
    assert line'[..q + m + 1] == line[..q + m] + [samples[q + m]];
    assert line[l - |row| + t'..] == line[l - |row| + t..][t' - t..];
    assert line'[l - |row| + t'..] == line[l - |row| + t'..];
  }

  lemma NextByte(q: nat, m: nat, n: nat, depth: nat, l: nat, t: nat, take: nat)
    requires Packed(depth) && n <= l && q == FirstOf(t, depth) && q + m < n && t < Width(n, depth) && m < take <= Per(depth)
    requires take == if n - q < Per(depth) then n - q else Per(depth)
    ensures var t' := if m + 1 < take then t else if q + m + 1 < n then t + 1 else Width(n, depth);
      t <= t' <= Width(n, depth) && (t' < Width(n, depth) ==> q + m + 1 <= l - Width(n, depth) + t')
  {
    if q + m + 1 < n {
      NotYetOverwritten(q + m + 1, n, depth, l);
      assert ByteIx(q + m + 1, depth) == if m + 1 < take then t else t + 1;
    }
  }

  // ---------------------------------------------------------------------------
  // Alpha, from the right

  /** Pixels from i on have been moved to their place; the samples of the pixels before are untouched. */
  ghost predicate Spreading(line: seq<byte>, samples: seq<byte>, x: nat, fb: nat, i: nat) {
    && i <= x && |line| == Ix(x, fb + 1) && |samples| == Ix(x, fb) && Ix(i, fb) <= |line| && Ix(i, fb) <= |samples|
    && line[..Ix(i, fb)] == samples[..Ix(i, fb)] && Pixels(line, i, x, samples, fb, fb + 1, 1)
  }

  /** The two right-to-left loops that insert alpha, for one and three channels. */
  method InsertAlpha(out: array<byte>, base: nat, x: nat, fb: nat, ghost samples: seq<byte>)
    requires (fb == 1 || fb == 3) && base + Ix(x, fb + 1) <= out.Length && |samples| == Ix(x, fb)
    requires Ix(x, fb) <= Ix(x, fb + 1) && out[base..base + Ix(x, fb)] == samples
    modifies out
    ensures LineHolds(out[base..base + Ix(x, fb + 1)], samples, x, fb, fb + 1, 1)
    ensures SameOutside(out[..], old(out[..]), base, base + Ix(x, fb + 1))
  {
    hide Ix, Pixels, SameOutside, Spreading;
    ghost var l := Ix(x, fb + 1);
    SpreadStart(out[..], base, samples, x, fb);
    SameSelf(out[..], base, base + l);
    var q: nat := x;
    while q > 0
      invariant q <= x && Spreading(out[..][base..base + l], samples, x, fb, q)
      invariant SameOutside(out[..], old(out[..]), base, base + l)
    {
      q := q - 1;
      ghost var s := out[..];
      SpreadBounds(x, fb, q);
      var from, to := base + Ix(q, fb), base + Ix(q, fb + 1);
      MovePixel(out, from, to, fb);
      SpreadNext(s, out[..], base, samples, x, fb, q);
      SameTwice(old(out[..]), s, out[..], base, base + l, base, base + l);
    }
    SpreadEnd(out[..], base, samples, x, fb);
  }

  method MovePixel(out: array<byte>, from: nat, to: nat, fb: nat)
    requires (fb == 1 || fb == 3) && from <= to && to + fb < out.Length
    modifies out
    ensures out[..][to + fb] == 255 && out[..][to..to + fb] == old(out[..])[from..from + fb]
    ensures SameOutside(out[..], old(out[..]), to, to + fb + 1)
  {
    out[to + fb] := 255;
    if fb == 1 {
      out[to] := out[from];
    } else {
      out[to + 2] := out[from + 2];
      out[to + 1] := out[from + 1];
      out[to] := out[from];
    }
  }

  lemma SpreadBounds(x: nat, fb: nat, q: nat)
    requires q < x
    ensures Ix(q, fb) <= Ix(q, fb + 1) && Ix(q, fb) + fb <= Ix(x, fb) && Ix(q, fb + 1) + fb + 1 <= Ix(x, fb + 1)
    ensures Ix(q + 1, fb) == Ix(q, fb) + fb && Ix(q + 1, fb + 1) == Ix(q, fb + 1) + fb + 1
    ensures q > 0 ==> Ix(q, fb) < Ix(q, fb + 1)
  {
    IxMonotone(q, x, fb);
    IxMonotone(q, x, fb + 1);
    IxStep(q, fb);
    IxStep(q, fb + 1);
    Commute(q, fb + 1);
    Commute(q, fb);
    Distribute(fb, 1, q);
  }

  lemma SpreadStart(s: seq<byte>, base: nat, samples: seq<byte>, x: nat, fb: nat)
    requires base + Ix(x, fb + 1) <= |s| && |samples| == Ix(x, fb) <= Ix(x, fb + 1) && s[base..base + Ix(x, fb)] == samples
    ensures Spreading(s[base..base + Ix(x, fb + 1)], samples, x, fb, x)
  {
    hide Ix;
    SliceOfSlice(s, base, Ix(x, fb + 1), 0, Ix(x, fb));
  }

  lemma SpreadEnd(s: seq<byte>, base: nat, samples: seq<byte>, x: nat, fb: nat)
    requires base + Ix(x, fb + 1) <= |s| && Spreading(s[base..base + Ix(x, fb + 1)], samples, x, fb, 0)
    ensures LineHolds(s[base..base + Ix(x, fb + 1)], samples, x, fb, fb + 1, 1)
  {
  }

  lemma SpreadNext(s: seq<byte>, s': seq<byte>, base: nat, samples: seq<byte>, x: nat, fb: nat, q: nat)
    requires q < x && 0 < fb && base + Ix(x, fb + 1) <= |s| == |s'|
    requires Spreading(s[base..base + Ix(x, fb + 1)], samples, x, fb, q + 1)
    requires var from, to := base + Ix(q, fb), base + Ix(q, fb + 1);
      && to + fb < |s| && from + fb <= |s| && SameOutside(s', s, to, to + fb + 1)
      && s'[to + fb] == 255 && s'[to..to + fb] == s[from..from + fb]
    ensures Spreading(s'[base..base + Ix(x, fb + 1)], samples, x, fb, q)
    ensures SameOutside(s', s, base, base + Ix(x, fb + 1))
  {
    hide Ix, Spreading;
    SpreadBounds(x, fb, q);
    var l, from, to := Ix(x, fb + 1), Ix(q, fb), Ix(q, fb + 1);
    LineSame(s, s', base, l, base + to, base + to + fb + 1);
    SliceOfSlice(s', base, l, to, fb);
    SliceOfSlice(s, base, l, from, fb);
    SpreadLine(s[base..base + l], s'[base..base + l], samples, x, fb, q);
  }

  lemma SpreadLine(line: seq<byte>, line': seq<byte>, samples: seq<byte>, x: nat, fb: nat, q: nat)
    requires q < x && 0 < fb && Spreading(line, samples, x, fb, q + 1) && |line'| == |line|
    requires var from, to := Ix(q, fb), Ix(q, fb + 1);
      && to + fb < |line| && from + fb <= |line| && SameOutside(line', line, to, to + fb + 1)
      && line'[to + fb] == 255 && line'[to..to + fb] == line[from..from + fb]
    ensures Spreading(line', samples, x, fb, q)
  {
    hide Ix, PixelHolds, SameOutside;
    SpreadBounds(x, fb, q);
    var ob, from, to := fb + 1, Ix(q, fb), Ix(q, fb + 1);
    SliceUntouched(line', line, to, to + ob, 0, from);
    assert line'[..from] == line[..from + fb][..from];
    assert line[from..from + fb] == line[..from + fb][from..] == samples[from..from + fb];
    MakesPixel(line', q, samples, fb);
    forall t: nat | q < t < x
      ensures PixelHolds(line', t, samples, fb, ob, 1)
    {
      IxMonotone(q, t, ob);
      assert PixelHolds(line, t, samples, fb, ob, 1);
      PixelKept(line, line', to, to + ob, t, samples, fb, ob, 1);
    }
  }

  lemma MakesPixel(line: seq<byte>, q: nat, samples: seq<byte>, fb: nat)
    requires Ix(q, fb + 1) + fb < |line| && Ix(q, fb) + fb <= |samples| && line[Ix(q, fb + 1) + fb] == 255
    requires line[Ix(q, fb + 1)..Ix(q, fb + 1) + fb] == samples[Ix(q, fb)..Ix(q, fb) + fb]
    ensures PixelHolds(line, q, samples, fb, fb + 1, 1)
  {
    hide Ix;
  }
}
