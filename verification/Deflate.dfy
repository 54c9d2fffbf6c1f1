/** What a compressed stream means: a bit-at-a-time reading of RFC 1951 and RFC 1950, with no
    tables, no bit buffer and no output array. `cap` is the largest output the caller can hold. */
module Deflate {
  import opened Bits
  import opened Canonical

  datatype Parsed<T> = Ok(value: T, pos: nat) | Failed

  const BITS: nat := 15

  ghost function Symbol(lens: Lengths, s: Stream, p: nat): (h: Hit)
    ensures h.Hit? ==> 0 < h.length <= BITS && h.symbol < |lens|
  {
    Lookup(lens, s, p, 0, BITS)
  }

  // ---------------------------------------------------------------------------
  // RFC 1951 section 3.2.5: length and distance symbols

  const LENGTH_BASE: seq<nat> :=
    [3, 4, 5, 6, 7, 8, 9, 10, 11, 13, 15, 17, 19, 23, 27, 31, 35, 43, 51, 59, 67, 83, 99, 115, 131, 163, 195, 227, 258]

  const LENGTH_EXTRA: seq<nat> :=
    [0, 0, 0, 0, 0, 0, 0, 0, 1, 1, 1, 1, 2, 2, 2, 2, 3, 3, 3, 3, 4, 4, 4, 4, 5, 5, 5, 5, 0]

  const DIST_BASE: seq<nat> :=
    [1, 2, 3, 4, 5, 7, 9, 13, 17, 25, 33, 49, 65, 97, 129, 193, 257, 385, 513, 769, 1025, 1537, 2049, 3073, 4097,
     6145, 8193, 12289, 16385, 24577]

  const DIST_EXTRA: seq<nat> :=
    [0, 0, 0, 0, 1, 1, 2, 2, 3, 3, 4, 4, 5, 5, 6, 6, 7, 7, 8, 8, 9, 9, 10, 10, 11, 11, 12, 12, 13, 13]

  function LengthBase(z: nat): (b: nat)
    requires z < 29
    ensures b >= 3
  {
    LENGTH_BASE[z]
  }

  function LengthExtra(z: nat): (b: nat)
    requires z < 29
    ensures b <= 5
  {
    LENGTH_EXTRA[z]
  }

  function DistBase(z: nat): (b: nat)
    requires z < 30
    ensures b >= 1
  {
    DIST_BASE[z]
  }

  function DistExtra(z: nat): (b: nat)
    requires z < 30
    ensures b <= 13
  {
    DIST_EXTRA[z]
  }

  /** Copy len bytes from dist back, one at a time, so that the copy may run into itself. */
  function Copy(out: seq<byte>, dist: nat, len: nat): (r: seq<byte>)
    requires 1 <= dist <= |out|
    ensures |r| == |out| + len
    decreases len
  {
    if len == 0 then out else Copy(out + [out[|out| - dist]], dist, len - 1)
  }

  lemma CopyNext(out: seq<byte>, dist: nat, len: nat)
    requires 1 <= dist <= |out| && len > 0
    ensures Copy(out, dist, len) == Copy(out + [out[|out| - dist]], dist, len - 1)
  {
  }

  lemma CopyNothing(out: seq<byte>, dist: nat)
    requires 1 <= dist <= |out|
    ensures Copy(out, dist, 0) == out
  {
  }

  /** The copied bytes repeat the last dist bytes. */
  lemma {:induction false} CopyIsPeriodic(out: seq<byte>, dist: nat, len: nat, i: nat)
    requires 1 <= dist <= |out| && i < len
    ensures Copy(out, dist, len)[|out| + i] == out[|out| - dist + i % dist]
    ensures Copy(out, dist, len)[..|out|] == out
    decreases len
  {
    var next := out + [out[|out| - dist]];
    assert Copy(out, dist, len) == Copy(next, dist, len - 1);
    if len == 1 {
      assert Copy(next, dist, 0) == next;
      DivModUnique(0, dist, 0);
    } else if i == 0 {
      CopyIsPeriodic(next, dist, len - 1, 0);
      assert Copy(next, dist, len - 1)[|out|] == Copy(next, dist, len - 1)[..|next|][|out|];
      DivModUnique(0, dist, 0);
    } else {
      CopyIsPeriodic(next, dist, len - 1, i - 1);
      StepMod(i, dist);
    }
    if len > 1 {
      assert Copy(next, dist, len - 1)[..|out|] == Copy(next, dist, len - 1)[..|next|][..|out|];
    }
  }

  lemma StepMod(k: nat, d: nat)
    requires k > 0 && d > 0
    ensures k % d == if (k - 1) % d == d - 1 then 0 else (k - 1) % d + 1
  {
    var q, r := (k - 1) / d, (k - 1) % d;
    assert k - 1 == d * q + r;
    if r == d - 1 {
      Distribute(q, 1, d);
      Commute(d, q);
      DivModUnique(q + 1, d, 0);
    } else {
      Commute(d, q);
      DivModUnique(q, d, r + 1);
    }
  }

  /** The tokens of a compressed block up to its end-of-block symbol, after output `out`. */
  ghost function Tokens(lit: Lengths, dst: Lengths, s: Stream, p: nat, out: seq<byte>, cap: nat): (r: Parsed<seq<byte>>)
    requires |out| <= cap
    ensures r.Ok? ==> r.pos > p && |out| <= |r.value| <= cap
    decreases cap - |out|
  {
    match Symbol(lit, s, p)
    case Miss => Failed
    case Hit(z, n) =>
      if z < 256 then
        if |out| + 1 > cap then Failed else Tokens(lit, dst, s, p + n, out + [z], cap)
      else if z == 256 then
        Ok(out, p + n)
      else if z >= 286 then
        Failed
      else
        Match(lit, dst, s, p + n, z - 257, out, cap)
  }

  /** The rest of a length-distance pair whose length symbol has just been read. */
  ghost function Match(lit: Lengths, dst: Lengths, s: Stream, p: nat, z: nat, out: seq<byte>, cap: nat)
    : (r: Parsed<seq<byte>>)
    requires |out| <= cap && z < 29
    ensures r.Ok? ==> r.pos > p + LengthExtra(z) && |out| <= |r.value| <= cap
    decreases cap - |out|, 0
  {
    var len := LengthBase(z) + Lsb(s, p, LengthExtra(z));
    var p1 := p + LengthExtra(z);
    match Symbol(dst, s, p1)
    case Miss => Failed
    case Hit(d, n) =>
      if d >= 30 then
        Failed
      else
        var dist := DistBase(d) + Lsb(s, p1 + n, DistExtra(d));
        if dist > |out| || |out| + len > cap then Failed
        else Tokens(lit, dst, s, p1 + n + DistExtra(d), Copy(out, dist, len), cap)
  }

  /** One step of the token reading, in the shape in which the parser takes it. */
  lemma TokenStep(lit: Lengths, dst: Lengths, s: Stream, p: nat, out: seq<byte>, cap: nat)
    requires |out| <= cap
    ensures var r := Tokens(lit, dst, s, p, out, cap);
      match Symbol(lit, s, p)
      case Miss => r.Failed?
      case Hit(z, n) =>
        && (z < 256 ==> r == if |out| + 1 > cap then Failed else Tokens(lit, dst, s, p + n, out + [z], cap))
        && (z == 256 ==> r == Ok(out, p + n))
        && (z >= 286 ==> r.Failed?)
        && (257 <= z < 286 ==> r == Match(lit, dst, s, p + n, z - 257, out, cap))
  {
    hide Match, Symbol;
  }

  lemma MatchStep(lit: Lengths, dst: Lengths, s: Stream, p: nat, z: nat, out: seq<byte>, cap: nat)
    requires |out| <= cap && z < 29
    ensures var r := Match(lit, dst, s, p, z, out, cap);
      var len, p1 := LengthBase(z) + Lsb(s, p, LengthExtra(z)), p + LengthExtra(z);
      match Symbol(dst, s, p1)
      case Miss => r.Failed?
      case Hit(d, n) =>
        if d >= 30 then r.Failed?
        else
          var dist := DistBase(d) + Lsb(s, p1 + n, DistExtra(d));
          if dist > |out| || |out| + len > cap then r.Failed?
          else r == Tokens(lit, dst, s, p1 + n + DistExtra(d), Copy(out, dist, len), cap)
  {
    hide Tokens, Symbol, Lsb, Copy, LengthBase, LengthExtra, DistBase, DistExtra;
  }

  // ---------------------------------------------------------------------------
  // RFC 1951 section 3.2.7: the code lengths of a dynamic block

  const ORDER: seq<nat> := [16, 17, 18, 0, 8, 7, 9, 6, 10, 5, 11, 4, 12, 3, 13, 2, 14, 1, 15]

  function Order(i: nat): (k: nat)
    requires i < 19
    ensures k < 19
  {
    ORDER[i]
  }

  /** The code length code, from n three-bit lengths. */
  ghost function MetaLengths(s: Stream, p: nat, n: nat): (m: Lengths)
    requires n <= 19
    ensures |m| == 19 && Bounded(m, 7)
  {
    if n == 0 then Replicate(0, 19)
    else
      Pow2Values();
      MetaLengths(s, p, n - 1)[Order(n - 1) := Lsb(s, p + 3 * (n - 1), 3)]
  }

  lemma MetaNone(s: Stream, p: nat)
    ensures MetaLengths(s, p, 0) == Replicate(0, 19)
  {
  }

  lemma MetaNext(s: Stream, p: nat, n: nat)
    requires n < 19
    ensures MetaLengths(s, p, n + 1) == MetaLengths(s, p, n)[Order(n) := Lsb(s, p + 3 * n, 3)]
  {
    hide Lsb, Order;
  }

  /** How a symbol of the code length code that stands for a run continues: the repeated
      length, the number of extra bits and the shortest run. */
  ghost function RunOf(c: nat, acc: Lengths): (nat, nat, nat)
    requires 16 <= c < 19 && (c == 16 ==> acc != [])
  {
    if c == 16 then (acc[|acc| - 1], 2, 3)
    else if c == 17 then (0, 3, 3)
    else (0, 7, 11)
  }

  /** Code lengths until there are total of them, acc already known. */
  ghost function ReadLengths(meta: Lengths, s: Stream, p: nat, acc: Lengths, total: nat): (r: Parsed<Lengths>)
    requires |acc| <= total && |meta| == 19 && Bounded(acc, BITS)
    ensures r.Ok? ==> |r.value| == total && Bounded(r.value, BITS) && r.pos >= p
    decreases total - |acc|
  {
    if |acc| == total then Ok(acc, p)
    else
      match Symbol(meta, s, p)
      case Miss => Failed
      case Hit(c, n) =>
        if c < 16 then
          ReadLengths(meta, s, p + n, acc + [c], total)
        else if c == 16 && acc == [] then
          Failed
        else
          var (fill, bits, base) := RunOf(c, acc);
          var run := base + Lsb(s, p + n, bits);
          if total - |acc| < run then Failed
          else ReadLengths(meta, s, p + n + bits, acc + Replicate(fill, run), total)
  }

  /** One turn of the code length loop. */
  lemma ReadStep(meta: Lengths, s: Stream, p: nat, acc: Lengths, total: nat)
    requires |acc| < total && |meta| == 19 && Bounded(acc, BITS)
    ensures var r := ReadLengths(meta, s, p, acc, total);
      r.Ok? ==> r.pos >= p
    ensures var r := ReadLengths(meta, s, p, acc, total);
      match Symbol(meta, s, p)
      case Miss => r.Failed?
      case Hit(c, n) =>
        if c < 16 then r == ReadLengths(meta, s, p + n, acc + [c], total)
        else if c == 16 && acc == [] then r.Failed?
        else
          var (fill, bits, base) := RunOf(c, acc);
          var run := base + Lsb(s, p + n, bits);
          if total - |acc| < run then r.Failed?
          else r == ReadLengths(meta, s, p + n + bits, acc + Replicate(fill, run), total)
  {
    hide Symbol, Lsb;
  }

  lemma ReadDone(meta: Lengths, s: Stream, p: nat, acc: Lengths, total: nat)
    requires |acc| == total && |meta| == 19 && Bounded(acc, BITS)
    ensures ReadLengths(meta, s, p, acc, total) == Ok(acc, p)
  {
  }

  ghost predicate Usable(lens: Lengths) {
    KraftHolds(lens, BITS)
  }

  /** The header of a dynamic block: the number of literal/length codes, and all code lengths. */
  ghost function DynamicLengths(s: Stream, p: nat): (r: Parsed<(nat, Lengths)>)
    ensures r.Ok? ==> r.pos > p && 257 <= r.value.0 <= 288 && r.value.0 < |r.value.1| <= r.value.0 + 32
    ensures r.Ok? ==> Bounded(r.value.1, BITS)
  {
    Pow2Values();
    var hlit := Lsb(s, p, 5) + 257;
    var hdist := Lsb(s, p + 5, 5) + 1;
    var hclen := Lsb(s, p + 10, 4) + 4;
    var meta := MetaLengths(s, p + 14, hclen);
    if !Usable(meta) then Failed
    else
      match ReadLengths(meta, s, p + 14 + 3 * hclen, [], hlit + hdist)
      case Failed => Failed
      case Ok(lens, q) => Ok((hlit, lens), q)
  }

  /** The two codes of a dynamic block. */
  ghost function Dynamic(s: Stream, p: nat): (r: Parsed<(Lengths, Lengths)>)
    ensures r.Ok? ==> r.pos > p && 257 <= |r.value.0| <= 288 && 1 <= |r.value.1| <= 32
    ensures r.Ok? ==> Bounded(r.value.0, BITS) && Bounded(r.value.1, BITS) && Usable(r.value.0) && Usable(r.value.1)
  {
    match DynamicLengths(s, p)
    case Failed => Failed
    case Ok((hlit, lens), q) =>
      if Usable(lens[..hlit]) && Usable(lens[hlit..]) then Ok((lens[..hlit], lens[hlit..]), q) else Failed
  }

  // ---------------------------------------------------------------------------
  // RFC 1951 sections 3.2.3, 3.2.4 and 3.2.6: blocks

  function FixedLiterals(): (lens: Lengths)
    ensures |lens| == 288 && Bounded(lens, BITS)
  {
    Replicate(8, 144) + Replicate(9, 112) + Replicate(7, 24) + Replicate(8, 8)
  }

  function FixedDistances(): (lens: Lengths)
    ensures |lens| == 32 && Bounded(lens, BITS)
  {
    Replicate(5, 32)
  }

  /** The fixed codes use up the whole code space. */
  lemma FixedCodesAccepted()
    ensures Usable(FixedLiterals()) && Usable(FixedDistances())
    ensures forall i :: 0 <= i < 288 ==> FixedLiterals()[i] == if 144 <= i < 256 then 9 else if 256 <= i < 280 then 7 else 8
    ensures forall d :: 0 <= d < 32 ==> FixedDistances()[d] == 5
  {
    hide Kraft, Pow2;
    var lit, dst := FixedLiterals(), FixedDistances();
    Pow2Values();
    Pow2Add(1, 9);
    KraftRun(lit, 0, 144, 8, BITS, 128);
    KraftRun(lit, 144, 256, 9, BITS, 64);
    KraftRun(lit, 256, 280, 7, BITS, 256);
    KraftRun(lit, 280, 288, 8, BITS, 128);
    KraftRun(dst, 0, 32, 5, BITS, 1024);
    KraftNone(lit, BITS);
    KraftNone(dst, BITS);
  }

  lemma KraftNone(lens: Lengths, m: nat)
    ensures Kraft(lens, 0, m) == 0
  {
  }

  lemma {:induction false} KraftRun(lens: Lengths, a: nat, b: nat, v: nat, m: nat, unit: nat)
    requires a <= b <= |lens| && 0 < v <= m && unit == Pow2(m - v)
    requires forall i :: a <= i < b ==> lens[i] == v
    ensures Kraft(lens, b, m) == Kraft(lens, a, m) + (b - a) * unit
  {
    hide Pow2;
    if a < b {
      KraftRun(lens, a, b - 1, v, m, unit);
      Distribute(b - 1 - a, 1, unit);
    }
  }

  ghost function ByteOf(s: Stream, i: nat): byte {
    Pow2Values();
    Lsb(s, 8 * i, 8)
  }

  ghost function BytesOf(s: Stream, i: nat, n: nat): (b: seq<byte>)
    ensures |b| == n
  {
    seq<byte>(n, k requires 0 <= k < n => ByteOf(s, i + k))
  }

  function Align(p: nat): (q: nat)
    ensures 8 * q >= p
  {
    (p + 7) / 8
  }

  /** A stored block: its four-byte header starts at the next byte boundary. */
  ghost function Stored(s: Stream, p: nat, out: seq<byte>, cap: nat): (r: Parsed<seq<byte>>)
    requires |out| <= cap
  {
    hide Lsb;
    var q := Align(p);
    var len, nlen := Lsb(s, 8 * q, 16), Lsb(s, 8 * q + 16, 16);
    if nlen != 0xFFFF - len || 8 * (q + 4 + len) > |s| || |out| + len > cap then Failed
    else Ok(out + BytesOf(s, q + 4, len), 8 * (q + 4 + len))
  }

  lemma StoredBounds(s: Stream, p: nat, out: seq<byte>, cap: nat)
    requires |out| <= cap
    ensures var r := Stored(s, p, out, cap); r.Ok? ==> p < r.pos <= |s| && |out| <= |r.value| <= cap
  {
    hide Lsb, BytesOf;
  }

  /** One block, after its final bit. */
  ghost function Block(s: Stream, p: nat, out: seq<byte>, cap: nat): (r: Parsed<seq<byte>>)
    requires |out| <= cap
    ensures r.Ok? ==> r.pos > p && |out| <= |r.value| <= cap
  {
    var kind := Lsb(s, p, 2);
    if kind == 0 then
      StoredBounds(s, p + 2, out, cap);
      Stored(s, p + 2, out, cap)
    else if kind == 3 then Failed
    else CodedBlock(kind, s, p + 2, out, cap)
  }

  /** A block with the fixed codes, kind 1, or with its own, kind 2. */
  ghost function CodedBlock(kind: nat, s: Stream, p: nat, out: seq<byte>, cap: nat): (r: Parsed<seq<byte>>)
    requires |out| <= cap
    ensures r.Ok? ==> r.pos > p && |out| <= |r.value| <= cap
  {
    if kind == 1 then
      Tokens(FixedLiterals(), FixedDistances(), s, p, out, cap)
    else
      match Dynamic(s, p)
      case Failed => Failed
      case Ok((lit, dst), q) => Tokens(lit, dst, s, q, out, cap)
  }

  lemma BlockStep(s: Stream, p: nat, out: seq<byte>, cap: nat)
    requires |out| <= cap
    ensures var kind, r := Lsb(s, p, 2), Block(s, p, out, cap);
      && kind < 4 && (kind == 0 ==> r == Stored(s, p + 2, out, cap)) && (kind == 3 ==> r.Failed?)
      && (1 <= kind < 3 ==> r == CodedBlock(kind, s, p + 2, out, cap))
  {
    hide Stored, CodedBlock, Lsb, Pow2;
    Pow2Values();
  }

  /** No block starts past the end of the input: the zeros there are a stored block with a bad header. */
  lemma NoBlockPastEnd(s: Stream, p: nat, out: seq<byte>, cap: nat)
    requires p >= |s| && |out| <= cap
    ensures Block(s, p, out, cap).Failed?
  {
    LsbPastEnd(s, p, 2);
  }

  /** Blocks up to and including the first one marked final. */
  ghost function Blocks(s: Stream, p: nat, out: seq<byte>, cap: nat): (r: Parsed<seq<byte>>)
    requires |out| <= cap
    ensures r.Ok? ==> r.pos > p && |out| <= |r.value| <= cap
    decreases if p < |s| then |s| - p else 0
  {
    var r := Block(s, p + 1, out, cap);
    if r.Ok? && Lsb(s, p, 1) == 0 then
      if p + 1 < |s| then
        Blocks(s, r.pos, r.value, cap)
      else
        NoBlockPastEnd(s, p + 1, out, cap);
        Failed
    else
      r
  }

  lemma BlocksStep(s: Stream, p: nat, out: seq<byte>, cap: nat)
    requires |out| <= cap
    ensures var r, b := Blocks(s, p, out, cap), Block(s, p + 1, out, cap);
      if b.Ok? && Lsb(s, p, 1) == 0 then
        p + 1 < |s| && r == Blocks(s, b.pos, b.value, cap) && (r.Ok? ==> r.pos > b.pos)
      else r == b
  {
    hide Lsb, Block;
    if p + 1 >= |s| { NoBlockPastEnd(s, p + 1, out, cap); }
  }

  /** RFC 1950 section 2.2, without a preset dictionary. */
  ghost predicate ZlibHeader(data: seq<byte>) {
    && |data| > 2
    && var cmf: int, flg: int := data[0], data[1];
      (cmf * 256 + flg) % 31 == 0 && flg / 32 % 2 == 0 && cmf % 16 == 8
  }

  /** The whole stream, with or without the zlib header. */
  ghost function Inflate(data: seq<byte>, header: bool, cap: nat): Parsed<seq<byte>> {
    if header then
      if ZlibHeader(data) then Blocks(ToBits(data), 16, [], cap) else Failed
    else
      Blocks(ToBits(data), 0, [], cap)
  }
}
