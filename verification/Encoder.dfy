/** DEFLATE written out, and the proof that reading undoes writing.

    The encoder is a specification: it takes every decision an encoder can take (block types, match
    symbols, code lengths, run-length coding of the code lengths, padding) as part of its input. */
module Encoder {
  import opened Bits
  import opened Canonical
  import opened Deflate

  /** A literal byte, or a match by its two symbols and their extra bits. */
  datatype Token =
    | Literal(b: byte)
    | Pair(length: nat, lengthExtra: nat, dist: nat, distExtra: nat)
  {
    predicate Valid() {
      Pair? ==>
        && length < 29 && lengthExtra < Pow2(LengthExtra(length))
        && dist < 30 && distExtra < Pow2(DistExtra(dist))
    }

    function Length(): nat
      requires Pair? && Valid()
    {
      LengthBase(length) + lengthExtra
    }

    function Distance(): (d: nat)
      requires Pair? && Valid()
      ensures d >= 1
    {
      DistBase(dist) + distExtra
    }
  }

  /** A symbol of the code length code, with its extra bits. */
  datatype CodeLength =
    | Plain(length: nat)
    | Run(symbol: nat, extra: nat)
  {
    ghost predicate Valid(acc: Lengths) {
      match this
      case Plain(l) => l < 16
      case Run(c, x) => 16 <= c < 19 && (c == 16 ==> acc != []) && x < Pow2(RunOf(c, acc).1)
    }

    ghost function Apply(acc: Lengths): Lengths
      requires Valid(acc)
    {
      match this
      case Plain(l) => acc + [l]
      case Run(c, x) => var (fill, bits, base) := RunOf(c, acc); acc + Replicate(fill, base + x)
    }

    function Symbol(): nat {
      match this
      case Plain(l) => l
      case Run(c, _) => c
    }
  }

  /** The header of a dynamic block: counts, the code length code, and the coded lengths. */
  datatype Header = Header(literals: nat, distances: nat, metas: nat, meta: Lengths, ops: seq<CodeLength>)
  {
    ghost predicate Valid() {
      hide Usable;
      && 257 <= literals <= 288 && 1 <= distances <= 32 && 4 <= metas <= 19
      && |meta| == 19 && Bounded(meta, 7) && Usable(meta)
      && (forall i :: metas <= i < 19 ==> meta[Order(i)] == 0)
      && ValidOps(meta, ops, [])
      && |Lens()| == literals + distances
      && Usable(Lens()[..literals]) && Usable(Lens()[literals..])
    }

    ghost function Lens(): Lengths
      requires ValidOps(meta, ops, [])
    {
      ApplyAll(meta, ops, [])
    }
  }

  datatype BlockData =
    | StoredBlock(padding: nat, bytes: seq<byte>)
    | FixedBlock(tokens: seq<Token>)
    | DynamicBlock(header: Header, tokens: seq<Token>)

  // ---------------------------------------------------------------------------
  // Meaning

  /** Every token can be coded, and no distance reaches before the start of the output. */
  ghost predicate ValidTokens(lit: Lengths, dst: Lengths, tokens: seq<Token>, out: seq<byte>)
    decreases |tokens|
  {
    tokens != [] ==>
    var t := tokens[0];
    && t.Valid() && Coded(lit, dst, t)
    && (t.Pair? ==> t.Distance() <= |out|)
    && ValidTokens(lit, dst, tokens[1..], Step(t, out))
  }

  ghost predicate Coded(lit: Lengths, dst: Lengths, t: Token)
    requires t.Valid()
  {
    match t
    case Literal(b) => b < |lit| && lit[b] > 0
    case Pair(l, _, d, _) => 257 + l < |lit| && lit[257 + l] > 0 && d < |dst| && dst[d] > 0
  }

  ghost function Step(t: Token, out: seq<byte>): (out': seq<byte>)
    requires t.Valid() && (t.Pair? ==> t.Distance() <= |out|)
    ensures |out'| >= |out|
  {
    match t
    case Literal(b) => out + [b]
    case Pair(_, _, _, _) => Copy(out, t.Distance(), t.Length())
  }

  ghost function Expand(lit: Lengths, dst: Lengths, tokens: seq<Token>, out: seq<byte>): (out': seq<byte>)
    requires ValidTokens(lit, dst, tokens, out)
    ensures |out'| >= |out|
    decreases |tokens|
  {
    if tokens == [] then out else Expand(lit, dst, tokens[1..], Step(tokens[0], out))
  }

  ghost predicate ValidOps(meta: Lengths, ops: seq<CodeLength>, acc: Lengths)
    decreases |ops|
  {
    ops != [] ==>
    && ops[0].Valid(acc)
    && ops[0].Symbol() < |meta| && meta[ops[0].Symbol()] > 0
    && ValidOps(meta, ops[1..], ops[0].Apply(acc))
  }

  ghost function ApplyAll(meta: Lengths, ops: seq<CodeLength>, acc: Lengths): (acc': Lengths)
    requires ValidOps(meta, ops, acc)
    ensures |acc'| >= |acc|
    decreases |ops|
  {
    if ops == [] then acc else ApplyAll(meta, ops[1..], ops[0].Apply(acc))
  }

  ghost function LitCode(b: BlockData): Lengths
    requires b.FixedBlock? || (b.DynamicBlock? && b.header.Valid())
  {
    if b.FixedBlock? then FixedLiterals() else b.header.Lens()[..b.header.literals]
  }

  ghost function DistCode(b: BlockData): Lengths
    requires b.FixedBlock? || (b.DynamicBlock? && b.header.Valid())
  {
    if b.FixedBlock? then FixedDistances() else b.header.Lens()[b.header.literals..]
  }

  ghost predicate ValidBlock(b: BlockData, out: seq<byte>) {
    if b.StoredBlock? then |b.bytes| < 0x1_0000
    else
      && (b.DynamicBlock? ==> b.header.Valid())
      && ValidTokens(LitCode(b), DistCode(b), b.tokens, out)
      && LitCode(b)[256] > 0
  }

  ghost function ExpandBlock(b: BlockData, out: seq<byte>): (out': seq<byte>)
    requires ValidBlock(b, out)
    ensures |out'| >= |out|
  {
    if b.StoredBlock? then out + b.bytes else Expand(LitCode(b), DistCode(b), b.tokens, out)
  }

  ghost predicate ValidBlocks(blocks: seq<BlockData>, out: seq<byte>)
    decreases |blocks|
  {
    blocks != [] ==> ValidBlock(blocks[0], out) && ValidBlocks(blocks[1..], ExpandBlock(blocks[0], out))
  }

  ghost function ExpandBlocks(blocks: seq<BlockData>, out: seq<byte>): (out': seq<byte>)
    requires ValidBlocks(blocks, out)
    ensures |out'| >= |out|
    decreases |blocks|
  {
    if blocks == [] then out else ExpandBlocks(blocks[1..], ExpandBlock(blocks[0], out))
  }

  // ---------------------------------------------------------------------------
  // Writing

  ghost function WriteToken(lit: Lengths, dst: Lengths, t: Token): Stream
    requires t.Valid() && Coded(lit, dst, t)
  {
    match t
    case Literal(b) => CodeBits(lit, b)
    case Pair(l, x, d, y) =>
      CodeBits(lit, 257 + l) + (LittleEndian(x, LengthExtra(l)) + (CodeBits(dst, d) + LittleEndian(y, DistExtra(d))))
  }

  ghost function WriteTokens(lit: Lengths, dst: Lengths, tokens: seq<Token>, out: seq<byte>): Stream
    requires ValidTokens(lit, dst, tokens, out) && |lit| > 256 && lit[256] > 0
    decreases |tokens|
  {
    if tokens == [] then CodeBits(lit, 256)
    else WriteToken(lit, dst, tokens[0]) + WriteTokens(lit, dst, tokens[1..], Step(tokens[0], out))
  }

  ghost function WriteMeta(meta: Lengths, n: nat): (c: Stream)
    requires n <= 19 && |meta| == 19
    ensures |c| == 3 * n
  {
    if n == 0 then [] else WriteMeta(meta, n - 1) + LittleEndian(meta[Order(n - 1)], 3)
  }

  ghost function WriteOp(meta: Lengths, op: CodeLength, acc: Lengths): Stream
    requires op.Valid(acc) && op.Symbol() < |meta| && meta[op.Symbol()] > 0
  {
    match op
    case Plain(l) => CodeBits(meta, l)
    case Run(c, x) => CodeBits(meta, c) + LittleEndian(x, RunOf(c, acc).1)
  }

  ghost function WriteOps(meta: Lengths, ops: seq<CodeLength>, acc: Lengths): Stream
    requires ValidOps(meta, ops, acc)
    decreases |ops|
  {
    if ops == [] then [] else WriteOp(meta, ops[0], acc) + WriteOps(meta, ops[1..], ops[0].Apply(acc))
  }

  ghost function WriteHeader(h: Header): Stream
    requires h.Valid()
  {
    LittleEndian(h.literals - 257, 5) + (LittleEndian(h.distances - 1, 5) + (LittleEndian(h.metas - 4, 4)
    + (WriteMeta(h.meta, h.metas) + WriteOps(h.meta, h.ops, []))))
  }

  function WriteBytes(bytes: seq<byte>): (c: Stream)
    ensures |c| == 8 * |bytes|
  {
    if bytes == [] then [] else LittleEndian(bytes[0], 8) + WriteBytes(bytes[1..])
  }

  /** How many bits are left before the next byte boundary. */
  function Gap(p: nat): (g: nat)
    ensures p + g == 8 * Align(p)
  {
    8 * Align(p) - p
  }

  ghost function WriteStored(p: nat, padding: nat, bytes: seq<byte>): Stream
    requires |bytes| < 0x1_0000
  {
    LittleEndian(padding, Gap(p)) + (LittleEndian(|bytes|, 16) + (LittleEndian(0xFFFF - |bytes|, 16) + WriteBytes(bytes)))
  }

  /** Block b written at position p, after output out. */
  ghost function WriteBlock(b: BlockData, p: nat, out: seq<byte>, final: bool): Stream
    requires ValidBlock(b, out)
  {
    hide Usable, ValidTokens, Lsb;
    [final] +
    match b
    case StoredBlock(padding, bytes) =>
      LittleEndian(0, 2) + WriteStored(p + 3, padding % Pow2(Gap(p + 3)), bytes)
    case FixedBlock(tokens) =>
      LittleEndian(1, 2) + WriteTokens(LitCode(b), DistCode(b), tokens, out)
    case DynamicBlock(header, tokens) =>
      LittleEndian(2, 2) + (WriteHeader(header) + WriteTokens(LitCode(b), DistCode(b), tokens, out))
  }

  ghost function WriteBlocks(blocks: seq<BlockData>, p: nat, out: seq<byte>): Stream
    requires blocks != [] && ValidBlocks(blocks, out)
    decreases |blocks|
  {
    if |blocks| == 1 then WriteBlock(blocks[0], p, out, true)
    else
      var c := WriteBlock(blocks[0], p, out, false);
      c + WriteBlocks(blocks[1..], p + |c|, ExpandBlock(blocks[0], out))
  }

  // ---------------------------------------------------------------------------
  // Reading undoes writing

  lemma SymbolRead(lens: Lengths, s: Stream, p: nat, i: nat)
    requires Usable(lens) && i < |lens| && 0 < lens[i] <= BITS && At(s, p, CodeBits(lens, i))
    ensures Symbol(lens, s, p) == Hit(i, lens[i])
  {
    CodeFits(lens, i, BITS);
    MsbOfBigEndian(s, p, Code(lens, i), lens[i]);
    LookupFinds(lens, s, p, i, lens[i], BITS);
  }

  lemma PairRead(lit: Lengths, dst: Lengths, s: Stream, p: nat, t: Token, out: seq<byte>, cap: nat)
    requires Usable(lit) && Usable(dst) && Bounded(lit, BITS) && Bounded(dst, BITS)
    requires t.Pair? && t.Valid() && Coded(lit, dst, t) && t.Distance() <= |out| && |Step(t, out)| <= cap
    requires At(s, p, WriteToken(lit, dst, t))
    ensures Tokens(lit, dst, s, p, out, cap) == Tokens(lit, dst, s, p + |WriteToken(lit, dst, t)|, Step(t, out), cap)
  {
    hide LengthBase, LengthExtra, DistBase, DistExtra, Usable, CodeBits, LittleEndian, Copy, Tokens, Match, Deflate.Symbol;
    hide Bounded, Lsb, At, Pow2, WriteToken;
    BoundedAt(lit, 257 + t.length);
    BoundedAt(dst, t.dist);
    PairAt(lit, dst, s, p, t);
    var p1 := p + lit[257 + t.length];
    var p2 := p1 + LengthExtra(t.length);
    SymbolRead(lit, s, p, 257 + t.length);
    LsbOfLittleEndian(s, p1, t.lengthExtra, LengthExtra(t.length));
    SymbolRead(dst, s, p2, t.dist);
    LsbOfLittleEndian(s, p2 + dst[t.dist], t.distExtra, DistExtra(t.dist));
    PairStep(lit, dst, s, p, lit[257 + t.length], dst[t.dist], t, out, cap);
  }

  /** Where the four parts of a written match stand. */
  lemma PairAt(lit: Lengths, dst: Lengths, s: Stream, p: nat, t: Token)
    requires t.Pair? && t.Valid() && Coded(lit, dst, t)
    ensures var p1 := p + lit[257 + t.length];
      var p2 := p1 + LengthExtra(t.length);
      At(s, p, WriteToken(lit, dst, t)) <==>
        && At(s, p, CodeBits(lit, 257 + t.length))
        && At(s, p1, LittleEndian(t.lengthExtra, LengthExtra(t.length)))
        && At(s, p2, CodeBits(dst, t.dist))
        && At(s, p2 + dst[t.dist], LittleEndian(t.distExtra, DistExtra(t.dist)))
    ensures |WriteToken(lit, dst, t)| == lit[257 + t.length] + LengthExtra(t.length) + dst[t.dist] + DistExtra(t.dist)
  {
    hide LengthBase, LengthExtra, DistBase, DistExtra, CodeBits, LittleEndian, At, Pow2;
    var Pair(l, x, d, y) := t;
    var a, b, c := CodeBits(lit, 257 + l), LittleEndian(x, LengthExtra(l)), CodeBits(dst, d);
    var e := LittleEndian(y, DistExtra(d));
    CodeBitsLength(lit, 257 + l);
    CodeBitsLength(dst, d);
    AtSplitFour(s, p, a, b, c, e);
  }

  lemma AtSplitFour(s: Stream, p: nat, a: Stream, b: Stream, c: Stream, d: Stream)
    ensures At(s, p, a + (b + (c + d))) <==>
      At(s, p, a) && At(s, p + |a|, b) && At(s, p + |a| + |b|, c) && At(s, p + |a| + |b| + |c|, d)
  {
    hide At;
    AtSplit(s, p, a, b + (c + d));
    AtSplit(s, p + |a|, b, c + d);
    AtSplit(s, p + |a| + |b|, c, d);
  }

  /** The two symbols and the extra bits of a match, put together. */
  lemma PairStep(lit: Lengths, dst: Lengths, s: Stream, p: nat, m: nat, n: nat, t: Token, out: seq<byte>, cap: nat)
    requires t.Pair? && t.Valid() && t.Distance() <= |out| && |out| + t.Length() <= cap
    requires Symbol(lit, s, p) == Hit(257 + t.length, m)
    requires Lsb(s, p + m, LengthExtra(t.length)) == t.lengthExtra
    requires Symbol(dst, s, p + m + LengthExtra(t.length)) == Hit(t.dist, n)
    requires Lsb(s, p + m + LengthExtra(t.length) + n, DistExtra(t.dist)) == t.distExtra
    ensures Tokens(lit, dst, s, p, out, cap)
         == Tokens(lit, dst, s, p + m + LengthExtra(t.length) + n + DistExtra(t.dist), Copy(out, t.Distance(), t.Length()), cap)
  {
    hide LengthBase, LengthExtra, DistBase, DistExtra, Copy, Tokens, Match, Deflate.Symbol, Lsb, Pow2;
    TokenStep(lit, dst, s, p, out, cap);
    MatchStep(lit, dst, s, p + m, t.length, out, cap);
  }

  lemma CodeBitsLength(lens: Lengths, i: nat)
    requires i < |lens| && lens[i] > 0
    ensures |CodeBits(lens, i)| == lens[i]
  {
  }

  /** A block body that has been written is read back as its expansion. */
  lemma {:induction false} TokensRead(lit: Lengths, dst: Lengths, s: Stream, p: nat, tokens: seq<Token>, out: seq<byte>, cap: nat)
    requires Usable(lit) && Usable(dst) && Bounded(lit, BITS) && Bounded(dst, BITS) && |lit| > 256 && lit[256] > 0
    requires ValidTokens(lit, dst, tokens, out) && |Expand(lit, dst, tokens, out)| <= cap
    requires At(s, p, WriteTokens(lit, dst, tokens, out))
    ensures |out| <= cap
    ensures Tokens(lit, dst, s, p, out, cap)
         == Ok(Expand(lit, dst, tokens, out), p + |WriteTokens(lit, dst, tokens, out)|)
    decreases |tokens|
  {
    hide Usable, CodeBits, Bounded, Tokens, Match, WriteToken, Step, At;
    if tokens == [] {
      CodeBitsLength(lit, 256);
      BoundedAt(lit, 256);
      SymbolRead(lit, s, p, 256);
      TokenStep(lit, dst, s, p, out, cap);
    } else {
      var t, out' := tokens[0], Step(tokens[0], out);
      var c, rest := WriteToken(lit, dst, t), WriteTokens(lit, dst, tokens[1..], out');
      AtSplit(s, p, c, rest);
      TokensRead(lit, dst, s, p + |c|, tokens[1..], out', cap);
      TokenRead(lit, dst, s, p, t, out, cap);
    }
  }

  lemma BoundedAt(lens: Lengths, i: nat)
    requires Bounded(lens, BITS) && i < |lens|
    ensures lens[i] <= BITS
  {
  }

  lemma TokenRead(lit: Lengths, dst: Lengths, s: Stream, p: nat, t: Token, out: seq<byte>, cap: nat)
    requires Usable(lit) && Usable(dst) && Bounded(lit, BITS) && Bounded(dst, BITS)
    requires t.Valid() && Coded(lit, dst, t) && (t.Pair? ==> t.Distance() <= |out|) && |Step(t, out)| <= cap
    requires At(s, p, WriteToken(lit, dst, t))
    ensures Tokens(lit, dst, s, p, out, cap) == Tokens(lit, dst, s, p + |WriteToken(lit, dst, t)|, Step(t, out), cap)
  {
    hide Tokens, Match, CodeBits, Bounded, At, Deflate.Symbol, Usable, Copy, LittleEndian;
    hide LengthBase, LengthExtra, DistBase, DistExtra;
    if t.Literal? {
      TokenStep(lit, dst, s, p, out, cap);
      BoundedAt(lit, t.b);
      CodeBitsLength(lit, t.b);
      SymbolRead(lit, s, p, t.b);
    } else {
      PairRead(lit, dst, s, p, t, out, cap);
    }
  }

  lemma OpRead(meta: Lengths, s: Stream, p: nat, op: CodeLength, acc: Lengths, total: nat)
    requires Usable(meta) && |meta| == 19 && Bounded(meta, 7) && Bounded(acc, BITS)
    requires op.Valid(acc) && meta[op.Symbol()] > 0 && |op.Apply(acc)| <= total
    requires At(s, p, WriteOp(meta, op, acc))
    ensures Bounded(op.Apply(acc), BITS) && |acc| < |op.Apply(acc)|
    ensures ReadLengths(meta, s, p, acc, total)
         == ReadLengths(meta, s, p + |WriteOp(meta, op, acc)|, op.Apply(acc), total)
  {
    hide Usable, CodeBits, LittleEndian, ReadLengths, Deflate.Symbol, Lsb, At, Pow2;
    ReadStep(meta, s, p, acc, total);
    var c := op.Symbol();
    CodeBitsLength(meta, c);
    assert meta[c] <= BITS;
    if op.Run? {
      var bits := RunOf(c, acc).1;
      AtSplit(s, p, CodeBits(meta, c), LittleEndian(op.extra, bits));
      LsbOfLittleEndian(s, p + meta[c], op.extra, bits);
    }
    SymbolRead(meta, s, p, c);
  }

  lemma {:induction false} OpsRead(meta: Lengths, s: Stream, p: nat, ops: seq<CodeLength>, acc: Lengths, total: nat)
    requires Usable(meta) && |meta| == 19 && Bounded(meta, 7) && Bounded(acc, BITS)
    requires ValidOps(meta, ops, acc) && |ApplyAll(meta, ops, acc)| == total
    requires At(s, p, WriteOps(meta, ops, acc))
    ensures ReadLengths(meta, s, p, acc, total) == Ok(ApplyAll(meta, ops, acc), p + |WriteOps(meta, ops, acc)|)
    ensures Bounded(ApplyAll(meta, ops, acc), BITS)
    decreases |ops|
  {
    hide Usable, ReadLengths, WriteOp, Deflate.Symbol, Bounded, At;
    if ops == [] {
      ReadDone(meta, s, p, acc, total);
    } else {
      var acc' := ops[0].Apply(acc);
      var c := WriteOp(meta, ops[0], acc);
      AtSplit(s, p, c, WriteOps(meta, ops[1..], acc'));
      OpRead(meta, s, p, ops[0], acc, total);
      OpsRead(meta, s, p + |c|, ops[1..], acc', total);
    }
  }

  const POSITION: seq<nat> := [3, 17, 15, 13, 11, 9, 7, 5, 4, 6, 8, 10, 12, 14, 16, 18, 0, 1, 2]

  function Position(k: nat): (i: nat)
    requires k < 19
    ensures i < 19 && Order(i) == k
  {
    POSITION[k]
  }

  lemma PositionOfOrder(i: nat)
    requires i < 19
    ensures Position(Order(i)) == i
  {
  }

  /** After n lengths of the code length code, those written so far are known and the rest are 0. */
  lemma {:induction false} MetaRead(meta: Lengths, s: Stream, p: nat, n: nat)
    requires n <= 19 && |meta| == 19 && Bounded(meta, 7) && At(s, p, WriteMeta(meta, n))
    ensures forall k: nat :: k < 19 ==> MetaLengths(s, p, n)[k] == if Position(k) < n then meta[k] else 0
  {
    hide LittleEndian, Position, Order, At, Lsb;
    if n > 0 {
      var c := WriteMeta(meta, n - 1);
      AtSplit(s, p, c, LittleEndian(meta[Order(n - 1)], 3));
      MetaRead(meta, s, p, n - 1);
      Pow2Values();
      LsbOfLittleEndian(s, p + 3 * (n - 1), meta[Order(n - 1)], 3);
      PositionOfOrder(n - 1);
    }
  }

  lemma MetaReadAll(h: Header, s: Stream, p: nat)
    requires h.Valid() && At(s, p, WriteMeta(h.meta, h.metas))
    ensures MetaLengths(s, p, h.metas) == h.meta
  {
    hide Position, Order, Usable, ValidOps, MetaLengths, WriteMeta;
    MetaRead(h.meta, s, p, h.metas);
    forall k: nat | k < 19
      ensures MetaLengths(s, p, h.metas)[k] == h.meta[k]
    {
      if Position(k) >= h.metas { assert h.meta[Order(Position(k))] == 0; }
    }
  }

  /** The five parts of a written header. */
  lemma HeaderAt(h: Header, s: Stream, p: nat)
    requires h.Valid()
    ensures At(s, p, WriteHeader(h)) <==>
      && Lsb(s, p, 5) == h.literals - 257 && Lsb(s, p + 5, 5) == h.distances - 1 && Lsb(s, p + 10, 4) == h.metas - 4
      && At(s, p + 14, WriteMeta(h.meta, h.metas)) && At(s, p + 14 + 3 * h.metas, WriteOps(h.meta, h.ops, []))
    ensures |WriteHeader(h)| == 14 + 3 * h.metas + |WriteOps(h.meta, h.ops, [])|
  {
    hide LittleEndian, WriteMeta, WriteOps, ValidOps, ApplyAll, Usable, At, Lsb, Pow2;
    var a, b, c := LittleEndian(h.literals - 257, 5), LittleEndian(h.distances - 1, 5), LittleEndian(h.metas - 4, 4);
    var d, e := WriteMeta(h.meta, h.metas), WriteOps(h.meta, h.ops, []);
    AtSplitFour(s, p, a, b, c, d + e);
    AtSplit(s, p + 14, d, e);
    Pow2Values();
    LsbOfLittleEndian(s, p, h.literals - 257, 5);
    LsbOfLittleEndian(s, p + 5, h.distances - 1, 5);
    LsbOfLittleEndian(s, p + 10, h.metas - 4, 4);
  }

  /** The codes of a header whose parts have been read. */
  lemma HeaderCodes(h: Header, s: Stream, p: nat)
    requires h.Valid()
    requires Lsb(s, p, 5) == h.literals - 257 && Lsb(s, p + 5, 5) == h.distances - 1 && Lsb(s, p + 10, 4) == h.metas - 4
    requires MetaLengths(s, p + 14, h.metas) == h.meta
    requires ReadLengths(h.meta, s, p + 14 + 3 * h.metas, [], h.literals + h.distances)
          == Ok(h.Lens(), p + 14 + 3 * h.metas + |WriteOps(h.meta, h.ops, [])|)
    ensures Dynamic(s, p) == Ok((h.Lens()[..h.literals], h.Lens()[h.literals..]), p + |WriteHeader(h)|)
  {
    hide LittleEndian, WriteMeta, WriteOps, ValidOps, ApplyAll, MetaLengths, ReadLengths, Usable, Lsb;
  }

  lemma HeaderRead(h: Header, s: Stream, p: nat)
    requires h.Valid() && At(s, p, WriteHeader(h))
    ensures Dynamic(s, p) == Ok((h.Lens()[..h.literals], h.Lens()[h.literals..]), p + |WriteHeader(h)|)
  {
    hide WriteMeta, WriteOps, ValidOps, ApplyAll, MetaLengths, ReadLengths, Usable, At, Lsb, Dynamic, WriteHeader;
    HeaderAt(h, s, p);
    MetaReadAll(h, s, p + 14);
    OpsRead(h.meta, s, p + 14 + 3 * h.metas, h.ops, [], h.literals + h.distances);
    HeaderCodes(h, s, p);
  }

  lemma {:induction false} BytesRead(s: Stream, i: nat, bytes: seq<byte>)
    requires At(s, 8 * i, WriteBytes(bytes))
    ensures BytesOf(s, i, |bytes|) == bytes
    decreases |bytes|
  {
    hide LittleEndian, At, Lsb;
    if bytes != [] {
      AtSplit(s, 8 * i, LittleEndian(bytes[0], 8), WriteBytes(bytes[1..]));
      Pow2Values();
      LsbOfLittleEndian(s, 8 * i, bytes[0], 8);
      assert 8 * i + 8 == 8 * (i + 1);
      BytesRead(s, i + 1, bytes[1..]);
      BytesOfStep(s, i, |bytes|);
    }
  }

  lemma BytesOfStep(s: Stream, i: nat, n: nat)
    requires n > 0
    ensures BytesOf(s, i, n) == [ByteOf(s, i)] + BytesOf(s, i + 1, n - 1)
  {
    hide ByteOf;
  }

  lemma StoredRead(s: Stream, p: nat, padding: nat, bytes: seq<byte>, out: seq<byte>, cap: nat)
    requires |bytes| < 0x1_0000 && |out| + |bytes| <= cap
    requires At(s, p, WriteStored(p, padding, bytes)) && p + |WriteStored(p, padding, bytes)| <= |s|
    ensures Stored(s, p, out, cap) == Ok(out + bytes, p + |WriteStored(p, padding, bytes)|)
  {
    hide LittleEndian, At, Lsb, WriteBytes, BytesOf, Align;
    var a, b, c := LittleEndian(padding, Gap(p)), LittleEndian(|bytes|, 16), LittleEndian(0xFFFF - |bytes|, 16);
    var d, q := WriteBytes(bytes), Align(p);
    AtSplitFour(s, p, a, b, c, d);
    Pow2Values();
    LsbOfLittleEndian(s, 8 * q, |bytes|, 16);
    LsbOfLittleEndian(s, 8 * q + 16, 0xFFFF - |bytes|, 16);
    assert 8 * q + 32 == 8 * (q + 4);
    BytesRead(s, q + 4, bytes);
  }

  lemma BlockRead(b: BlockData, s: Stream, p: nat, out: seq<byte>, final: bool, cap: nat)
    requires ValidBlock(b, out) && |ExpandBlock(b, out)| <= cap
    requires At(s, p, WriteBlock(b, p, out, final)) && p + |WriteBlock(b, p, out, final)| <= |s|
    ensures Lsb(s, p, 1) == if final then 1 else 0
    ensures Block(s, p + 1, out, cap) == Ok(ExpandBlock(b, out), p + |WriteBlock(b, p, out, final)|)
  {
    hide Lsb, At, Block, WriteBlock, ValidBlock, ExpandBlock;
    FirstBit(s, p);
    if b.StoredBlock? {
      StoredBlockRead(b, s, p, out, final, cap);
    } else if b.FixedBlock? {
      FixedBlockRead(b, s, p, out, final, cap);
    } else {
      DynamicBlockRead(b, s, p, out, final, cap);
    }
  }

  lemma StoredBlockRead(b: BlockData, s: Stream, p: nat, out: seq<byte>, final: bool, cap: nat)
    requires b.StoredBlock? && ValidBlock(b, out) && |ExpandBlock(b, out)| <= cap
    requires At(s, p, WriteBlock(b, p, out, final)) && p + |WriteBlock(b, p, out, final)| <= |s|
    ensures (Bit(s, p) == 1) == final
    ensures Block(s, p + 1, out, cap) == Ok(ExpandBlock(b, out), p + |WriteBlock(b, p, out, final)|)
  {
    hide LittleEndian, At, Lsb, Stored, Tokens, Dynamic, WriteStored, Gap;
    Pow2Values();
    var c := WriteStored(p + 3, b.padding % Pow2(Gap(p + 3)), b.bytes);
    AtSplit(s, p, [final], LittleEndian(0, 2) + c);
    AtOne(s, p, final);
    AtSplit(s, p + 1, LittleEndian(0, 2), c);
    LsbOfLittleEndian(s, p + 1, 0, 2);
    StoredRead(s, p + 3, b.padding % Pow2(Gap(p + 3)), b.bytes, out, cap);
  }

  lemma FixedBlockRead(b: BlockData, s: Stream, p: nat, out: seq<byte>, final: bool, cap: nat)
    requires b.FixedBlock? && ValidBlock(b, out) && |ExpandBlock(b, out)| <= cap
    requires At(s, p, WriteBlock(b, p, out, final))
    ensures (Bit(s, p) == 1) == final
    ensures Block(s, p + 1, out, cap) == Ok(ExpandBlock(b, out), p + |WriteBlock(b, p, out, final)|)
  {
    hide LittleEndian, At, Lsb, Stored, Tokens, Dynamic, WriteTokens, ValidTokens, Expand, Usable, FixedLiterals, FixedDistances;
    Pow2Values();
    FixedCodesAccepted();
    var c := WriteTokens(LitCode(b), DistCode(b), b.tokens, out);
    AtSplit(s, p, [final], LittleEndian(1, 2) + c);
    AtOne(s, p, final);
    AtSplit(s, p + 1, LittleEndian(1, 2), c);
    LsbOfLittleEndian(s, p + 1, 1, 2);
    TokensRead(LitCode(b), DistCode(b), s, p + 3, b.tokens, out, cap);
  }

  lemma FirstBit(s: Stream, p: nat)
    ensures Lsb(s, p, 1) == Bit(s, p)
  {
  }

  lemma DynamicBlockRead(b: BlockData, s: Stream, p: nat, out: seq<byte>, final: bool, cap: nat)
    requires b.DynamicBlock? && ValidBlock(b, out) && |ExpandBlock(b, out)| <= cap
    requires At(s, p, WriteBlock(b, p, out, final))
    ensures (Bit(s, p) == 1) == final
    ensures Block(s, p + 1, out, cap) == Ok(ExpandBlock(b, out), p + |WriteBlock(b, p, out, final)|)
  {
    hide LittleEndian, At, Lsb, Stored, Tokens, Dynamic, WriteStored, WriteTokens, WriteHeader, ValidTokens, Expand;
    hide Usable, ValidOps, ApplyAll, Bit;
    Pow2Values();
    var h, c := WriteHeader(b.header), WriteTokens(LitCode(b), DistCode(b), b.tokens, out);
    AtSplit(s, p, [final], LittleEndian(2, 2) + (h + c));
    AtOne(s, p, final);
    AtSplit(s, p + 1, LittleEndian(2, 2), h + c);
    LsbOfLittleEndian(s, p + 1, 2, 2);
    AtSplit(s, p + 3, h, c);
    HeaderRead(b.header, s, p + 3);
    TokensRead(LitCode(b), DistCode(b), s, p + 3 + |h|, b.tokens, out, cap);
  }

  /** Reading a written list of blocks gives its expansion and stops at its end. */
  lemma {:induction false} BlocksRead(blocks: seq<BlockData>, s: Stream, p: nat, out: seq<byte>, cap: nat)
    requires blocks != [] && ValidBlocks(blocks, out) && |ExpandBlocks(blocks, out)| <= cap
    requires At(s, p, WriteBlocks(blocks, p, out)) && p + |WriteBlocks(blocks, p, out)| <= |s|
    ensures |out| <= cap
    ensures Blocks(s, p, out, cap) == Ok(ExpandBlocks(blocks, out), p + |WriteBlocks(blocks, p, out)|)
    decreases |blocks|
  {
    hide At, Lsb, Block, ValidBlock, ExpandBlock, WriteBlock, Blocks;
    BlocksStep(s, p, out, cap);
    if |blocks| == 1 {
      assert ExpandBlocks(blocks[1..], ExpandBlock(blocks[0], out)) == ExpandBlock(blocks[0], out);
      BlockRead(blocks[0], s, p, out, true, cap);
    } else {
      var out', c := ExpandBlock(blocks[0], out), WriteBlock(blocks[0], p, out, false);
      AtSplit(s, p, c, WriteBlocks(blocks[1..], p + |c|, out'));
      BlocksRead(blocks[1..], s, p + |c|, out', cap);
      BlockRead(blocks[0], s, p, out, false, cap);
    }
  }

  // ---------------------------------------------------------------------------
  // Writing undoes reading: whatever is accepted is the encoding of some blocks

  lemma SymbolWritten(lens: Lengths, s: Stream, p: nat)
    requires Usable(lens) && Symbol(lens, s, p).Hit?
    ensures var h := Symbol(lens, s, p);
      h.symbol < |lens| && lens[h.symbol] == h.length && 0 < h.length <= BITS && At(s, p, CodeBits(lens, h.symbol))
  {
    var h := Symbol(lens, s, p);
    CodeFits(lens, h.symbol, BITS);
    MsbOfBigEndian(s, p, Code(lens, h.symbol), h.length);
  }

  /** The token that starts at p, when the block is accepted there and does not end. */
  lemma TokenWritten(lit: Lengths, dst: Lengths, s: Stream, p: nat, out: seq<byte>, cap: nat) returns (t: Token)
    requires Usable(lit) && Usable(dst) && |out| <= cap
    requires Tokens(lit, dst, s, p, out, cap).Ok? && Symbol(lit, s, p).symbol != 256
    ensures t.Valid() && Coded(lit, dst, t) && (t.Pair? ==> t.Distance() <= |out|) && |Step(t, out)| <= cap
    ensures At(s, p, WriteToken(lit, dst, t)) && |Step(t, out)| > |out|
    ensures Tokens(lit, dst, s, p, out, cap) == Tokens(lit, dst, s, p + |WriteToken(lit, dst, t)|, Step(t, out), cap)
  {
    hide Usable, CodeBits, Tokens, Match, Deflate.Symbol, At, LengthBase, LengthExtra;
    TokenStep(lit, dst, s, p, out, cap);
    SymbolWritten(lit, s, p);
    var h := Symbol(lit, s, p);
    if h.symbol < 256 {
      t := Literal(h.symbol);
      CodeBitsLength(lit, h.symbol);
    } else {
      t := PairWritten(lit, dst, s, p, out, cap);
    }
  }

  lemma PairWritten(lit: Lengths, dst: Lengths, s: Stream, p: nat, out: seq<byte>, cap: nat) returns (t: Token)
    requires Usable(lit) && Usable(dst) && |out| <= cap
    requires Tokens(lit, dst, s, p, out, cap).Ok? && Symbol(lit, s, p).symbol > 256
    ensures t.Pair? && t.Valid() && Coded(lit, dst, t) && t.Distance() <= |out| < |Step(t, out)| <= cap
    ensures At(s, p, WriteToken(lit, dst, t))
    ensures Tokens(lit, dst, s, p, out, cap) == Tokens(lit, dst, s, p + |WriteToken(lit, dst, t)|, Step(t, out), cap)
  {
    hide LengthBase, LengthExtra, DistBase, DistExtra, Usable, CodeBits, LittleEndian, Tokens, Match, Deflate.Symbol, Lsb, At,
      WriteToken, Pow2;
    TokenStep(lit, dst, s, p, out, cap);
    SymbolWritten(lit, s, p);
    var h := Symbol(lit, s, p);
    var l, p1 := h.symbol - 257, p + h.length;
    MatchStep(lit, dst, s, p1, l, out, cap);
    var p2 := p1 + LengthExtra(l);
    SymbolWritten(dst, s, p2);
    var g := Symbol(dst, s, p2);
    var p3 := p2 + g.length;
    t := Pair(l, Lsb(s, p1, LengthExtra(l)), g.symbol, Lsb(s, p3, DistExtra(g.symbol)));
    LsbOfLittleEndian(s, p1, t.lengthExtra, LengthExtra(l));
    LsbOfLittleEndian(s, p3, t.distExtra, DistExtra(g.symbol));
    PairAt(lit, dst, s, p, t);
  }

  lemma {:induction false} TokensWritten(lit: Lengths, dst: Lengths, s: Stream, p: nat, out: seq<byte>, cap: nat) returns (tokens: seq<Token>)
    requires Usable(lit) && Usable(dst) && |lit| > 256 && |out| <= cap && Tokens(lit, dst, s, p, out, cap).Ok?
    ensures ValidTokens(lit, dst, tokens, out) && lit[256] > 0
    ensures At(s, p, WriteTokens(lit, dst, tokens, out))
    ensures Tokens(lit, dst, s, p, out, cap)
         == Ok(Expand(lit, dst, tokens, out), p + |WriteTokens(lit, dst, tokens, out)|)
    decreases cap - |out|
  {
    hide Usable, CodeBits, Tokens, Match, Deflate.Symbol, At, WriteToken, Step;
    TokenStep(lit, dst, s, p, out, cap);
    if Symbol(lit, s, p).symbol == 256 {
      SymbolWritten(lit, s, p);
      CodeBitsLength(lit, 256);
      tokens := [];
    } else {
      var t := TokenWritten(lit, dst, s, p, out, cap);
      var c := WriteToken(lit, dst, t);
      var rest := TokensWritten(lit, dst, s, p + |c|, Step(t, out), cap);
      tokens := [t] + rest;
      assert tokens[1..] == rest;
      AtSplit(s, p, c, WriteTokens(lit, dst, rest, Step(t, out)));
    }
  }

  lemma OpWritten(meta: Lengths, s: Stream, p: nat, acc: Lengths, total: nat) returns (op: CodeLength)
    requires Usable(meta) && |meta| == 19 && Bounded(acc, BITS) && |acc| < total && ReadLengths(meta, s, p, acc, total).Ok?
    ensures op.Valid(acc) && op.Symbol() < 19 && meta[op.Symbol()] > 0 && |acc| < |op.Apply(acc)| <= total
    ensures Bounded(op.Apply(acc), BITS) && At(s, p, WriteOp(meta, op, acc))
    ensures ReadLengths(meta, s, p, acc, total)
         == ReadLengths(meta, s, p + |WriteOp(meta, op, acc)|, op.Apply(acc), total)
  {
    hide Usable, CodeBits, LittleEndian, ReadLengths, Deflate.Symbol, Lsb, At, Pow2;
    ReadStep(meta, s, p, acc, total);
    SymbolWritten(meta, s, p);
    var h := Symbol(meta, s, p);
    CodeBitsLength(meta, h.symbol);
    if h.symbol < 16 {
      op := Plain(h.symbol);
    } else {
      var bits := RunOf(h.symbol, acc).1;
      op := Run(h.symbol, Lsb(s, p + h.length, bits));
      LsbOfLittleEndian(s, p + h.length, op.extra, bits);
      AtSplit(s, p, CodeBits(meta, h.symbol), LittleEndian(op.extra, bits));
    }
  }

  lemma {:induction false} OpsWritten(meta: Lengths, s: Stream, p: nat, acc: Lengths, total: nat) returns (ops: seq<CodeLength>)
    requires Usable(meta) && |meta| == 19 && Bounded(acc, BITS) && |acc| <= total && ReadLengths(meta, s, p, acc, total).Ok?
    ensures ValidOps(meta, ops, acc) && At(s, p, WriteOps(meta, ops, acc))
    ensures ReadLengths(meta, s, p, acc, total) == Ok(ApplyAll(meta, ops, acc), p + |WriteOps(meta, ops, acc)|)
    decreases total - |acc|
  {
    hide Usable, ReadLengths, WriteOp, Deflate.Symbol, Bounded;
    if |acc| == total {
      ReadDone(meta, s, p, acc, total);
      ops := [];
    } else {
      var op := OpWritten(meta, s, p, acc, total);
      var c := WriteOp(meta, op, acc);
      var rest := OpsWritten(meta, s, p + |c|, op.Apply(acc), total);
      ops := [op] + rest;
      assert ops[1..] == rest;
      AtSplit(s, p, c, WriteOps(meta, rest, op.Apply(acc)));
    }
  }

  lemma {:induction false} MetaUnset(s: Stream, p: nat, n: nat, k: nat)
    requires n <= 19 && k < 19 && Position(k) >= n
    ensures MetaLengths(s, p, n)[k] == 0
  {
    hide Position, Order, Lsb;
    if n > 0 {
      PositionOfOrder(n - 1);
      MetaUnset(s, p, n - 1, k);
    }
  }

  lemma {:induction false} MetaWritten(meta: Lengths, s: Stream, p: nat, n: nat)
    requires n <= 19 && |meta| == 19
    requires forall i: nat :: i < n ==> meta[Order(i)] == MetaLengths(s, p, n)[Order(i)]
    ensures At(s, p, WriteMeta(meta, n))
  {
    hide LittleEndian, Order, Position, Lsb;
    if n > 0 {
      forall i: nat | i < n - 1
        ensures meta[Order(i)] == MetaLengths(s, p, n - 1)[Order(i)]
      {
        PositionOfOrder(i);
        PositionOfOrder(n - 1);
      }
      MetaWritten(meta, s, p, n - 1);
      var v := Lsb(s, p + 3 * (n - 1), 3);
      assert meta[Order(n - 1)] == v;
      LsbOfLittleEndian(s, p + 3 * (n - 1), v, 3);
      AtSplit(s, p, WriteMeta(meta, n - 1), LittleEndian(v, 3));
    }
  }

  /** What has been checked when a dynamic header was read. */
  lemma DynamicParts(s: Stream, p: nat) returns (hlit: nat, hdist: nat, hclen: nat)
    requires Dynamic(s, p).Ok?
    ensures hlit == Lsb(s, p, 5) + 257 <= 288 && hdist == Lsb(s, p + 5, 5) + 1 <= 32 && hclen == Lsb(s, p + 10, 4) + 4 <= 19
    ensures var meta := MetaLengths(s, p + 14, hclen);
      var r := ReadLengths(meta, s, p + 14 + 3 * hclen, [], hlit + hdist);
      Usable(meta) && r.Ok? && |r.value| == hlit + hdist && Usable(r.value[..hlit]) && Usable(r.value[hlit..])
  {
    hide MetaLengths, ReadLengths, Usable, Lsb, Pow2;
    Pow2Values();
    hlit, hdist, hclen := Lsb(s, p, 5) + 257, Lsb(s, p + 5, 5) + 1, Lsb(s, p + 10, 4) + 4;
  }

  lemma MetaRest(s: Stream, p: nat, n: nat)
    requires n <= 19
    ensures forall i :: n <= i < 19 ==> MetaLengths(s, p, n)[Order(i)] == 0
  {
    hide MetaLengths, Order, Position;
    forall i | n <= i < 19
      ensures MetaLengths(s, p, n)[Order(i)] == 0
    {
      PositionOfOrder(i);
      MetaUnset(s, p, n, Order(i));
    }
  }

  lemma HeaderWritten(s: Stream, p: nat) returns (h: Header)
    requires Dynamic(s, p).Ok?
    ensures h.Valid() && At(s, p, WriteHeader(h))
    ensures Dynamic(s, p) == Ok((h.Lens()[..h.literals], h.Lens()[h.literals..]), p + |WriteHeader(h)|)
  {
    hide WriteMeta, WriteOps, ValidOps, ApplyAll, MetaLengths, ReadLengths, Usable, At, Lsb, Order, Dynamic, WriteHeader;
    var hlit, hdist, hclen := DynamicParts(s, p);
    var meta := MetaLengths(s, p + 14, hclen);
    var ops := OpsWritten(meta, s, p + 14 + 3 * hclen, [], hlit + hdist);
    h := Header(hlit, hdist, hclen, meta, ops);
    MetaRest(s, p + 14, hclen);
    MetaWritten(meta, s, p + 14, hclen);
    HeaderAt(h, s, p);
    HeaderCodes(h, s, p);
  }

  lemma {:induction false} BytesWritten(s: Stream, i: nat, n: nat)
    ensures At(s, 8 * i, WriteBytes(BytesOf(s, i, n)))
    decreases n
  {
    hide LittleEndian, At, Lsb;
    if n > 0 {
      BytesOfStep(s, i, n);
      var b := ByteOf(s, i);
      var bytes, rest := BytesOf(s, i, n), BytesOf(s, i + 1, n - 1);
      assert bytes[1..] == rest;
      BytesWritten(s, i + 1, n - 1);
      assert 8 * i + 8 == 8 * (i + 1);
      Pow2Values();
      LsbOfLittleEndian(s, 8 * i, b, 8);
      AtSplit(s, 8 * i, LittleEndian(b, 8), WriteBytes(rest));
    } else {
      assert WriteBytes([]) == [];
      AtEmpty(s, 8 * i);
    }
  }

  lemma AtEmpty(s: Stream, p: nat)
    ensures At(s, p, [])
  {
  }

  lemma StoredWritten(s: Stream, p: nat, out: seq<byte>, cap: nat) returns (padding: nat, bytes: seq<byte>)
    requires |out| <= cap && Stored(s, p, out, cap).Ok?
    ensures |bytes| < 0x1_0000 && padding < Pow2(Gap(p)) && At(s, p, WriteStored(p, padding, bytes))
    ensures Stored(s, p, out, cap) == Ok(out + bytes, p + |WriteStored(p, padding, bytes)|)
  {
    hide LittleEndian, At, Lsb, WriteBytes, Align, ByteOf;
    var q := Align(p);
    var len := Lsb(s, 8 * q, 16);
    padding, bytes := Lsb(s, p, Gap(p)), BytesOf(s, q + 4, len);
    Pow2Values();
    LsbOfLittleEndian(s, p, padding, Gap(p));
    LsbOfLittleEndian(s, 8 * q, len, 16);
    LsbOfLittleEndian(s, 8 * q + 16, 0xFFFF - len, 16);
    BytesWritten(s, q + 4, len);
    assert 8 * q + 32 == 8 * (q + 4);
    var a, b, c := LittleEndian(padding, Gap(p)), LittleEndian(len, 16), LittleEndian(0xFFFF - len, 16);
    var d := WriteBytes(bytes);
    AtSplitFour(s, p, a, b, c, d);
  }

  lemma BlockWritten(s: Stream, p: nat, out: seq<byte>, cap: nat) returns (b: BlockData)
    requires |out| <= cap && Block(s, p + 1, out, cap).Ok?
    ensures ValidBlock(b, out)
    ensures var c := WriteBlock(b, p, out, Lsb(s, p, 1) == 1);
      At(s, p, c) && Block(s, p + 1, out, cap) == Ok(ExpandBlock(b, out), p + |c|)
  {
    hide At, Lsb, Block, WriteBlock, ValidBlock, ExpandBlock;
    var kind := Lsb(s, p + 1, 2);
    if kind == 0 {
      b := StoredBlockWritten(s, p, out, cap);
    } else if kind == 1 {
      b := FixedBlockWritten(s, p, out, cap);
    } else {
      b := DynamicBlockWritten(s, p, out, cap);
    }
  }

  lemma StoredBlockWritten(s: Stream, p: nat, out: seq<byte>, cap: nat) returns (b: BlockData)
    requires |out| <= cap && Block(s, p + 1, out, cap).Ok? && Lsb(s, p + 1, 2) == 0
    ensures ValidBlock(b, out)
    ensures var c := WriteBlock(b, p, out, Lsb(s, p, 1) == 1);
      At(s, p, c) && Block(s, p + 1, out, cap) == Ok(ExpandBlock(b, out), p + |c|)
  {
    hide LittleEndian, At, Lsb, Stored, Tokens, Dynamic, WriteStored, Gap, Pow2;
    FirstBit(s, p);
    var final := Lsb(s, p, 1) == 1;
    AtOne(s, p, final);
    Pow2Values();
    LsbOfLittleEndian(s, p + 1, 0, 2);
    var padding, bytes := StoredWritten(s, p + 3, out, cap);
    b := StoredBlock(padding, bytes);
    LowOfSmall(padding, Gap(p + 3));
    AtSplit(s, p, [final], LittleEndian(0, 2) + WriteStored(p + 3, padding, bytes));
    AtSplit(s, p + 1, LittleEndian(0, 2), WriteStored(p + 3, padding, bytes));
  }

  lemma FixedBlockWritten(s: Stream, p: nat, out: seq<byte>, cap: nat) returns (b: BlockData)
    requires |out| <= cap && Block(s, p + 1, out, cap).Ok? && Lsb(s, p + 1, 2) == 1
    ensures ValidBlock(b, out)
    ensures var c := WriteBlock(b, p, out, Lsb(s, p, 1) == 1);
      At(s, p, c) && Block(s, p + 1, out, cap) == Ok(ExpandBlock(b, out), p + |c|)
  {
    hide LittleEndian, At, Lsb, Stored, Tokens, Dynamic, WriteTokens, ValidTokens, Expand, Usable, FixedLiterals, FixedDistances;
    hide Bounded, Pow2;
    FixedCodesAccepted();
    EndOfBlockCoded();
    FirstBit(s, p);
    var final := Lsb(s, p, 1) == 1;
    AtOne(s, p, final);
    Pow2Values();
    LsbOfLittleEndian(s, p + 1, 1, 2);
    var tokens := TokensWritten(FixedLiterals(), FixedDistances(), s, p + 3, out, cap);
    b := FixedBlock(tokens);
    AtSplit(s, p, [final], LittleEndian(1, 2) + WriteTokens(LitCode(b), DistCode(b), tokens, out));
    AtSplit(s, p + 1, LittleEndian(1, 2), WriteTokens(LitCode(b), DistCode(b), tokens, out));
  }

  lemma EndOfBlockCoded()
    ensures FixedLiterals()[256] > 0
  {
  }

  lemma DynamicBlockWritten(s: Stream, p: nat, out: seq<byte>, cap: nat) returns (b: BlockData)
    requires |out| <= cap && Block(s, p + 1, out, cap).Ok? && Lsb(s, p + 1, 2) >= 2
    ensures ValidBlock(b, out)
    ensures var c := WriteBlock(b, p, out, Lsb(s, p, 1) == 1);
      At(s, p, c) && Block(s, p + 1, out, cap) == Ok(ExpandBlock(b, out), p + |c|)
  {
    hide LittleEndian, At, Lsb, Stored, Tokens, Dynamic, WriteStored, WriteTokens, WriteHeader, ValidTokens, Expand;
    hide Usable, ValidOps, ApplyAll;
    FirstBit(s, p);
    var final := Lsb(s, p, 1) == 1;
    AtOne(s, p, final);
    LsbOfLittleEndian(s, p + 1, 2, 2);
    var k := LittleEndian(2, 2);
    var h := HeaderWritten(s, p + 3);
    var lit, dst := h.Lens()[..h.literals], h.Lens()[h.literals..];
    var c := WriteHeader(h);
    var tokens := TokensWritten(lit, dst, s, p + 3 + |c|, out, cap);
    b := DynamicBlock(h, tokens);
    var d := WriteTokens(lit, dst, tokens, out);
    AtSplit(s, p, [final], k + (c + d));
    AtSplit(s, p + 1, k, c + d);
    AtSplit(s, p + 3, c, d);
  }

  /** Every accepted stream is the encoding of a list of blocks. */
  lemma {:induction false} BlocksWritten(s: Stream, p: nat, out: seq<byte>, cap: nat) returns (blocks: seq<BlockData>)
    requires |out| <= cap && Blocks(s, p, out, cap).Ok?
    ensures blocks != [] && ValidBlocks(blocks, out) && At(s, p, WriteBlocks(blocks, p, out))
    ensures Blocks(s, p, out, cap) == Ok(ExpandBlocks(blocks, out), p + |WriteBlocks(blocks, p, out)|)
    decreases if p < |s| then |s| - p else 0
  {
    hide At, Lsb, Block, ValidBlock, ExpandBlock, WriteBlock, Blocks;
    BlocksStep(s, p, out, cap);
    Pow2Values();
    var b := BlockWritten(s, p, out, cap);
    var out' := ExpandBlock(b, out);
    if Lsb(s, p, 1) == 1 {
      blocks := [b];
      assert blocks[1..] == [];
    } else {
      var c := WriteBlock(b, p, out, false);
      var rest := BlocksWritten(s, p + |c|, out', cap);
      blocks := [b] + rest;
      assert blocks[1..] == rest;
      AtSplit(s, p, c, WriteBlocks(rest, p + |c|, out'));
    }
  }

  // ---------------------------------------------------------------------------
  // Files

  lemma BitOfLsb(s: Stream, p: nat, j: nat)
    requires j < 8
    ensures BitOf(Lsb(s, p, 8), j) <==> Bit(s, p + j) == 1
  {
    hide Lsb, Pow2;
    LsbTake(s, p, j, 8);
    LsbHead(s, p + j, 8 - j);
    assert Shr(Lsb(s, p, 8), j) == Lsb(s, p, 8) / Pow2(j);
  }

  lemma LsbHead(s: Stream, p: nat, n: nat)
    requires n > 0
    ensures Lsb(s, p, n) % 2 == Bit(s, p)
  {
  }

  /** A bit stream packed into bytes, between other bytes. */
  lemma PackedAt(head: seq<byte>, c: Stream, tail: seq<byte>)
    ensures At(ToBits(head + BytesOf(c, 0, Align(|c|)) + tail), 8 * |head|, c)
  {
    hide Lsb, BitOf, Pow2;
    var n := Align(|c|);
    var data := head + BytesOf(c, 0, n) + tail;
    var s := ToBits(data);
    forall i | 0 <= i < |c|
      ensures (Bit(s, 8 * |head| + i) == 1) == c[i]
    {
      var k, j := i / 8, i % 8;
      assert data[|head| + k] == ByteOf(c, k);
      assert (8 * |head| + i) / 8 == |head| + k && (8 * |head| + i) % 8 == j;
      BitOfLsb(c, 8 * k, j);
    }
  }

  /** A compressed stream: an optional zlib header, blocks, and the bytes that follow them (the zlib
      checksum, which is not looked at). */
  datatype File = File(header: seq<byte>, blocks: seq<BlockData>, trailer: seq<byte>)
  {
    ghost predicate Valid() {
      && (header == [] || (|header| == 2 && ZlibHeader(header + [0])))
      && blocks != [] && ValidBlocks(blocks, [])
      && |trailer| >= 2
    }

    ghost function Expansion(): seq<byte>
      requires Valid()
    {
      ExpandBlocks(blocks, [])
    }

    ghost function Content(): Stream
      requires Valid()
    {
      WriteBlocks(blocks, 8 * |header|, [])
    }

    ghost function Bytes(): seq<byte>
      requires Valid()
    {
      header + BytesOf(Content(), 0, Align(|Content()|)) + trailer
    }
  }

  /** Inflate inverts DEFLATE: the whole expansion, and at least 16 bits left over at the end. */
  lemma InflateInvertsDeflate(f: File, cap: nat)
    requires f.Valid() && |f.Expansion()| <= cap
    ensures Inflate(f.Bytes(), f.header != [], cap) == Ok(f.Expansion(), 8 * |f.header| + |f.Content()|)
    ensures 8 * |f.header| + |f.Content()| + 16 <= 8 * |f.Bytes()|
  {
    hide WriteBlocks, ExpandBlocks, Blocks, BytesOf, ToBits;
    var data := f.Bytes();
    PackedAt(f.header, f.Content(), f.trailer);
    assert |data| == |f.header| + Align(|f.Content()|) + |f.trailer|;
    if f.header != [] {
      assert data[0] == (f.header + [0])[0] && data[1] == (f.header + [0])[1];
    }
    BlocksRead(f.blocks, ToBits(data), 8 * |f.header|, [], cap);
  }

  /** And nothing else is accepted: if a stream is inflated, its bits after the header are, up to
      where the inflater stops, the encoding of blocks that expand to the result. */
  lemma InflateAcceptsOnlyDeflate(data: seq<byte>, header: bool, cap: nat) returns (blocks: seq<BlockData>)
    requires Inflate(data, header, cap).Ok?
    ensures blocks != [] && ValidBlocks(blocks, [])
    ensures var p := if header then 16 else 0;
      var c := WriteBlocks(blocks, p, []);
      At(ToBits(data), p, c) && Inflate(data, header, cap) == Ok(ExpandBlocks(blocks, []), p + |c|)
  {
    hide WriteBlocks, ExpandBlocks, Blocks, ToBits, ZlibHeader, At;
    blocks := BlocksWritten(ToBits(data), if header then 16 else 0, [], cap);
  }

  /** Bytes cut into stored blocks, as many as it takes. */
  function Cut(bytes: seq<byte>): (blocks: seq<BlockData>)
    ensures blocks != []
  {
    if |bytes| < 0x1_0000 then [StoredBlock(0, bytes)]
    else [StoredBlock(0, bytes[..0xFFFF])] + Cut(bytes[0xFFFF..])
  }

  lemma {:induction false} CutIsWhole(bytes: seq<byte>, out: seq<byte>)
    ensures ValidBlocks(Cut(bytes), out) && ExpandBlocks(Cut(bytes), out) == out + bytes
    decreases |bytes|
  {
    hide ValidTokens, Expand, LitCode, DistCode;
    var blocks := Cut(bytes);
    if |bytes| < 0x1_0000 {
      assert blocks[1..] == [];
    } else {
      CutIsWhole(bytes[0xFFFF..], out + bytes[..0xFFFF]);
      assert blocks[1..] == Cut(bytes[0xFFFF..]);
      assert bytes[..0xFFFF] + bytes[0xFFFF..] == bytes;
    }
  }

  /** Every sequence of bytes, of any length, is the expansion of a file, with or without a zlib header and
      with any trailer. */
  lemma EveryTextHasFile(bytes: seq<byte>, header: seq<byte>, trailer: seq<byte>) returns (f: File)
    requires (header == [] || (|header| == 2 && ZlibHeader(header + [0]))) && |trailer| >= 2
    ensures f.Valid() && f.header == header && f.trailer == trailer && f.Expansion() == bytes
  {
    hide ValidBlocks, ExpandBlocks, ZlibHeader;
    f := File(header, Cut(bytes), trailer);
    CutIsWhole(bytes, []);
    assert [] + bytes == bytes;
  }

  /** Every match length from 3 to 258 and every distance from 1 to 32768 has symbols. */
  lemma EveryMatchHasSymbols(len: nat, dist: nat) returns (t: Token)
    requires 3 <= len <= 258 && 1 <= dist <= 32768
    ensures t.Pair? && t.Valid() && t.Length() == len && t.Distance() == dist
  {
    var l := LengthSymbol(len, 28);
    var d := DistSymbol(dist, 29);
    t := Pair(l, len - LengthBase(l), d, dist - DistBase(d));
  }

  lemma {:induction false} LengthSymbol(len: nat, z: nat) returns (l: nat)
    requires z < 29 && 3 <= len <= 258 && (z < 28 ==> len < LengthBase(z + 1))
    ensures l < 29 && 0 <= len - LengthBase(l) < Pow2(LengthExtra(l))
  {
    Pow2Values();
    if len >= LengthBase(z) {
      l := z;
    } else {
      l := LengthSymbol(len, z - 1);
    }
  }

  lemma {:induction false} DistSymbol(dist: nat, z: nat) returns (d: nat)
    requires z < 30 && 1 <= dist <= 32768 && (z < 29 ==> dist < DistBase(z + 1))
    ensures d < 30 && 0 <= dist - DistBase(d) < Pow2(DistExtra(d))
  {
    Pow2Values();
    if dist >= DistBase(z) {
      d := z;
      DistSpan(z);
    } else {
      d := DistSymbol(dist, z - 1);
    }
  }

  lemma DistSpan(z: nat)
    requires z < 30
    ensures DistBase(z) + Pow2(DistExtra(z)) == if z == 29 then 32769 else DistBase(z + 1)
  {
    hide Pow2;
    DistPowers();
  }

  lemma DistPowers()
    ensures Pow2(0) == 1 && Pow2(1) == 2 && Pow2(2) == 4 && Pow2(3) == 8 && Pow2(4) == 16 && Pow2(5) == 32
    ensures Pow2(6) == 64 && Pow2(7) == 128 && Pow2(8) == 256 && Pow2(9) == 512
    ensures Pow2(10) == 1024 && Pow2(11) == 2048 && Pow2(12) == 4096 && Pow2(13) == 8192
  {
    Pow2Values();
    Pow2Add(1, 9);
    Pow2Add(2, 9);
    Pow2Add(3, 9);
    Pow2Add(4, 9);
  }
}
