/** The entropy decoder of the JPEG scan: stbi__grow_buffer_unsafe, stbi__jpeg_huff_decode,
    stbi__extend_receive, and the step of stbi__jpeg_decode_block that decodes one AC coefficient, with
    the combined table of stbi__build_fast_ac or without. */
module JpegDecode {
  import opened Bits
  import opened Words
  import opened Canonical
  import opened JpegHuffman
  import opened JpegStream

  /** EXTEND of ITU-T T.81 F.2.2.1: the value that the n bits v stand for. */
  function Extend(v: nat, n: nat): int {
    if n == 0 then 0 else if v < Pow2(n - 1) then v - Pow2(n) + 1 else v
  }

  /** The symbol that the table cannot hold in its fast part, 255 being the mark for "no entry". */
  ghost predicate Unnamed(h: Hit) {
    h.Hit? && h.symbol == 255 && h.length <= FAST_BITS
  }

  ghost function Symbol(lens: Lengths, s: Stream, p: nat): Hit {
    Lookup(lens, s, p, 0, LONGEST)
  }

  /** What is still to come: nothing after a marker. */
  ghost predicate Ahead(entropy: seq<byte>, taken: nat, rest: seq<byte>) {
    if taken <= |entropy| then entropy[taken..] == rest else rest == []
  }

  class Jpeg {
    const data: seq<byte>
    var pos: nat
    var codeBuffer: nat
    var codeBits: int
    var nomore: bool
    var marker: byte
    ghost const entropy: seq<byte>
    ghost const bits: Stream
    ghost var taken: nat  // bytes taken, with the zeros behind a marker or the end

    /** stbi__jpeg_reset at the start of the entropy-coded bytes. */
    constructor (data: seq<byte>, start: nat)
      ensures Reader() && Pos() == 0 && this.data == data && entropy == Entropy(data, start)
    {
      this.data, pos := data, start;
      codeBuffer, codeBits, nomore, marker, taken := 0, 0, false, 0xFF, 0;
      entropy, bits := Entropy(data, start), BitsOf(Entropy(data, start));
      new;
      MsbBeyond(Known(bits, 0), 0, 32);
    }

    ghost function Pos(): int
      reads `taken, `codeBits
    {
      8 * taken - codeBits
    }

    ghost function Rest(): seq<byte>
      reads `nomore, `pos
    {
      if nomore then [] else Entropy(data, pos)
    }

    /** The word holds the known bits of the stream from Pos() on, at its top, and zeros below them. */
    ghost predicate Reader()
      reads `taken, `codeBits, `codeBuffer, `nomore, `pos
    {
      && bits == BitsOf(entropy) && Ahead(entropy, taken, Rest())
      && 0 <= codeBits <= 32 && 0 <= Pos()
      && codeBuffer == Msb(Known(bits, 8 * taken), Pos(), 32)
    }

    method Get8() returns (b: byte)
      modifies `pos
      ensures b == ByteAt(data, old(pos))
      ensures pos == if old(pos) < |data| then old(pos) + 1 else old(pos)
    {
      if pos < |data| {
        b := data[pos];
        pos := pos + 1;
      } else {
        b := 0;
      }
    }

    /** The byte behind an 0xFF, fill bytes skipped. */
    method SkipFill() returns (c: byte)
      modifies `pos
      ensures var q := AfterFill(data, old(pos));
        c == ByteAt(data, q) && c != 0xFF && pos == if q < |data| then q + 1 else q
    {
      ghost var q := AfterFill(data, pos);
      c := Get8();
      while c == 0xFF
        invariant if c == 0xFF then pos <= |data| && AfterFill(data, pos) == q
          else c == ByteAt(data, q) && pos == if q < |data| then q + 1 else q
        decreases |data| - pos, c == 0xFF
      {
        c := Get8();
      }
    }

    /** The next byte of the scan; none when a marker is met, after which there are only zeros. */
    method NextByte() returns (more: bool, b: byte)
      requires Ahead(entropy, taken, Rest())
      modifies `pos, `nomore, `marker, `taken
      ensures Ahead(entropy, taken, Rest())
      ensures if more then taken == old(taken) + 1 && b == ByteAt(entropy, old(taken))
        else taken == old(taken) >= |entropy|
    {
      hide Ahead, Entropy, AfterFill;
      EntropyStep(data, pos);
      more, b := true, 0;
      ghost var rest := Rest();
      if !nomore {
        b := Get8();
        if b == 0xFF {
          var c := SkipFill();
          if c != 0 {
            marker := c;
            nomore := true;
            more := false;
            AheadEnd(entropy, taken, rest);
            return;
          }
          StuffedZero(data, old(pos));
        }
      }
      AheadByte(entropy, taken, rest, Rest(), b);
      taken := taken + 1;
    }

    /** stbi__grow_buffer_unsafe: at least 25 bits, unless a marker ends the known ones. */
    method GrowBuffer()
      requires Reader() && codeBits <= 24
      modifies `pos, `nomore, `marker, `taken, `codeBuffer, `codeBits
      ensures Reader() && Pos() == old(Pos()) && (codeBits > 24 || 8 * taken >= |bits|)
    {
      hide Msb, Known, Ahead, BitsOf;
      ghost var p := Pos();
      while true
        invariant Reader() && Pos() == p && codeBits <= 24
        decreases 24 - codeBits
      {
        var more, b := NextByte();
        if !more {
          BitsLength(entropy);
          return;
        }
        PutByte(b);
        if codeBits > 24 {
          break;
        }
      }
    }

    /** The byte just taken goes into the word, below the known bits. */
    method PutByte(b: byte)
      requires taken > 0 && codeBits <= 24 && 0 <= codeBits <= 8 * (taken - 1) && b == ByteAt(entropy, taken - 1)
      requires bits == BitsOf(entropy) && Ahead(entropy, taken, Rest())
      requires codeBuffer == Msb(Known(bits, 8 * (taken - 1)), 8 * (taken - 1) - codeBits, 32)
      modifies `codeBuffer, `codeBits
      ensures Reader() && codeBits == old(codeBits) + 8
    {
      hide Msb, Known, Shl, Ahead, BitsOf, OrOf, LeftOf;
      ghost var n, p := 8 * (taken - 1), 8 * (taken - 1) - codeBits;
      KnownEnds(bits, n);
      OrBelow(Known(bits, n), p, codeBits, b, 32);
      codeBuffer := OrOf(codeBuffer, LeftOf(b, 24 - codeBits, 32), 32);
      PushByte(bits, p, codeBits, 32);
      ByteOfBits(entropy, taken - 1);
      codeBits := codeBits + 8;
    }

    /** Shift n bits out of the word. */
    method Consume(n: nat)
      requires Reader() && n <= codeBits
      modifies `codeBuffer, `codeBits
      ensures Reader() && Pos() == old(Pos()) + n && codeBits == old(codeBits) - n
    {
      hide Msb, Known, Shl, Ahead, BitsOf, Low, LeftOf, Pow2;
      KnownEnds(bits, 8 * taken);
      DropTop(Known(bits, 8 * taken), Pos(), n, 32);
      LeftNumber(codeBuffer, n, 32);
      codeBuffer := LeftOf(codeBuffer, n, 32);
      codeBits := codeBits - n;
    }

    lemma Placed()
      requires Reader()
      ensures Pos() >= 0
    {
    }

    /** What the word shows is the stream, to all the bits known, and to 16 if the known ones end there. */
    lemma Shown(n: nat)
      requires Reader() && n <= 32 && (n <= codeBits || 8 * taken >= |bits|)
      ensures RightOf(codeBuffer, 32 - n, 32) == Msb(Known(bits, 8 * taken), Pos(), n) == Msb(bits, Pos(), n)
    {
      hide Msb, Known, BitsOf, Ahead, Shr, RightOf, Pow2;
      RightNumber(codeBuffer, 32 - n, 32);
      MsbShift(Known(bits, 8 * taken), Pos(), n, 32);
      KnownAgrees(bits, 8 * taken, Pos(), n);
    }

    /** stbi__jpeg_huff_decode: a symbol is what reading bit by bit finds. There is none exactly if there is
        no code in the stream, or if it is longer than the bits buffered when the word has been filled,
        which happens only beyond the end of the scan. Symbol 255 with a short code is where this fails. */
    method HuffDecode(h: Huffman) returns (r: int)
      requires Reader() && h.Built()
      modifies `pos, `nomore, `marker, `taken, `codeBuffer, `codeBits
      ensures var k := Symbol(h.lens, bits, old(Pos()));
        if Unnamed(k) then r < 0 || (Reader() && r < 256 && Pos() >= old(Pos()) + 10)
        else if r >= 0 then Reader() && k.Hit? && k.symbol < 256 && r == h.values[k.symbol] && Pos() == old(Pos()) + k.length
        else k.Miss? || old(Pos()) + k.length > |bits|
      ensures var k := Symbol(h.lens, bits, old(Pos()));
        !Unnamed(k) ==> (r >= 0 <==> k.Hit? && old(Pos()) + k.length <= 8 * taken)
    {
      hide Msb, Known, Shl, RightOf, MaskOf, Ahead, BitsOf, Low, Lookup, Last, First, Count, Kraft, Find, FirstSlot,
        SizesOf, CodesOf, LevelsOf, FastOf, Ascending, Matches, Reader;
      if codeBits < 16 {
        GrowBuffer();
      }
      Placed();
      ghost var p := Pos();
      Shown(9);
      Shown(16);
      FastLookup(h.lens, bits, p, h.fast[..]);
      var k: nat := h.fast[RightOf(codeBuffer, 23, 32)];
      if k < 255 {
        SizeAt(h.lens, h.size[..], k);
        var s := h.size[k];
        if s > codeBits {
          return -1;
        }
        Consume(s);
        return h.values[k];
      }
      r := DecodeLong(h);
    }

    /** stbi__extend_receive: the value in the next n bits, if they are there once the word has been filled.
        Otherwise, which happens only beyond the end of the scan, it is zero and nothing is taken. */
    method ExtendReceive(n: nat) returns (v: int)
      requires Reader() && n <= 15
      modifies `pos, `nomore, `marker, `taken, `codeBuffer, `codeBits
      ensures Reader() && (old(Pos()) + n > 8 * taken ==> old(Pos()) + n > |bits|)
      ensures if old(Pos()) + n <= 8 * taken then Pos() == old(Pos()) + n && v == Extend(Msb(bits, old(Pos()), n), n)
        else Pos() == old(Pos()) && v == 0
    {
      hide Msb, RotateOf, MaskOf, RightOf, Reader;
      if codeBits < n {
        GrowBuffer();
      }
      Placed();
      if codeBits < n {
        return 0;
      }
      Shown(n);
      SignOf(bits, Pos(), n);
      var sgn := RightOf(codeBuffer, 31, 32);
      if n > 0 { Shown(1); }
      var k := TakeRotated(n);
      v := if sgn == 0 then k - (Pow2(n) - 1) else k;
    }

    /** The first n bits are rotated to the bottom of the word and masked out there. */
    method TakeRotated(n: nat) returns (k: nat)
      requires Reader() && n <= 15 && n <= codeBits
      modifies `codeBuffer, `codeBits
      ensures Reader() && k == Msb(bits, old(Pos()), n) && Pos() == old(Pos()) + n
    {
      hide Msb, Known, RotateOf, MaskOf, RightOf, Ahead, BitsOf, Low;
      InWord(n);
      k := RotateOf(codeBuffer, n, 32);
      codeBuffer := k - MaskOf(k, n, 32);
      k := MaskOf(k, n, 32);
      codeBits := codeBits - n;
    }

    /** Rotating the word shows the first n bits and leaves the others. */
    lemma InWord(n: nat)
      requires Reader() && n <= 15 && n <= codeBits
      ensures var k := RotateOf(codeBuffer, n, 32);
        && MaskOf(k, n, 32) == Msb(bits, Pos(), n)
        && k - MaskOf(k, n, 32) == Msb(Known(bits, 8 * taken), Pos() + n, 32)
    {
      hide Msb, Known, BitsOf, Ahead, RotateOf, MaskOf, LeftOf, RightOf, Low, Shl, Shr, Pow2;
      RotateNumber(codeBuffer, n, 32);
      LeftNumber(codeBuffer, n, 32);
      KnownEnds(bits, 8 * taken);
      DropTop(Known(bits, 8 * taken), Pos(), n, 32);
      Shown(n);
      RightNumber(codeBuffer, 32 - n, 32);
      SignOf(bits, Pos(), n);
    }

    /** The codes of more than nine bits. */
    method DecodeLong(h: Huffman) returns (r: int)
      requires Reader() && h.Built() && (16 <= codeBits || 8 * taken >= |bits|)
      requires Unnamed(Symbol(h.lens, bits, Pos())) || Msb(bits, Pos(), 9) >= Last(h.lens, 9)
      modifies `codeBuffer, `codeBits
      ensures var k := Symbol(h.lens, bits, old(Pos()));
        if Unnamed(k) then r < 0 || (Reader() && r < 256 && Pos() >= old(Pos()) + 10)
        else if r >= 0 then Reader() && k.Hit? && k.symbol < 256 && r == h.values[k.symbol] && Pos() == old(Pos()) + k.length
        else k.Miss? || old(Pos()) + k.length > |bits|
      ensures var k := Symbol(h.lens, bits, old(Pos()));
        !Unnamed(k) ==> (r >= 0 <==> k.Hit? && old(Pos()) + k.length <= 8 * taken)
    {
      hide Msb, Known, Shl, RightOf, MaskOf, Ahead, BitsOf, Low, Lookup, Last, First, Count, Kraft, Find, FirstSlot,
        SizesOf, CodesOf, LevelsOf, FastOf, Ascending, Matches, Reader;
      Placed();
      ghost var p, maxcode, delta := Pos(), h.maxcode[..], h.delta[..];
      Shown(16);
      var temp := RightOf(codeBuffer, 16, 32);
      var k := FAST_BITS + 1;
      while temp >= h.maxcode[k]
        invariant 10 <= k <= 17 && Reader() && h.Built() && Pos() == p
        invariant h.maxcode[..] == maxcode && codeBits == old(codeBits) && codeBuffer == old(codeBuffer)
        invariant Unnamed(Symbol(h.lens, bits, p)) || Msb(bits, p, k - 1) >= Last(h.lens, k - 1)
        decreases 17 - k
      {
        PastLevel(h.lens, bits, p, k, maxcode, delta);
        k := k + 1;
      }
      if k == 17 {
        PastAll(h.lens, bits, p);
        codeBits := codeBits - 16;
        return -1;
      }
      r := TakeLong(h, k);
    }

    /** A code of k bits, if they are there. */
    method TakeLong(h: Huffman, k: nat) returns (r: int)
      requires Reader() && h.Built() && 10 <= k <= 16 && (16 <= codeBits || 8 * taken >= |bits|)
      requires RightOf(codeBuffer, 16, 32) < h.maxcode[k]
      requires Unnamed(Symbol(h.lens, bits, Pos())) || Msb(bits, Pos(), k - 1) >= Last(h.lens, k - 1)
      modifies `codeBuffer, `codeBits
      ensures var s := Symbol(h.lens, bits, old(Pos()));
        if Unnamed(s) then r < 0 || (Reader() && r < 256 && Pos() >= old(Pos()) + 10)
        else if r >= 0 then Reader() && s.Hit? && s.symbol < 256 && r == h.values[s.symbol] && Pos() == old(Pos()) + s.length
        else s.Miss? || old(Pos()) + s.length > |bits|
      ensures var s := Symbol(h.lens, bits, old(Pos()));
        !Unnamed(s) ==> (r >= 0 <==> s.Hit? && old(Pos()) + s.length <= 8 * taken)
    {
      hide Msb, Known, Shl, RightOf, MaskOf, Ahead, BitsOf, Low, Lookup, Last, First, Count, Kraft, Find, FirstSlot,
        SizesOf, CodesOf, LevelsOf, FastOf, Ascending, Matches, Reader;
      Placed();
      ghost var p := Pos();
      Shown(16);
      ghost var i := HitLevel(h.lens, bits, p, k, h.maxcode[..], h.delta[..]);
      if k > codeBits {
        return -1;
      }
      Shown(k);
      SmallMask(Msb(bits, p, k), k);
      var c := MaskOf(RightOf(codeBuffer, 32 - k, 32), k, 32) + h.delta[k];
      if c < 0 || c >= 256 {
        return -1;
      }
      Consume(k);
      r := h.values[c];
    }
  }

  lemma SmallMask(v: nat, k: nat)
    requires v < Pow2(k) && k <= 32
    ensures MaskOf(v, k, 32) == v
  {
    hide Pow2, MaskOf;
    Pow2Monotone(k, 32);
    MaskNumber(v, k, 32);
    LowOfSmall(v, k);
  }

  /** A byte goes below the n bits that a word of w bits shows of the stream. */
  lemma OrBelow(s: Stream, p: nat, n: nat, b: byte, w: nat)
    requires |s| <= p + n && n + 8 <= w
    ensures OrOf(Msb(s, p, w), LeftOf(b, w - 8 - n, w), w) == Msb(s, p, w) + Shl(b, w - 8 - n)
  {
    hide Msb, OrOf, LeftOf, Shl, Pow2;
    var m := w - 8 - n;
    MsbSplit(s, p, n, w - n);
    MsbBeyond(s, p + n, w - n);
    ByteFits(b, m, w);
    PowPositive(m);
    OrNumber(Shl(b, m), Msb(s, p, n), m + 8, w);
  }

  lemma PowPositive(n: nat)
    ensures Pow2(n) >= 1
  {
  }

  /** A lookahead of 16 bits that is not below the limit of a length is past its codes. */
  lemma PastLevel(lens: Lengths, s: Stream, p: nat, l: nat, maxcode: seq<nat>, delta: seq<int>)
    requires |maxcode| == 18 && |delta| == 17 && LevelsOf(lens, 17, maxcode, delta) && maxcode[17] == 0xFFFF_FFFF
    requires 0 < l <= 17 && Msb(s, p, 16) >= maxcode[l]
    ensures l < 17 && Msb(s, p, l) >= Last(lens, l)
  {
    hide Msb, Last, First, Shl, FirstSlot;
    Pow2Values();
    if l < 17 {
      assert LevelOf(lens, l, maxcode[l], delta[l]);
      PreshiftedCompare(s, p, l, 16, Last(lens, l));
    }
  }

  lemma PastAll(lens: Lengths, s: Stream, p: nat)
    requires Unnamed(Symbol(lens, s, p)) || Msb(s, p, 16) >= Last(lens, 16)
    ensures Unnamed(Symbol(lens, s, p)) || Symbol(lens, s, p).Miss?
  {
    if Msb(s, p, 16) >= Last(lens, 16) { LookupMisses(lens, s, p, 16); }
  }

  /** The first limit the lookahead is below gives the length, and the table's offset the symbol. */
  lemma HitLevel(lens: Lengths, s: Stream, p: nat, l: nat, maxcode: seq<nat>, delta: seq<int>) returns (i: nat)
    requires |maxcode| == 18 && |delta| == 17 && LevelsOf(lens, 17, maxcode, delta) && Ascending(lens) && |lens| <= 256
    requires 0 < l <= 16 && Msb(s, p, 16) < maxcode[l]
    requires Unnamed(Symbol(lens, s, p)) || Msb(s, p, l - 1) >= Last(lens, l - 1)
    ensures Unnamed(Symbol(lens, s, p))
            || (i < |lens| && Symbol(lens, s, p) == Hit(i, l) && Msb(s, p, l) + delta[l] == i)
  {
    hide Msb, Last, Shl, FirstSlot, Lookup, Count;
    i := 0;
    if !Unnamed(Symbol(lens, s, p)) {
      assert LevelOf(lens, l, maxcode[l], delta[l]);
      PreshiftedCompare(s, p, l, 16, Last(lens, l));
      MsbStep(s, p, l);
      i := SymbolInRange(lens, l, Msb(s, p, l));
      LookupFinds(lens, s, p, i, l, LONGEST);
      SlotIsIndex(lens, i);
    }
  }

  /** The first bit decides whether the number is in the upper half. */
  lemma SignOf(s: Stream, p: nat, n: nat)
    ensures n > 0 ==> (Msb(s, p, 1) == 0 <==> Msb(s, p, n) < Pow2(n - 1))
    ensures Msb(s, p, 0) == 0 && Pow2(0) == 1
  {
    if n > 0 {
      MsbFront(s, p, n);
      MsbStep(s, p, 1);
    }
  }

  lemma AheadByte(entropy: seq<byte>, taken: nat, rest: seq<byte>, rest': seq<byte>, b: byte)
    requires Ahead(entropy, taken, rest)
    requires if rest == [] then rest' == [] && b == 0 else rest == [b] + rest'
    ensures Ahead(entropy, taken + 1, rest') && b == ByteAt(entropy, taken)
  {
    if rest != [] {
      assert entropy[taken] == entropy[taken..][0];
      assert entropy[taken + 1..] == entropy[taken..][1..];
    }
  }

  lemma AheadEnd(entropy: seq<byte>, taken: nat, rest: seq<byte>)
    requires Ahead(entropy, taken, rest) && rest == []
    ensures taken >= |entropy| && Ahead(entropy, taken, [])
  {
  }

  lemma BitsLength(bytes: seq<byte>)
    ensures |BitsOf(bytes)| == 8 * |bytes|
  {
  }

  lemma MsbStep(s: Stream, p: nat, l: nat)
    requires l > 0
    ensures Msb(s, p, l) == 2 * Msb(s, p, l - 1) + Bit(s, p + l - 1)
  {
  }

  /** Decoding agrees with the canonical decoder on every stream exactly when there is no symbol 255 with
      a short code; no other table is affected by the mark. */
  lemma UnnamedIff(lens: Lengths)
    requires |lens| <= 256 && Ascending(lens) && KraftHolds(lens, LONGEST)
    ensures (exists s, p :: Unnamed(Symbol(lens, s, p))) <==> |lens| == 256 && lens[255] <= FAST_BITS
  {
    if |lens| == 256 && lens[255] <= FAST_BITS {
      var i := 255;
      var s := CodeBits(lens, i);
      CodeFits(lens, i, LONGEST);
      assert At(s, 0, s);
      MsbOfBigEndian(s, 0, Code(lens, i), lens[i]);
      LookupFinds(lens, s, 0, i, lens[i], LONGEST);
      assert Unnamed(Symbol(lens, s, 0));
    }
  }
}
