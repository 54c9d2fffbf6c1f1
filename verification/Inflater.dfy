/** stbi__zbuf: the inflater as it runs, with a 32-bit buffer of bits that are fetched a byte at a
    time, table-driven symbol decoding, and an output array that grows by doubling. Every method is
    proved against the reading of the stream in Deflate. */
module Inflater {
  import opened Bits
  import opened Words
  import opened Canonical
  import opened Deflate
  import opened ZHuffman

  const UINT_MAX: nat := 0xFFFF_FFFF

  /** The size at which doubling from `limit` has to stop. */
  ghost function Grown(limit: nat): (c: nat)
    requires 1 <= limit <= UINT_MAX
    ensures limit <= c <= UINT_MAX
    decreases UINT_MAX - limit
  {
    if limit > UINT_MAX / 2 then limit else Grown(limit * 2)
  }

  /** Doubling goes on as long as the size is a 32-bit number. */
  lemma {:induction false} GrownDoubles(limit: nat) returns (k: nat)
    requires 1 <= limit <= UINT_MAX
    ensures Grown(limit) == limit * Pow2(k) && 2 * Grown(limit) > 0xFFFF_FFFF
    decreases UINT_MAX - limit
  {
    k := 0;
    if limit <= UINT_MAX / 2 {
      var n := GrownDoubles(limit * 2);
      k := n + 1;
      Assoc(limit, 2, Pow2(n));
    }
  }

  /** The largest output for an initial buffer of that size: the buffer itself, unless it may grow. */
  ghost function Capacity(initial: nat, expandable: bool): (c: nat)
    requires 1 <= initial <= UINT_MAX
    ensures initial <= c <= UINT_MAX
  {
    if expandable then Grown(initial) else initial
  }

  class ZBuf {
    const data: seq<byte>
    ghost const bits: Stream
    var zbuffer: nat
    var numBits: nat
    var codeBuffer: nat
    ghost var phantom: nat  // zero bytes taken from beyond the end of the input

    var zoutStart: array<byte>
    var zout: nat
    const expandable: bool
    ghost const cap: nat

    const zLength: Table
    const zDistance: Table

    constructor (data: seq<byte>, initial: nat, expandable: bool)
      requires 1 <= initial <= UINT_MAX
      ensures Valid() && Pos() == 0 && numBits == 0 && Output() == []
      ensures this.data == data && cap == Capacity(initial, expandable)
      ensures fresh(this) && fresh(zoutStart) && fresh(zLength) && fresh(zDistance)
      ensures fresh(zLength.Arrays()) && fresh(zDistance.Arrays())
    {
      this.data := data;
      this.expandable := expandable;
      bits := ToBits(data);
      cap := Capacity(initial, expandable);
      zbuffer, numBits, codeBuffer, phantom := 0, 0, 0, 0;
      zoutStart := new byte[initial];
      zout := 0;
      zLength := new Table();
      zDistance := new Table();
    }

    // -------------------------------------------------------------------------
    // State

    /** The position in the stream of the next bit to be taken. */
    ghost function Pos(): int
      reads `zbuffer, `phantom, `numBits
    {
      8 * (zbuffer + phantom) - numBits
    }

    /** The buffered bits are exactly the next numBits bits of the zero-padded input. */
    ghost predicate Reader()
      reads `zbuffer, `phantom, `numBits, `codeBuffer
    {
      && bits == ToBits(data)
      && zbuffer <= |data| && (phantom > 0 ==> zbuffer == |data|)
      && 0 <= Pos() && numBits <= 32
      && codeBuffer == Lsb(bits, Pos(), numBits)
    }

    /** Masking and shifting the 32-bit buffer, as numbers. */
    lemma InWord(n: nat)
      requires Reader() && n <= numBits
      ensures MaskOf(codeBuffer, n, 32) == Low(codeBuffer, n) && RightOf(codeBuffer, n, 32) == Shr(codeBuffer, n)
    {
      hide Lsb, Low, Shr, Pow2, MaskOf, RightOf;
      Pow2Monotone(numBits, 32);
      MaskNumber(codeBuffer, n, 32);
      RightNumber(codeBuffer, n, 32);
    }

    lemma Placed()
      requires Reader()
      ensures bits == ToBits(data) && Pos() >= 0 && zbuffer <= |data| && (phantom > 0 ==> zbuffer == |data|)
    {
    }

    ghost predicate Room()
      reads `zoutStart, `zout
    {
      && zout <= zoutStart.Length && 1 <= zoutStart.Length <= UINT_MAX
      && cap == Capacity(zoutStart.Length, expandable)
    }

    ghost predicate Tables() {
      && zLength != zDistance && zLength.Shape() && zDistance.Shape()
      && zLength.Arrays() !! zDistance.Arrays()
    }

    ghost predicate Valid()
      reads this
    {
      Reader() && Room() && Tables()
    }

    ghost function Output(): (out: seq<byte>)
      requires Room()
      ensures |out| == zout <= cap
      reads `zoutStart, `zout, zoutStart
    {
      zoutStart[..zout]
    }

    // -------------------------------------------------------------------------
    // The bit reader

    predicate Zeof()
      reads `zbuffer
    {
      zbuffer >= |data|
    }

    /** stbi__zget8, called with no bits buffered or to extend the buffer; b is the next byte either way. */
    method Zget8() returns (b: byte)
      requires zbuffer <= |data| && (phantom > 0 ==> zbuffer == |data|)
      modifies `zbuffer, `phantom
      ensures zbuffer <= |data| && (phantom > 0 ==> zbuffer == |data|)
      ensures zbuffer + phantom == old(zbuffer + phantom) + 1
      ensures b == ByteAt(data, old(zbuffer + phantom))
    {
      if Zeof() {
        phantom := phantom + 1;
        b := 0;
      } else {
        b := data[zbuffer];
        zbuffer := zbuffer + 1;
      }
    }

    /** stbi__fill_bits. The check for a corrupt buffer, which the source answers by jumping to the
        end of the input, never fires. */
    method FillBits()
      requires Reader() && numBits <= 24
      modifies `zbuffer, `phantom, `numBits, `codeBuffer
      ensures Reader() && 24 < numBits && Pos() == old(Pos())
    {
      hide Lsb, Shl, Pow2, ToBits, OrOf, LeftOf;
      while true
        invariant Reader() && numBits <= 24 && Pos() == old(Pos())
        decreases 24 - numBits
      {
        if codeBuffer >= Pow2(numBits) {
          assert false;
        }
        ghost var p, n, at := Pos(), numBits, zbuffer + phantom;
        var b := Zget8();
        OrByte(codeBuffer, b, numBits, 32);
        codeBuffer := OrOf(codeBuffer, LeftOf(b, numBits, 32), 32);
        numBits := numBits + 8;
        FillStep(data, p, n, at);
        if numBits > 24 {
          break;
        }
      }
    }

    /** stbi__zreceive. */
    method Receive(n: nat) returns (k: nat)
      requires Reader() && n <= 16
      modifies `zbuffer, `phantom, `numBits, `codeBuffer
      ensures Reader() && k == Lsb(bits, old(Pos()), n) && Pos() == old(Pos()) + n
      ensures n > 0 ==> numBits <= 32 - n
    {
      hide Lsb, Low, Shr, ToBits, MaskOf, RightOf;
      if numBits < n {
        FillBits();
      }
      LsbTake(bits, Pos(), n, numBits);
      InWord(n);
      k := MaskOf(codeBuffer, n, 32);
      codeBuffer := RightOf(codeBuffer, n, 32);
      numBits := numBits - n;
    }

    /** Drop n bits that have been looked at in the buffer. */
    method Consume(n: nat)
      requires Reader() && n <= numBits
      modifies `numBits, `codeBuffer
      ensures Reader() && Pos() == old(Pos()) + n && numBits == old(numBits) - n
    {
      hide Lsb, Low, Shr, ToBits, MaskOf, RightOf;
      LsbTake(bits, Pos(), n, numBits);
      InWord(n);
      codeBuffer := RightOf(codeBuffer, n, 32);
      numBits := numBits - n;
    }

    // -------------------------------------------------------------------------
    // Symbols

    /** stbi__zhuffman_decode_slowpath: the code has more than nine bits, or there is none. Neither
        `b >= STBI__ZNSYMS` nor the late check of size[b] can fail. */
    method DecodeSlowpath(z: Table) returns (sym: int)
      requires Reader() && z.Built() && numBits >= 16
      requires Msb(bits, Pos(), 9) >= Last(z.lens, 9)
      modifies `numBits, `codeBuffer
      ensures Reader()
      ensures var h := Symbol(z.lens, bits, old(Pos()));
        if sym >= 0 then h.Hit? && h.symbol == sym && Pos() == old(Pos()) + h.length else h.Miss?
    {
      hide Lsb, Msb, Low, Shr, Shl, ToBits, Lookup, Last, First, FirstSlot, Count, Find, Reverse, Kraft, BitReverse;
      var k := BitReverse(codeBuffer, 16);
      LookaheadIsMsb(bits, Pos(), numBits);
      var s := ZFAST_BITS + 1;
      while k >= z.maxcode[s]
        invariant Reader() && Pos() == old(Pos()) && numBits == old(numBits)
        invariant 10 <= s <= 16 && Msb(bits, Pos(), s - 1) >= Last(z.lens, s - 1)
        decreases 16 - s
      {
        PastLevel(z.lens, bits, Pos(), s, z.firstcode[..], z.maxcode[..], z.firstsymbol[..]);
        s := s + 1;
      }
      if s >= 16 {
        LookupMisses(z.lens, bits, Pos(), BITS);
        return -1;
      }
      ghost var i := HitLevel(z.lens, bits, Pos(), s, z.firstcode[..], z.maxcode[..], z.firstsymbol[..]);
      SlotOfRank(z.lens, i, s, Msb(bits, Pos(), s));
      MsbShift(bits, Pos(), s, 16);
      assert SlotHolds(z.lens, i, z.size[..], z.value[..]);
      var b := Shr(k, 16 - s) - z.firstcode[s] + z.firstsymbol[s];
      assert b < ZNSYMS && z.size[b] == s;
      Consume(s);
      sym := z.value[b];
    }

    /** stbi__zhuffman_decode. It gives up exactly if there is no code, or if fewer than 16 bits are
        buffered and the input is used up; otherwise it finds the symbol that reading one bit at a time
        finds. */
    method Decode(z: Table) returns (sym: int)
      requires Reader() && z.Built()
      modifies `zbuffer, `phantom, `numBits, `codeBuffer
      ensures Reader()
      ensures var h := Symbol(z.lens, bits, old(Pos()));
        if sym >= 0 then h.Hit? && h.symbol == sym && Pos() == old(Pos()) + h.length
        else h.Miss? || |bits| < old(Pos()) + 16
      ensures sym < 0 <==> Symbol(z.lens, bits, old(Pos())).Miss? || (old(numBits) < 16 && old(zbuffer) >= |data|)
    {
      hide Lsb, Msb, Low, Shr, Shl, ToBits, Lookup, Last, First, FirstSlot, Count, Find, Reverse, Kraft, FastOf, Pow2, MaskOf;
      if numBits < 16 {
        if Zeof() {
          return -1;
        }
        FillBits();
      }
      Pow2Values();
      InWord(ZFAST_BITS);
      var b := z.fast[MaskOf(codeBuffer, ZFAST_BITS, 32)];
      FastLookup(z.lens, bits, Pos(), numBits, z.fast[..]);
      if b != 0 {
        Consume(b / 512);
        return b % 512;
      }
      sym := DecodeSlowpath(z);
    }

    // -------------------------------------------------------------------------
    // The output buffer

    /** stbi__zexpand: make room for n more bytes. It fails exactly when they cannot fit. */
    method Zexpand(n: nat) returns (ok: bool)
      requires Room() && zout + n > zoutStart.Length
      modifies `zoutStart
      ensures Room() && Output() == old(Output())
      ensures ok <==> zout + n <= cap
      ensures if ok then zout + n <= zoutStart.Length && fresh(zoutStart) else zoutStart == old(zoutStart)
    {
      if !expandable {
        return false;
      }
      var cur, limit := zout, zoutStart.Length;
      if UINT_MAX - cur < n {
        return false;
      }
      while cur + n > limit
        invariant Room() && zoutStart == old(zoutStart) && zout == cur
        invariant zoutStart.Length <= limit <= UINT_MAX && Grown(limit) == cap
        decreases UINT_MAX - limit
      {
        if limit > UINT_MAX / 2 {
          return false;
        }
        limit := limit * 2;
      }
      var q := new byte[limit];
      forall i | 0 <= i < zoutStart.Length { q[i] := zoutStart[i]; }
      zoutStart := q;
      ok := true;
    }

    /** The literal branch of stbi__parse_huffman_block. */
    method PutLiteral(b: byte) returns (ok: bool)
      requires Room()
      modifies `zout, `zoutStart, zoutStart
      ensures Room() && (zoutStart == old(zoutStart) || fresh(zoutStart))
      ensures ok <==> |old(Output())| + 1 <= cap
      ensures ok ==> Output() == old(Output()) + [b]
    {
      if zout >= zoutStart.Length {
        ok := Zexpand(1);
        if !ok {
          return;
        }
      }
      zoutStart[zout] := b;
      zout := zout + 1;
      ok := true;
    }

    /** The copying end of the match branch: room first, then one byte at a time from dist back. */
    method PutMatch(len: nat, dist: nat) returns (ok: bool)
      requires Room() && 1 <= dist <= zout
      modifies `zout, `zoutStart, zoutStart
      ensures Room() && (zoutStart == old(zoutStart) || fresh(zoutStart))
      ensures ok <==> |old(Output())| + len <= cap
      ensures ok ==> Output() == Copy(old(Output()), dist, len)
    {
      if zout + len > zoutStart.Length {
        ok := Zexpand(len);
        if !ok {
          return;
        }
      }
      if dist == 1 {
        RunOut(len);
      } else {
        CopyOut(len, dist);
      }
      ok := true;
    }

    /** A run of the last byte. */
    method RunOut(len: nat)
      requires Room() && 1 <= zout && zout + len <= zoutStart.Length
      modifies `zout, zoutStart
      ensures Room() && Output() == Copy(old(Output()), 1, len)
    {
      var v := zoutStart[zout - 1];
      var left := len;
      while left > 0
        invariant Room() && 1 <= zout && zout + left <= zoutStart.Length && zoutStart[zout - 1] == v
        invariant Copy(Output(), 1, left) == Copy(old(Output()), 1, len)
      {
        ghost var before := Output();
        zoutStart[zout] := v;
        zout := zout + 1;
        assert Output() == before + [before[|before| - 1]];
        left := left - 1;
      }
    }

    method CopyOut(len: nat, dist: nat)
      requires Room() && 1 <= dist <= zout && zout + len <= zoutStart.Length
      modifies `zout, zoutStart
      ensures Room() && Output() == Copy(old(Output()), dist, len)
    {
      hide Capacity, Copy;
      var p, left := zout - dist, len;
      while left > 0
        invariant Room() && p == zout - dist && dist <= zout && zout + left <= zoutStart.Length
        invariant Copy(Output(), dist, left) == Copy(old(Output()), dist, len)
      {
        ghost var before := Output();
        zoutStart[zout] := zoutStart[p];
        p, zout := p + 1, zout + 1;
        assert Output() == before + [before[|before| - dist]];
        CopyNext(before, dist, left);
        left := left - 1;
      }
      CopyNothing(Output(), dist);
    }

    // -------------------------------------------------------------------------
    // Blocks

    /** stbi__parse_huffman_block: the tokens of the block, in order, appended to the output.
        It gives up on a block that the bit-at-a-time reading accepts only within 16 bits of the
        end of the input. */
    method ParseHuffmanBlock() returns (ok: bool)
      requires Valid() && zLength.Built() && zDistance.Built()
      modifies `zbuffer, `phantom, `numBits, `codeBuffer, `zout, `zoutStart, zoutStart
      ensures Valid() && (zoutStart == old(zoutStart) || fresh(zoutStart))
      ensures var r := Tokens(zLength.lens, zDistance.lens, bits, old(Pos()), old(Output()), cap);
        if ok then r == Ok(Output(), Pos()) else r.Ok? ==> |bits| < r.pos + 16
    {
      hide Tokens, Reader, Capacity, Tables, Table.Built;
      Placed();
      ghost var goal := Tokens(zLength.lens, zDistance.lens, bits, Pos(), Output(), cap);
      ok := true;
      var more := true;
      while more
        invariant Valid() && (zoutStart == old(zoutStart) || fresh(zoutStart)) && Pos() >= 0
        invariant zLength.Built() && zDistance.Built()
        invariant if more then goal == Tokens(zLength.lens, zDistance.lens, bits, Pos(), Output(), cap)
          else if ok then goal == Ok(Output(), Pos()) else goal.Ok? ==> |bits| < goal.pos + 16
        decreases more, cap - zout
      {
        ok, more := ParseToken();
        Placed();
      }
    }

    /** One turn of its loop: a literal or a match, after which there is more, or the end. */
    method ParseToken() returns (ok: bool, more: bool)
      requires Valid() && zLength.Built() && zDistance.Built()
      modifies `zbuffer, `phantom, `numBits, `codeBuffer, `zout, `zoutStart, zoutStart
      ensures Valid() && (zoutStart == old(zoutStart) || fresh(zoutStart)) && zLength.Built() && zDistance.Built()
      ensures more ==> ok && zout > old(zout)
      ensures var r := Tokens(zLength.lens, zDistance.lens, bits, old(Pos()), old(Output()), cap);
        if more then r == Tokens(zLength.lens, zDistance.lens, bits, Pos(), Output(), cap)
        else if ok then r == Ok(Output(), Pos()) else r.Ok? ==> |bits| < r.pos + 16
    {
      hide Tokens, Match, Symbol, Lsb, ToBits, Capacity, Tables, FastOf, LevelsOf, SlotsOf, KraftHolds, Bounded, Room, Reader;
      Placed();
      ghost var p, out := Pos(), Output();
      more := false;
      var z := Decode(zLength);
      TokenStep(zLength.lens, zDistance.lens, bits, p, out, cap);
      if z < 256 {
        if z < 0 {
          return false, false;
        }
        ok := PutLiteral(z);
        more := ok;
      } else {
        if z == 256 {
          return true, false;
        }
        if z >= 286 {
          return false, false;
        }
        ok := ParseMatch(z - 257);
        more := ok;
      }
    }

    /** A base value plus its extra bits, if it has any. */
    method ReceiveExtra(base: nat, n: nat) returns (v: nat)
      requires Reader() && n <= 16
      modifies `zbuffer, `phantom, `numBits, `codeBuffer
      ensures Reader() && v == base + Lsb(bits, old(Pos()), n) && Pos() == old(Pos()) + n
    {
      v := base;
      if n != 0 {
        var k := Receive(n);
        v := v + k;
      }
    }

    /** The match branch: length, distance, and the copy. */
    method ParseMatch(z: nat) returns (ok: bool)
      requires Valid() && zDistance.Built() && z < 29
      modifies `zbuffer, `phantom, `numBits, `codeBuffer, `zout, `zoutStart, zoutStart
      ensures Valid() && (zoutStart == old(zoutStart) || fresh(zoutStart))
      ensures ok ==> zout > old(zout)
      ensures var r := Match(zLength.lens, zDistance.lens, bits, old(Pos()), z, old(Output()), cap);
        if ok then r == Tokens(zLength.lens, zDistance.lens, bits, Pos(), Output(), cap) else r.Ok? ==> |bits| < r.pos + 16
    {
      hide Tokens, Match, Symbol, Lsb, Copy, Room, Tables, FastOf, LevelsOf, SlotsOf, KraftHolds, Bounded, Reader;
      hide LengthBase, LengthExtra, DistBase, DistExtra;
      Placed();
      ghost var p0, out := Pos(), Output();
      var len := ReceiveExtra(LengthBase(z), LengthExtra(z));
      MatchStep(zLength.lens, zDistance.lens, bits, p0, z, out, cap);
      var dist := ReadDistance();
      if dist < 0 || zout < dist {
        return false;
      }
      ok := PutMatch(len, dist);
    }

    /** A distance code and its extra bits. */
    method ReadDistance() returns (dist: int)
      requires Reader() && zDistance.Built()
      modifies `zbuffer, `phantom, `numBits, `codeBuffer
      ensures Reader()
      ensures var p, h := old(Pos()), Symbol(zDistance.lens, bits, old(Pos()));
        if dist >= 0 then
          && h.Hit? && h.symbol < 30 && dist == DistBase(h.symbol) + Lsb(bits, p + h.length, DistExtra(h.symbol))
          && dist > 0 && Pos() == p + h.length + DistExtra(h.symbol)
        else h.Miss? || h.symbol >= 30 || |bits| < p + 16
    {
      hide Symbol, Lsb, ToBits, FastOf, LevelsOf, SlotsOf, KraftHolds, Bounded, DistBase, DistExtra;
      var d := Decode(zDistance);
      if d < 0 || d >= 30 {
        return -1;
      }
      dist := ReceiveExtra(DistBase(d), DistExtra(d));
    }

    /** stbi__compute_huffman_codes: the two tables of a dynamic block. */
    method ComputeHuffmanCodes() returns (ok: bool)
      requires Valid()
      modifies `zbuffer, `phantom, `numBits, `codeBuffer
      modifies zLength, zDistance, zLength.Arrays(), zDistance.Arrays()
      ensures Valid()
      ensures var r := Dynamic(bits, old(Pos()));
        if ok then r == Ok((zLength.lens, zDistance.lens), Pos()) && zLength.Built() && zDistance.Built()
        else r.Ok? ==> |bits| < r.pos + 16
    {
      hide DynamicLengths, Reader, Room, FastOf, LevelsOf, SlotsOf, KraftHolds, Bounded;
      Placed();
      var lencodes, hlit, ntot;
      ok, lencodes, hlit, ntot := ReadHeaderLengths();
      if !ok {
        return;
      }
      SplitBounded(lencodes[..ntot], hlit);
      ghost var lens := lencodes[..ntot];
      assert lencodes[..hlit] == lens[..hlit] && lencodes[hlit..ntot] == lens[hlit..];
      ok := zLength.Build(lencodes[..hlit]);
      if !ok {
        return;
      }
      ok := zDistance.Build(lencodes[hlit..ntot]);
    }

    /** Its first part, up to the two calls that build the tables. */
    method ReadHeaderLengths() returns (ok: bool, lencodes: array<nat>, hlit: nat, ntot: nat)
      requires Reader()
      modifies `zbuffer, `phantom, `numBits, `codeBuffer
      ensures Reader() && fresh(lencodes)
      ensures var r := DynamicLengths(bits, old(Pos()));
        if ok then hlit < ntot <= lencodes.Length && r == Ok((hlit, lencodes[..ntot]), Pos())
        else r.Ok? ==> |bits| < r.pos + 16
    {
      hide Lsb, ReadLengths, MetaLengths, Reader, Table.Built, Table.Shape, Table.Arrays, KraftHolds;
      var hdist, hclen;
      hlit, hdist, hclen := ReceiveCounts();
      ntot := hlit + hdist;
      lencodes := new nat[286 + 32 + 137];
      var zCodelength;
      ok, zCodelength := CodelengthTable(hclen);
      if !ok {
        return;
      }
      ok := ReadCodeLengths(zCodelength, lencodes, ntot);
    }

    /** The code length code. */
    method CodelengthTable(hclen: nat) returns (ok: bool, z: Table)
      requires Reader() && hclen <= 19
      modifies `zbuffer, `phantom, `numBits, `codeBuffer
      ensures Reader() && Pos() == old(Pos()) + 3 * hclen && fresh(z) && fresh(z.Arrays())
      ensures ok <==> Usable(MetaLengths(bits, old(Pos()), hclen))
      ensures ok ==> z.Built() && z.lens == MetaLengths(bits, old(Pos()), hclen)
    {
      hide Reader, MetaLengths, Table.Built, KraftHolds;
      var sizes := ReceiveMetaLengths(hclen);
      z := new Table();
      ok := z.Build(sizes);
    }

    method ReceiveCounts() returns (hlit: nat, hdist: nat, hclen: nat)
      requires Reader()
      modifies `zbuffer, `phantom, `numBits, `codeBuffer
      ensures Reader() && Pos() == old(Pos()) + 14
      ensures hlit == Lsb(bits, old(Pos()), 5) + 257 && 257 <= hlit <= 288
      ensures hdist == Lsb(bits, old(Pos()) + 5, 5) + 1 && 1 <= hdist <= 32
      ensures hclen == Lsb(bits, old(Pos()) + 10, 4) + 4 && 4 <= hclen <= 19
    {
      hide Lsb, Reader;
      Pow2Values();
      hlit := ReceiveExtra(257, 5);
      hdist := ReceiveExtra(1, 5);
      hclen := ReceiveExtra(4, 4);
    }

    method ReceiveMetaLengths(hclen: nat) returns (sizes: seq<nat>)
      requires Reader() && hclen <= 19
      modifies `zbuffer, `phantom, `numBits, `codeBuffer
      ensures Reader() && Pos() == old(Pos()) + 3 * hclen && sizes == MetaLengths(bits, old(Pos()), hclen)
    {
      hide Lsb, ToBits, Bounded, Order, Reader, MetaLengths;
      var codelengthSizes := new nat[19](_ => 0);
      var i := 0;
      Placed();
      MetaNone(bits, Pos());
      while i < hclen
        invariant i <= hclen && Reader() && Pos() == old(Pos()) + 3 * i
        invariant codelengthSizes[..] == MetaLengths(bits, old(Pos()), i)
      {
        ghost var before := codelengthSizes[..];
        var s := Receive(3);
        codelengthSizes[Order(i)] := s;
        assert codelengthSizes[..] == before[Order(i) := s];
        MetaNext(bits, old(Pos()), i);
        i := i + 1;
      }
      sizes := codelengthSizes[..];
    }

    /** The loop that expands run-length coded code lengths into lencodes. */
    method ReadCodeLengths(z: Table, lencodes: array<nat>, ntot: nat) returns (ok: bool)
      requires Reader() && z.Built() && |z.lens| == 19 && lencodes !in z.Arrays()
      requires ntot <= 320 && lencodes.Length == 455
      modifies `zbuffer, `phantom, `numBits, `codeBuffer, lencodes
      ensures Reader()
      ensures var r := ReadLengths(z.lens, bits, old(Pos()), [], ntot);
        if ok then r == Ok(lencodes[..ntot], Pos()) else r.Ok? ==> |bits| < r.pos + 16
    {
      hide ReadLengths, FastOf, LevelsOf, SlotsOf, KraftHolds, Reader;
      Placed();
      ghost var goal := ReadLengths(z.lens, bits, Pos(), [], ntot);
      var n := 0;
      assert lencodes[..0] == [];
      while n < ntot
        invariant Reader() && Pos() >= 0 && n <= ntot && z.Built() && Bounded(lencodes[..n], BITS)
        invariant goal == ReadLengths(z.lens, bits, Pos(), lencodes[..n], ntot)
        decreases ntot - n
      {
        ok, n := ReadCodeLength(z, lencodes, n, ntot);
        if !ok {
          return;
        }
        Placed();
      }
      ReadDone(z.lens, bits, Pos(), lencodes[..n], ntot);
      ok := true;
    }

    /** One symbol of the code length code: a length, or a run of them. */
    method ReadCodeLength(z: Table, lencodes: array<nat>, n: nat, ntot: nat) returns (ok: bool, n': nat)
      requires Reader() && z.Built() && |z.lens| == 19 && lencodes !in z.Arrays()
      requires n < ntot <= 320 && lencodes.Length == 455 && Bounded(lencodes[..n], BITS)
      modifies `zbuffer, `phantom, `numBits, `codeBuffer, lencodes
      ensures Reader()
      ensures ok ==> n < n' <= ntot && Bounded(lencodes[..n'], BITS)
      ensures var r := ReadLengths(z.lens, bits, old(Pos()), old(lencodes[..n]), ntot);
        if ok then r == ReadLengths(z.lens, bits, Pos(), lencodes[..n'], ntot) else r.Ok? ==> |bits| < r.pos + 16
    {
      hide Lsb, ToBits, Symbol, ReadLengths, Table.Built, Reader;
      Placed();
      ghost var acc := lencodes[..n];
      ReadStep(z.lens, bits, Pos(), acc, ntot);
      n' := n;
      var c := Decode(z);
      if c < 0 || c >= 19 {
        return false, n;
      }
      Placed();
      if c < 16 {
        lencodes[n] := c;
        n' := n + 1;
        assert lencodes[..n'] == acc + [c];
      } else {
        ok, n' := ExpandRun(c, lencodes, n, ntot);
        if !ok {
          return;
        }
      }
      ok := true;
    }

    /** A run, if there is something to repeat and it fits. */
    method ExpandRun(c: nat, lencodes: array<nat>, n: nat, ntot: nat) returns (ok: bool, n': nat)
      requires Reader() && 16 <= c < 19 && n < ntot <= lencodes.Length
      modifies `zbuffer, `phantom, `numBits, `codeBuffer, lencodes
      ensures Reader()
      ensures c == 16 && n == 0 ==> !ok
      ensures !(c == 16 && n == 0) ==>
        var (fill, bs, base) := RunOf(c, old(lencodes[..n]));
        var run := base + Lsb(bits, old(Pos()), bs);
        && (ok <==> run <= ntot - n)
        && (ok ==> n' == n + run && lencodes[..n'] == old(lencodes[..n]) + Replicate(fill, run) && Pos() == old(Pos()) + bs)
      ensures ok && Bounded(old(lencodes[..n]), BITS) ==> Bounded(lencodes[..n'], BITS)
    {
      hide Lsb, Reader;
      var fill, run;
      ok, fill, run := ReceiveRun(c, lencodes, n);
      n' := n;
      if !ok {
        return;
      }
      if ntot - n < run {
        return false, n;
      }
      FillRun(lencodes, n, fill, run);
      n' := n + run;
    }

    method FillRun(lencodes: array<nat>, n: nat, fill: nat, run: nat)
      requires n + run <= lencodes.Length
      modifies lencodes
      ensures lencodes[..n + run] == old(lencodes[..n]) + Replicate(fill, run)
    {
      forall i | n <= i < n + run { lencodes[i] := fill; }
    }

    /** The repeated length and the length of the run. */
    method ReceiveRun(c: nat, lencodes: array<nat>, n: nat) returns (ok: bool, fill: nat, run: nat)
      requires Reader() && 16 <= c < 19 && n <= lencodes.Length
      modifies `zbuffer, `phantom, `numBits, `codeBuffer
      ensures Reader() && (ok <==> !(c == 16 && n == 0))
      ensures ok ==> var (f, bs, base) := RunOf(c, lencodes[..n]);
        fill == f && run == base + Lsb(bits, old(Pos()), bs) && Pos() == old(Pos()) + bs
    {
      hide Lsb, ToBits;
      fill := 0;
      ok := true;
      if c == 16 {
        run := ReceiveExtra(3, 2);
        if n == 0 {
          return false, 0, run;
        }
        fill := lencodes[n - 1];
      } else if c == 17 {
        run := ReceiveExtra(3, 3);
      } else {
        run := ReceiveExtra(11, 7);
      }
    }

    /** stbi__parse_uncompressed_block. At most three whole bytes are buffered, so the header ends
        where the input cursor stands and the payload is copied from there. */
    method ParseUncompressedBlock() returns (ok: bool)
      requires Valid() && numBits <= 31
      modifies `zbuffer, `phantom, `numBits, `codeBuffer, `zout, `zoutStart, zoutStart
      ensures Valid() && (zoutStart == old(zoutStart) || fresh(zoutStart))
      ensures var r := Stored(bits, old(Pos()), old(Output()), cap);
        if ok then r == Ok(Output(), Pos()) else r.Failed?
    {
      hide Lsb, ToBits, Stored, Align, Reader, Capacity, Tables;
      Placed();
      ghost var p, q := Pos(), Align(Pos());
      DiscardToByte();
      var header := ReadHeader(q);
      Placed();
      StoredByHeader(data, p, header, Output(), cap);
      var len, nlen := header[1] * 256 + header[0], header[3] * 256 + header[2];
      if nlen != 0xFFFF - len {
        return false;
      }
      ok := CopyPayload(len);
    }

    /** Copy len bytes from the input cursor, if they are there and fit. */
    method CopyPayload(len: nat) returns (ok: bool)
      requires Valid() && numBits == 0 && (len == 0 ==> phantom == 0)
      modifies `zbuffer, `codeBuffer, `zout, `zoutStart, zoutStart
      ensures Valid() && (zoutStart == old(zoutStart) || fresh(zoutStart))
      ensures var q := old(zbuffer + phantom);
        && (ok <==> q + len <= |data| && |old(Output())| + len <= cap)
        && (ok ==> Output() == old(Output()) + data[q..q + len] && Pos() == 8 * (q + len))
    {
      hide Lsb, ToBits, Capacity;
      if zbuffer + len > |data| {
        return false;
      }
      if zout + len > zoutStart.Length {
        ok := Zexpand(len);
        if !ok {
          return;
        }
      }
      StoreBytes(len);
      ok := true;
    }

    /** memcpy of the payload. */
    method StoreBytes(len: nat)
      requires Reader() && Room() && numBits == 0 && phantom == 0
      requires zbuffer + len <= |data| && zout + len <= zoutStart.Length
      modifies `zbuffer, `codeBuffer, `zout, zoutStart
      ensures Reader() && Room() && numBits == 0 && Pos() == old(Pos()) + 8 * len
      ensures Output() == old(Output()) + data[old(zbuffer)..old(zbuffer) + len]
    {
      ghost var before := Output();
      forall i | 0 <= i < len { zoutStart[zout + i] := data[zbuffer + i]; }
      zbuffer, zout := zbuffer + len, zout + len;
      assert Output()[..|before|] == before;
    }

    /** Skip to the next byte boundary of the stream. */
    method DiscardToByte()
      requires Reader() && numBits <= 31
      modifies `zbuffer, `phantom, `numBits, `codeBuffer
      ensures Reader() && Pos() == 8 * Align(old(Pos())) && numBits % 8 == 0 && numBits <= 24
    {
      hide Lsb, ToBits, Align;
      ghost var p, at, m := Pos(), zbuffer + phantom, numBits;
      if numBits % 8 != 0 {
        Consume(numBits % 8);
      }
      AlignBack(p, at, m);
    }

    /** Drain the buffered bytes into the header, then read the rest of it. */
    method ReadHeader(ghost q: nat) returns (header: seq<nat>)
      requires Reader() && Pos() == 8 * q && numBits % 8 == 0 && numBits <= 24
      modifies `zbuffer, `phantom, `numBits, `codeBuffer
      ensures Reader() && numBits == 0 && Pos() == 8 * (q + 4)
      ensures |header| == 4 && forall i :: 0 <= i < 4 ==> header[i] == ByteAt(data, q + i)
    {
      hide Lsb, ToBits;
      var bytes := new nat[4];
      var k := DrainBytes(q, bytes);
      while k < 4
        invariant k <= 4 && Reader() && numBits == 0 && Pos() == 8 * (q + k)
        invariant forall i :: 0 <= i < k ==> bytes[i] == ByteAt(data, q + i)
      {
        var b := Zget8();
        bytes[k] := b;
        k := k + 1;
        LsbNone(bits, Pos());
      }
      header := bytes[..];
    }

    method DrainBytes(ghost q: nat, bytes: array<nat>) returns (k: nat)
      requires Reader() && Pos() == 8 * q && numBits % 8 == 0 && numBits <= 24 && bytes.Length == 4
      modifies `numBits, `codeBuffer, bytes
      ensures Reader() && numBits == 0 && Pos() == 8 * (q + k) && k <= 3
      ensures forall i :: 0 <= i < k ==> bytes[i] == ByteAt(data, q + i)
    {
      hide Reader;
      ghost var m := numBits / 8;
      k := 0;
      while numBits > 0
        invariant Reader() && Pos() == 8 * (q + k) && k <= m <= 3 && numBits == 8 * (m - k)
        invariant forall i :: 0 <= i < k ==> bytes[i] == ByteAt(data, q + i)
        decreases numBits
      {
        var b := TakeByte(q + k);
        bytes[k] := b;
        k := k + 1;
      }
    }

    method TakeByte(ghost at: nat) returns (b: byte)
      requires Reader() && Pos() == 8 * at && 8 <= numBits
      modifies `numBits, `codeBuffer
      ensures Reader() && b == ByteAt(data, at) && Pos() == old(Pos()) + 8 && numBits == old(numBits) - 8
    {
      hide Lsb, ToBits, Low, MaskOf;
      ToBitsByte(data, at);
      LsbTake(bits, Pos(), 8, numBits);
      InWord(8);
      b := MaskOf(codeBuffer, 8, 32);
      Consume(8);
    }

    // -------------------------------------------------------------------------
    // The stream

    /** stbi__parse_zlib_header. */
    method ParseZlibHeader() returns (ok: bool)
      requires Valid() && zbuffer == phantom == numBits == 0
      modifies `zbuffer, `phantom, `codeBuffer
      ensures ok <==> ZlibHeader(data)
      ensures ok ==> Valid() && Pos() == 16 && Output() == old(Output())
    {
      var cmf: int := Zget8();
      var cm := cmf % 16;
      var flg: int := Zget8();
      if Zeof() {
        return false;
      }
      if (cmf * 256 + flg) % 31 != 0 {
        return false;
      }
      if flg / 32 % 2 != 0 {
        return false;
      }
      if cm != 8 {
        return false;
      }
      codeBuffer := 0;
      LsbNone(bits, Pos());
      ok := true;
    }

    method UseFixedCodes()
      requires Tables()
      modifies zLength, zDistance, zLength.Arrays(), zDistance.Arrays()
      ensures zLength.Built() && zLength.lens == FixedLiterals()
      ensures zDistance.Built() && zDistance.lens == FixedDistances()
    {
      hide FastOf, LevelsOf, SlotsOf, KraftHolds, FixedLiterals, FixedDistances;
      FixedCodesAccepted();
      assert Usable(FixedLiterals()) && Usable(FixedDistances());
      var ok := zLength.Build(FixedLiterals());
      ok := zDistance.Build(FixedDistances());
    }

    /** One block, after its final bit: the body of the loop of stbi__parse_zlib. */
    method ParseBlock() returns (ok: bool)
      requires Valid() && numBits <= 31
      modifies `zbuffer, `phantom, `numBits, `codeBuffer, `zout, `zoutStart, zoutStart
      modifies zLength, zDistance, zLength.Arrays(), zDistance.Arrays()
      ensures Valid() && (zoutStart == old(zoutStart) || fresh(zoutStart))
      ensures var r := Block(bits, old(Pos()), old(Output()), cap);
        if ok then r == Ok(Output(), Pos()) else r.Ok? ==> |bits| < r.pos + 16
    {
      hide Lsb, Block, Stored, CodedBlock, Reader, Room, Tables, Table.Arrays;
      Placed();
      BlockStep(bits, Pos(), Output(), cap);
      var kind := Receive(2);
      if kind == 0 {
        ok := ParseUncompressedBlock();
      } else if kind == 3 {
        ok := false;
      } else {
        ok := ParseCodedBlock(kind);
      }
    }

    /** A block of kind 1 or 2, behind the bits that say so. */
    method ParseCodedBlock(kind: nat) returns (ok: bool)
      requires Valid() && 1 <= kind <= 2
      modifies `zbuffer, `phantom, `numBits, `codeBuffer, `zout, `zoutStart, zoutStart
      modifies zLength, zDistance, zLength.Arrays(), zDistance.Arrays()
      ensures Valid() && (zoutStart == old(zoutStart) || fresh(zoutStart))
      ensures var r := CodedBlock(kind, bits, old(Pos()), old(Output()), cap);
        if ok then r == Ok(Output(), Pos()) else r.Ok? ==> |bits| < r.pos + 16
    {
      hide Tokens, Dynamic, FixedLiterals, FixedDistances, Reader, Room, Tables, Table.Built, Table.Arrays;
      ok := BlockTables(kind);
      if ok {
        Placed();
        ok := ParseHuffmanBlock();
      }
    }

    /** The tables of a block of kind 1, the fixed ones, or of kind 2, its own. */
    method BlockTables(kind: nat) returns (ok: bool)
      requires Valid() && 1 <= kind <= 2
      modifies `zbuffer, `phantom, `numBits, `codeBuffer
      modifies zLength, zDistance, zLength.Arrays(), zDistance.Arrays()
      ensures Valid() && Output() == old(Output())
      ensures ok ==> zLength.Built() && zDistance.Built()
      ensures kind == 1 ==>
        ok && Pos() == old(Pos()) && zLength.lens == FixedLiterals() && zDistance.lens == FixedDistances()
      ensures kind == 2 ==>
        var r := Dynamic(bits, old(Pos()));
        if ok then r == Ok((zLength.lens, zDistance.lens), Pos()) else r.Ok? ==> |bits| < r.pos + 16
    {
      hide Lsb, ToBits, Capacity, Dynamic, FastOf, LevelsOf, SlotsOf, KraftHolds, Bounded, FixedLiterals, FixedDistances;
      ok := true;
      if kind == 1 {
        UseFixedCodes();
      } else {
        ok := ComputeHuffmanCodes();
      }
    }

    /** stbi__parse_zlib. On success the output is what the stream means, and the reader stands at the
        end of the last block. It fails on a stream that the bit-at-a-time reading accepts only if
        fewer than 16 bits follow the last block. */
    method ParseZlib(parseHeader: bool) returns (ok: bool)
      requires Valid() && zbuffer == phantom == numBits == 0 && Output() == []
      modifies this, zoutStart, zLength, zDistance, zLength.Arrays(), zDistance.Arrays()
      ensures ok ==> Valid()
      ensures var r := Inflate(data, parseHeader, cap);
        if ok then r == Ok(Output(), Pos()) else r.Ok? ==> |bits| < r.pos + 16
    {
      hide Lsb, ToBits, Capacity, Block, Blocks, ZlibHeader, Tables, Table.Arrays;
      ghost var goal := Inflate(data, parseHeader, cap);
      if parseHeader {
        ok := ParseZlibHeader();
        if !ok {
          return;
        }
      }
      while true
        invariant Valid() && (zoutStart == old(zoutStart) || fresh(zoutStart))
        invariant goal == Blocks(bits, Pos(), Output(), cap)
        decreases |bits| - Pos()
      {
        ghost var p, out := Pos(), Output();
        BlocksStep(bits, p, out, cap);
        var final := Receive(1);
        ok := ParseBlock();
        if !ok {
          return;
        }
        if final != 0 {
          break;
        }
      }
    }
  }

  // ---------------------------------------------------------------------------
  // Lemmas about the buffer and the tables

  lemma LsbNone(s: Stream, p: nat)
    ensures Lsb(s, p, 0) == 0
  {
  }

  /** With n bits buffered up to byte at, dropping n % 8 of them reaches a byte boundary. */
  lemma AlignBack(p: nat, at: nat, n: nat)
    requires p == 8 * at - n
    ensures p + n % 8 == 8 * Align(p)
  {
  }

  lemma HeaderNumbers(data: seq<byte>, q: nat, header: seq<nat>)
    requires |header| == 4 && forall i :: 0 <= i < 4 ==> header[i] == ByteAt(data, q + i)
    ensures Lsb(ToBits(data), 8 * q, 16) == header[1] * 256 + header[0]
    ensures Lsb(ToBits(data), 8 * q + 16, 16) == header[3] * 256 + header[2]
  {
    hide Lsb, ToBits;
    TwoBytesNumber(data, q);
    TwoBytesNumber(data, q + 2);
    assert 8 * q + 16 == 8 * (q + 2);
  }

  lemma TwoBytesNumber(data: seq<byte>, q: nat)
    ensures Lsb(ToBits(data), 8 * q, 16) == ByteAt(data, q) + 256 * ByteAt(data, q + 1)
  {
    hide Lsb, ToBits;
    ToBitsByte(data, q);
    ToBitsByte(data, q + 1);
    TwoBytes(ToBits(data), 8 * q, 8);
    Pow2Values();
    assert 8 * q + 8 == 8 * (q + 1);
  }

  /** A stored block, by its header. Passing the complement check puts the whole header inside the input. */
  lemma StoredByHeader(data: seq<byte>, p: nat, header: seq<nat>, out: seq<byte>, cap: nat)
    requires |header| == 4 && forall i :: 0 <= i < 4 ==> header[i] == ByteAt(data, Align(p) + i)
    requires |out| <= cap
    ensures var q := Align(p);
      var len, nlen := header[1] * 256 + header[0], header[3] * 256 + header[2];
      && (nlen + len == 0xFFFF && len == 0 ==> q + 4 <= |data|)
      && Stored(ToBits(data), p, out, cap) ==
         if nlen + len != 0xFFFF || q + 4 + len > |data| || |out| + len > cap then Failed
         else Ok(out + data[q + 4..q + 4 + len], 8 * (q + 4 + len))
  {
    hide Lsb, BytesOf, Align;
    var q := Align(p);
    HeaderNumbers(data, q, header);
    var len, nlen := header[1] * 256 + header[0], header[3] * 256 + header[2];
    if nlen + len == 0xFFFF && q + 4 + len <= |data| {
      PayloadBytes(data, q + 4, len);
    }
  }

  lemma PayloadBytes(data: seq<byte>, i: nat, n: nat)
    requires i + n <= |data|
    ensures BytesOf(ToBits(data), i, n) == data[i..i + n]
  {
    hide ByteOf;
    var s := BytesOf(ToBits(data), i, n);
    forall k | 0 <= k < n
      ensures s[k] == data[i..i + n][k]
    {
      PayloadByte(data, i + k);
    }
  }

  lemma PayloadByte(data: seq<byte>, i: nat)
    ensures ByteOf(ToBits(data), i) == ByteAt(data, i)
  {
    ToBitsByte(data, i);
  }

  lemma SplitBounded(lens: Lengths, n: nat)
    requires n <= |lens|
    ensures Bounded(lens, BITS) ==> Bounded(lens[..n], BITS) && Bounded(lens[n..], BITS)
  {
  }

  lemma LookaheadIsMsb(s: Stream, p: nat, n: nat)
    requires n >= 16
    ensures BitReverse(Lsb(s, p, n), 16) == Msb(s, p, 16)
  {
    hide Lsb, Msb, Low, Reverse, Shr, BitReverse16;
    SwapsReverse(Lsb(s, p, n));
    LookaheadIn(s, p, n, 16);
    ShrNone(Reverse(Low(Lsb(s, p, n), 16), 16));
  }

  lemma ShrNone(v: nat)
    ensures Shr(v, 0) == v
  {
  }

  lemma LookaheadIn(s: Stream, p: nat, n: nat, word: nat)
    requires n >= word
    ensures Reverse(Low(Lsb(s, p, n), word), word) == Msb(s, p, word)
  {
    LsbTake(s, p, word, n);
    ReverseLsb(s, p, word);
  }

  /** One failed comparison of the slow loop: the bits are past every code of this length too. */
  lemma PastLevel(lens: Lengths, s: Stream, p: nat, l: nat, f: seq<nat>, m: seq<nat>, fs: seq<nat>)
    requires |f| == 16 && |m| == 17 && |fs| == 16 && LevelsOf(lens, 16, f, m, fs) && m[16] == 0x10000
    requires 0 < l <= 16 && Msb(s, p, 16) >= m[l]
    ensures l < 16 && Msb(s, p, l) >= Last(lens, l)
  {
    hide Msb, Last, First, Shl, FirstSlot;
    Pow2Values();
    if l < 16 {
      assert LevelOf(lens, l, f[l], m[l], fs[l]);
      PreshiftedCompare(s, p, l, 16, Last(lens, l));
    }
  }

  lemma HitLevel(lens: Lengths, s: Stream, p: nat, l: nat, f: seq<nat>, m: seq<nat>, fs: seq<nat>) returns (i: nat)
    requires |f| == 16 && |m| == 17 && |fs| == 16 && LevelsOf(lens, 16, f, m, fs)
    requires 0 < l < 16 && Msb(s, p, 16) < m[l] && Msb(s, p, l - 1) >= Last(lens, l - 1)
    ensures LevelOf(lens, l, f[l], m[l], fs[l])
    ensures Matches(lens, i, l, Msb(s, p, l)) && Symbol(lens, s, p) == Hit(i, l)
  {
    assert LevelOf(lens, l, f[l], m[l], fs[l]);
    PreshiftedCompare(s, p, l, 16, Last(lens, l));
    i := SymbolInRange(lens, l, Msb(s, p, l));
    LookupFinds(lens, s, p, i, l, BITS);
  }

  lemma SlotOfRank(lens: Lengths, i: nat, l: nat, acc: nat)
    requires Matches(lens, i, l, acc)
    ensures Slot(lens, i) == acc - First(lens, l) + FirstSlot(lens, l)
  {
  }

  /** What the fast entry under the next nine bits says about the symbol there. */
  lemma FastLookup(lens: Lengths, s: Stream, p: nat, n: nat, fast: seq<nat>)
    requires n >= 9 && |lens| <= 512 && Bounded(lens, MAX_BITS) && KraftHolds(lens, MAX_BITS) && FastOf(lens, |lens|, fast)
    ensures Low(Lsb(s, p, n), 9) < 512
    ensures var e := fast[Low(Lsb(s, p, n), 9)];
      if e != 0 then Symbol(lens, s, p) == Hit(e % 512, e / 512) && 0 < e / 512 <= 9
      else Msb(s, p, 9) >= Last(lens, 9)
  {
    hide Lsb, Msb, Low, Lookup, Last, First, Count, Find, Kraft, Code, Reverse;
    var j := Low(Lsb(s, p, n), 9);
    LsbTake(s, p, 9, n);
    Pow2Values();
    var e := fast[j];
    assert FastEntry(lens, |lens|, j, e);
    if e != 0 {
      var i := e % 512;
      ClaimIsMatch(lens, i, j, s, p);
      LookupFinds(lens, s, p, i, lens[i], BITS);
    } else if Msb(s, p, 9) < Last(lens, 9) {
      ShortCodeClaims(lens, s, p, 9, j);
    }
  }

  /** Bits below the last code of some short length begin with a code, which claims the entry. */
  lemma {:induction false} ShortCodeClaims(lens: Lengths, s: Stream, p: nat, l: nat, j: nat)
    requires l <= 9 && KraftHolds(lens, MAX_BITS) && j < 512 && j == Lsb(s, p, 9)
    requires Msb(s, p, l) < Last(lens, l)
    ensures exists i: nat :: i < |lens| && Claims(lens, i, j)
  {
    if l > 0 {
      if Msb(s, p, l - 1) < Last(lens, l - 1) {
        ShortCodeClaims(lens, s, p, l - 1, j);
      } else {
        var i := SymbolInRange(lens, l, Msb(s, p, l));
        ClaimIsMatch(lens, i, j, s, p);
      }
    }
  }
}

