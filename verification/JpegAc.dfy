/** One AC coefficient of a JPEG block: the table that decodes a short code together with the bits of
    its value, and the step of stbi__jpeg_decode_block that uses it. */
module JpegAc {
  import opened Bits
  import opened Words
  import opened Canonical
  import opened JpegHuffman
  import opened JpegStream
  import opened JpegDecode

  /** A run of zeros and a value; or a symbol without a value (end of block, sixteen zeros). */
  datatype Ac = Coefficient(run: nat, value: int, length: nat) | Special(run: nat, length: nat) | NoCode

  /** ITU-T T.81 F.2.2.2: the code, and the value in the bits behind it. */
  ghost function AcOf(h: Hit, values: seq<byte>, s: Stream, p: nat): Ac
    requires h.Hit? ==> h.symbol < |values|
  {
    if h.Miss? then NoCode
    else
      var rs: int := values[h.symbol];
      if rs % 16 == 0 then Special(rs / 16, h.length)
      else Coefficient(rs / 16, Extend(Msb(s, p + h.length, rs % 16), rs % 16), h.length + rs % 16)
  }

  ghost function AcAt(lens: Lengths, values: seq<byte>, s: Stream, p: nat): Ac
    requires |lens| <= |values|
  {
    AcOf(Symbol(lens, s, p), values, s, p)
  }

  /** What one entry can hold: everything in nine bits, and a value of eight bits with sign. */
  ghost predicate Accelerated(lens: Lengths, values: seq<byte>, s: Stream, p: nat)
    requires |lens| <= |values|
  {
    var a := AcAt(lens, values, s, p);
    a.Coefficient? && a.length <= FAST_BITS && -128 <= a.value <= 127 && !Unnamed(Symbol(lens, s, p))
  }

  /** Value, run and length packed as value * 256 + run * 16 + length; zero if there is nothing to pack. */
  ghost predicate Packs(e: int, a: Ac) {
    a.Coefficient? && e != 0 && e / 256 == a.value && e / 16 % 16 == a.run && e % 16 == a.length
  }

  ghost predicate FacEntry(lens: Lengths, values: seq<byte>, s: Stream, p: nat, e: int)
    requires |lens| <= |values|
  {
    if Accelerated(lens, values, s, p) then Packs(e, AcAt(lens, values, s, p)) else e == 0
  }

  ghost predicate FacOf(lens: Lengths, values: seq<byte>, n: nat, fac: seq<int>)
    requires |lens| <= |values|
  {
    n <= 512 == |fac| && forall c: nat :: c < n ==> FacEntry(lens, values, Lookahead(c), 0, fac[c])
  }

  /** stbi__build_fast_ac. */
  method BuildFastAc(fac: array<int>, h: Huffman)
    requires h.Built() && fac.Length == 512 && fac != h.delta
    modifies fac
    ensures FacOf(h.lens, h.values[..], 512, fac[..])
  {
    hide FacEntry, SizesOf, CodesOf, LevelsOf, FastOf, Ascending, KraftHolds;
    var i: nat := 0;
    while i < 512
      invariant i <= 512 && h.Built() && FacOf(h.lens, h.values[..], i, fac[..])
    {
      var e := FastAcEntry(h, i);
      fac[i] := e;
      i := i + 1;
    }
  }

  /** The entry under the lookahead i. */
  method FastAcEntry(h: Huffman, i: nat) returns (e: int)
    requires h.Built() && i < 512
    ensures FacEntry(h.lens, h.values[..], Lookahead(i), 0, e)
  {
    hide SizesOf, CodesOf, LevelsOf, FastOf, Ascending, KraftHolds, Msb, Lookup, Lookahead, Shl, Shr, Low, Pow2, Extend;
    ghost var s := Lookahead(i);
    FastLookup(h.lens, s, 0, h.fast[..]);
    LookaheadIs(i);
    var fast: nat := h.fast[i];
    e := 0;
    if fast < 255 {
      SizeAt(h.lens, h.size[..], fast);
      var rs: int := h.values[fast];
      var run, magbits, len := rs / 16 % 16, rs % 16, h.size[fast];
      if magbits != 0 && len + magbits <= FAST_BITS {
        var k: int := Shr(Low(Shl(i, len), FAST_BITS), FAST_BITS - magbits);
        MagnitudeBits(s, i, len, magbits);
        var m := Pow2(magbits - 1);
        ghost var bits := k;
        if k < m {
          k := k - Pow2(magbits) + 1;
        }
        ExtendIs(bits, magbits, k);
        if -128 <= k <= 127 {
          e := k * 256 + run * 16 + (len + magbits);
          PackedParts(k, run, len + magbits);
        }
      }
    }
  }

  lemma PackedParts(k: int, run: nat, length: nat)
    requires run < 16 && 0 < length < 16
    ensures var e := k * 256 + run * 16 + length;
      e != 0 && e / 256 == k && e / 16 % 16 == run && e % 16 == length
  {
    var e, m := k * 256 + run * 16 + length, k * 16 + run;
    assert e == 16 * m + length && e / 16 == m && e % 16 == length;
    assert m / 16 == k && m % 16 == run;
  }

  lemma ExtendIs(v: nat, n: nat, k: int)
    requires n > 0 && k == if v < Pow2(n - 1) then v - Pow2(n) + 1 else v
    ensures Extend(v, n) == k
  {
  }

  /** The value bits behind a code of len bits, cut out of the lookahead. */
  lemma MagnitudeBits(s: Stream, i: nat, len: nat, magbits: nat)
    requires |s| == FAST_BITS && Msb(s, 0, FAST_BITS) == i && len + magbits <= FAST_BITS
    ensures Shr(Low(Shl(i, len), FAST_BITS), FAST_BITS - magbits) == Msb(s, len, magbits)
  {
    DropTop(s, 0, len, FAST_BITS);
    MsbShift(s, len, magbits, FAST_BITS);
  }

  // ---------------------------------------------------------------------------
  // The table agrees with the two-step decoder

  /** Streams that show the same nine bits have the same accelerated coefficients. */
  lemma SameLookahead(lens: Lengths, values: seq<byte>, s: Stream, p: nat, t: Stream, q: nat)
    requires |lens| <= |values| && Msb(s, p, FAST_BITS) == Msb(t, q, FAST_BITS) && Accelerated(lens, values, s, p)
    ensures Accelerated(lens, values, t, q) && AcAt(lens, values, t, q) == AcAt(lens, values, s, p)
  {
    hide Msb, Lookup, Extend;
    var h := Symbol(lens, s, p);
    PartAgrees(s, p, t, q, FAST_BITS, 0, h.length);
    LookupFinds(lens, t, q, h.symbol, h.length, LONGEST);
    PartAgrees(s, p, t, q, FAST_BITS, h.length, values[h.symbol] as int % 16);
  }

  /** Every entry, under whatever stream it is looked up: it is what decoding the code and then
      receiving and extending the value gives, and it is zero exactly when that does not fit. */
  lemma FastAcAgrees(lens: Lengths, values: seq<byte>, fac: seq<int>, s: Stream, p: nat)
    requires |lens| <= |values| && FacOf(lens, values, 512, fac)
    ensures Msb(s, p, FAST_BITS) < 512 && FacEntry(lens, values, s, p, fac[Msb(s, p, FAST_BITS)])
  {
    hide Msb, Accelerated, AcAt, Packs, Lookahead;
    Pow2Values();
    var c := Msb(s, p, FAST_BITS);
    var t := Lookahead(c);
    LookaheadIs(c);
    assert FacEntry(lens, values, t, 0, fac[c]);
    if Accelerated(lens, values, s, p) {
      SameLookahead(lens, values, s, p, t, 0);
    } else if Accelerated(lens, values, t, 0) {
      SameLookahead(lens, values, t, 0, s, p);
    }
  }

  // ---------------------------------------------------------------------------
  // Encoding

  /** The number of bits of a value. */
  function Category(v: int): (n: nat)
    ensures v != 0 ==> n > 0 && Pow2(n - 1) <= (if v > 0 then v else -v) < Pow2(n)
  {
    var m := if v > 0 then v else -v;
    if m == 0 then 0 else BitLength(m)
  }

  function BitLength(m: nat): (n: nat)
    requires m > 0
    ensures n > 0 && Pow2(n - 1) <= m < Pow2(n)
  {
    if m == 1 then 1 else 1 + BitLength(m / 2)
  }

  /** The bits of a value: negative ones are written one less. */
  function ValueBits(v: int): (b: nat)
    ensures b < Pow2(Category(v))
  {
    if v >= 0 then v else v + Pow2(Category(v)) - 1
  }

  /** EXTEND by the halves of its range (ITU-T T.81 table F.1): n bits that begin with a one are a positive
      number, and inverting all bits changes the sign. */
  lemma ExtendIsSigned(v: nat, n: nat)
    requires n > 0 && v < Pow2(n)
    ensures 2 * v >= Pow2(n) ==> Extend(v, n) == v
    ensures Extend(v, n) + Extend(Pow2(n) - 1 - v, n) == 0
  {
    hide Pow2;
    DoublePow2(n);
  }

  /** Extending is the inverse of writing the value bits. */
  lemma ExtendInverts(v: int)
    ensures Extend(ValueBits(v), Category(v)) == v
  {
  }

  /** A coefficient written as the code of its run and category, and its value bits, comes back. */
  lemma AcComesBack(lens: Lengths, values: seq<byte>, i: nat, run: nat, v: int, s: Stream, p: nat)
    requires |lens| <= |values| && i < |lens| && 0 < lens[i] <= LONGEST && KraftHolds(lens, LONGEST)
    requires v != 0 && Category(v) < 16 && values[i] == run * 16 + Category(v)
    requires At(s, p, CodeBits(lens, i) + BigEndian(ValueBits(v), Category(v)))
    ensures AcAt(lens, values, s, p) == Coefficient(run, v, lens[i] + Category(v))
  {
    hide Lookup, Msb, Code, Kraft, BigEndian, Extend, Category, ValueBits, Pow2, At;
    var n := Category(v);
    AtSplit(s, p, CodeBits(lens, i), BigEndian(ValueBits(v), n));
    CodeFits(lens, i, LONGEST);
    MsbOfBigEndian(s, p, Code(lens, i), lens[i]);
    LookupFinds(lens, s, p, i, lens[i], LONGEST);
    MsbOfBigEndian(s, p + lens[i], ValueBits(v), n);
    ExtendInverts(v);
    Parts(run, n);
  }

  lemma Parts(run: nat, n: nat)
    requires n < 16
    ensures (run * 16 + n) / 16 == run && (run * 16 + n) % 16 == n
  {
  }

  // ---------------------------------------------------------------------------
  // The step

  /** What the block decoder goes on with. */
  datatype Step = Value(run: nat, value: int) | NoValue(run: nat) | Failed

  function StepOf(a: Ac): Step {
    match a
    case Coefficient(run, value, _) => Value(run, value)
    case Special(run, _) => NoValue(run)
    case NoCode => Failed
  }

  /** The coefficient at the reader's position, decoded with the combined table where it has an entry and
      in two steps where it has not: the same as code and value read from the stream, as long as these do
      not run past the end of the scan, and the code is not that of symbol 255 with a short code. */
  method DecodeAc(j: Jpeg, h: Huffman, fac: array<int>) returns (r: Step)
    requires j.Reader() && h.Built() && fac.Length == 512 && FacOf(h.lens, h.values[..], 512, fac[..])
    modifies j
    ensures var p, a := old(j.Pos()), AcAt(h.lens, h.values[..], j.bits, old(j.Pos()));
      (!Unnamed(Symbol(h.lens, j.bits, p)) && (a.NoCode? || p + a.length <= |j.bits|)) ==>
        r == StepOf(a) && (!a.NoCode? ==> j.Pos() == p + a.length)
    ensures !r.Failed? ==> j.Reader()
    ensures (r.Value? ==> r.run < 16) && (r.NoValue? ==> r.run < 16)
  {
    hide SizesOf, CodesOf, LevelsOf, FastOf, Ascending, KraftHolds, Msb, Lookup, Known, RightOf, BitsOf, Ahead,
      FacOf, Extend;
    if j.codeBits < 16 {
      j.GrowBuffer();
    }
    ghost var p := j.Pos();
    j.Shown(FAST_BITS);
    FastAcAgrees(h.lens, h.values[..], fac[..], j.bits, p);
    var e := fac[RightOf(j.codeBuffer, 23, 32)];
    if e != 0 {
      var s := e % 16;
      if s > j.codeBits {
        return Failed;
      }
      j.Consume(s);
      return Value(e / 16 % 16, e / 256);
    }
    r := DecodeInTwo(j, h);
  }

  /** Code first, then value. */
  method DecodeInTwo(j: Jpeg, h: Huffman) returns (r: Step)
    requires j.Reader() && h.Built()
    modifies j
    ensures var p, a := old(j.Pos()), AcAt(h.lens, h.values[..], j.bits, old(j.Pos()));
      (!Unnamed(Symbol(h.lens, j.bits, p)) && (a.NoCode? || p + a.length <= |j.bits|)) ==>
        r == StepOf(a) && (!a.NoCode? ==> j.Pos() == p + a.length)
    ensures !r.Failed? ==> j.Reader()
    ensures (r.Value? ==> r.run < 16) && (r.NoValue? ==> r.run < 16)
  {
    hide SizesOf, CodesOf, LevelsOf, FastOf, Ascending, KraftHolds, Msb, Lookup, Known, BitsOf, Ahead, Extend;
    var rs := j.HuffDecode(h);
    if rs < 0 {
      return Failed;
    }
    var s, run := rs % 16, rs / 16;
    if s == 0 {
      return NoValue(run);
    }
    var v := j.ExtendReceive(s);
    r := Value(run, v);
  }
}
