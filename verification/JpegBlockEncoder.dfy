/** The encoder's side of a block: run lengths, categories and Huffman codes (ITU-T T.81 F.1.2), and the
    proof that decoding undoes it. */
module JpegBlockEncoder {
  import opened Bits
  import opened Canonical
  import opened JpegHuffman
  import opened JpegStream
  import opened JpegDecode
  import opened JpegAc
  import opened JpegZigzag
  import opened JpegBlock

  /** A symbol of the Huffman code, and the value whose bits follow it. */
  datatype Sym = Sym(code: nat, value: int)

  /** The first coefficient from k on that is not zero. */
  function NextNonzero(z: Coefs, k: nat): (i: nat)
    requires k <= 64
    ensures k <= i <= 64 && (i < 64 ==> z[i] != 0) && forall j :: k <= j < i ==> z[j] == 0
    decreases 64 - k
  {
    if k == 64 || z[k] != 0 then k else NextNonzero(z, k + 1)
  }

  /** The AC coefficients from k on: 0 ends the block, 240 skips sixteen zeros. */
  function Symbols(z: Coefs, k: nat): (syms: seq<Sym>)
    requires k <= 64
    decreases 64 - k
  {
    if k == 64 then []
    else
      var i := NextNonzero(z, k);
      if i == 64 then [Sym(0, 0)]
      else if i - k >= 16 then [Sym(240, 0)] + Symbols(z, k + 16)
      else [Sym((i - k) * 16 + Category(z[i]), z[i])] + Symbols(z, i + 1)
  }

  /** A symbol with this value, or -1. */
  function IndexOf(values: seq<byte>, n: nat, code: nat): (i: int)
    requires n <= |values|
    ensures -1 <= i < n && (i >= 0 ==> values[i] == code)
  {
    if n == 0 then -1 else if values[n - 1] == code then n - 1 else IndexOf(values, n - 1, code)
  }

  /** The table has a code for every symbol. */
  ghost predicate Coded(lens: Lengths, values: seq<byte>, syms: seq<Sym>)
    requires |lens| <= |values|
  {
    forall i :: 0 <= i < |syms| ==> IndexOf(values, |lens|, syms[i].code) >= 0
  }

  ghost predicate Code(lens: Lengths, values: seq<byte>) {
    |lens| <= |values| && Ascending(lens) && KraftHolds(lens, LONGEST)
  }

  ghost function WriteSym(lens: Lengths, values: seq<byte>, sym: Sym): Stream
    requires Code(lens, values) && IndexOf(values, |lens|, sym.code) >= 0
  {
    CodeBits(lens, IndexOf(values, |lens|, sym.code)) + BigEndian(ValueBits(sym.value), Category(sym.value))
  }

  ghost function WriteSyms(lens: Lengths, values: seq<byte>, syms: seq<Sym>): Stream
    requires Code(lens, values) && Coded(lens, values, syms)
  {
    if syms == [] then [] else WriteSym(lens, values, syms[0]) + WriteSyms(lens, values, syms[1..])
  }

  /** The coefficients before number k, and zeros. */
  function Upto(z: Coefs, k: nat): (u: Coefs)
    requires k <= 64
    ensures forall i :: 0 <= i < 64 ==> u[i] == if i < k then z[i] else 0
  {
    seq<int>(64, i requires 0 <= i < 64 => if i < k then z[i] else 0)
  }

  ghost predicate Encodable(z: Coefs) {
    forall i :: 0 <= i < 64 ==> Category(z[i]) < 16
  }

  /** A symbol without value is read as such. */
  lemma SpecialComesBack(lens: Lengths, values: seq<byte>, sym: Sym, s: Stream, p: nat)
    requires Code(lens, values) && IndexOf(values, |lens|, sym.code) >= 0
    requires sym.value == 0 && sym.code % 16 == 0 && At(s, p, WriteSym(lens, values, sym))
    ensures AcAt(lens, values, s, p) == Special(sym.code / 16, |WriteSym(lens, values, sym)|)
  {
    hide Lookup, Msb, Canonical.Code, Kraft, BigEndian;
    var i := IndexOf(values, |lens|, sym.code);
    AtSplit(s, p, CodeBits(lens, i), BigEndian(ValueBits(0), Category(0)));
    CodeFits(lens, i, LONGEST);
    MsbOfBigEndian(s, p, Canonical.Code(lens, i), lens[i]);
    LookupFinds(lens, s, p, i, lens[i], LONGEST);
  }

  /** A coefficient is read as its run and value. */
  lemma CoefficientComesBack(lens: Lengths, values: seq<byte>, run: nat, v: int, s: Stream, p: nat)
    requires Code(lens, values) && run < 16 && v != 0 && Category(v) < 16
    requires IndexOf(values, |lens|, run * 16 + Category(v)) >= 0
    requires At(s, p, WriteSym(lens, values, Sym(run * 16 + Category(v), v)))
    ensures AcAt(lens, values, s, p) == Coefficient(run, v, |WriteSym(lens, values, Sym(run * 16 + Category(v), v))|)
  {
    hide Lookup, Msb, Canonical.Code, Kraft, BigEndian, AcAt, Category, IndexOf, ValueBits;
    AcComesBack(lens, values, IndexOf(values, |lens|, run * 16 + Category(v)), run, v, s, p);
  }

  /** The symbols of the coefficients from number k on stand in the stream. */
  ghost predicate AcsStand(lens: Lengths, values: seq<byte>, z: Coefs, k: nat, s: Stream, p: nat)
    requires k <= 64
  {
    Code(lens, values) && Coded(lens, values, Symbols(z, k)) && At(s, p, WriteSyms(lens, values, Symbols(z, k)))
  }

  /** Decoding the AC coefficients gives them back. */
  lemma {:induction false} AcsRead(lens: Lengths, values: seq<byte>, z: Coefs, k: nat, s: Stream, p: nat)
    requires 1 <= k < 64 && Encodable(z) && AcsStand(lens, values, z, k, s, p)
    ensures AcFrom(lens, values, s, p, k, Upto(z, k)) == Read(z, p + |WriteSyms(lens, values, Symbols(z, k))|)
    decreases 64 - k
  {
    hide Category, WriteSym, Ascending, KraftHolds, At, Symbols, AcFrom, WriteSyms, Coded, Upto, Encodable;
    var i := NextNonzero(z, k);
    if i == 64 {
      EndRead(lens, values, z, k, s, p);
    } else if i - k >= 16 {
      ZerosRead(lens, values, z, k, s, p);
      AcsRead(lens, values, z, k + 16, s, p + |WriteSym(lens, values, Sym(240, 0))|);
    } else {
      ValueRead(lens, values, z, k, s, p);
      if i + 1 < 64 { AcsRead(lens, values, z, i + 1, s, p + |WriteSym(lens, values, SymAt(z, k, i))|); }
    }
  }

  lemma EndRead(lens: Lengths, values: seq<byte>, z: Coefs, k: nat, s: Stream, p: nat)
    requires 1 <= k < 64 && AcsStand(lens, values, z, k, s, p) && NextNonzero(z, k) == 64
    ensures AcFrom(lens, values, s, p, k, Upto(z, k)) == Read(z, p + |WriteSyms(lens, values, Symbols(z, k))|)
  {
    hide AcAt, Category, WriteSym, Ascending, KraftHolds, At, Symbols, AcFrom, WriteSyms, Coded, Upto, Put;
    SymbolsCases(z, k);
    AcCases(lens, values, s, p, k, Upto(z, k));
    assert [Sym(0, 0)] + [] == [Sym(0, 0)];
    ReadFirst(lens, values, Sym(0, 0), [], s, p);
    SpecialComesBack(lens, values, Sym(0, 0), s, p);
    UptoNext(z, k, 64);
    UptoAll(z);
  }

  lemma ZerosRead(lens: Lengths, values: seq<byte>, z: Coefs, k: nat, s: Stream, p: nat)
    requires 1 <= k < 64 && AcsStand(lens, values, z, k, s, p) && k + 16 <= NextNonzero(z, k) < 64
    ensures IndexOf(values, |lens|, 240) >= 0
    ensures var c, rest := WriteSym(lens, values, Sym(240, 0)), Symbols(z, k + 16);
      && AcsStand(lens, values, z, k + 16, s, p + |c|)
      && |WriteSyms(lens, values, Symbols(z, k))| == |c| + |WriteSyms(lens, values, rest)|
      && AcFrom(lens, values, s, p, k, Upto(z, k)) == AcFrom(lens, values, s, p + |c|, k + 16, Upto(z, k + 16))
  {
    hide AcAt, Category, WriteSym, Ascending, KraftHolds, At, Symbols, AcFrom, WriteSyms, Coded, Upto, Put;
    SymbolsCases(z, k);
    AcCases(lens, values, s, p, k, Upto(z, k));
    ReadFirst(lens, values, Sym(240, 0), Symbols(z, k + 16), s, p);
    SpecialComesBack(lens, values, Sym(240, 0), s, p);
    UptoNext(z, k, k + 16);
  }

  function SymAt(z: Coefs, k: nat, i: nat): Sym
    requires k <= i < 64
  {
    Sym((i - k) * 16 + Category(z[i]), z[i])
  }

  lemma ValueRead(lens: Lengths, values: seq<byte>, z: Coefs, k: nat, s: Stream, p: nat)
    requires 1 <= k < 64 && Encodable(z) && AcsStand(lens, values, z, k, s, p) && NextNonzero(z, k) < 64 && NextNonzero(z, k) - k < 16
    ensures IndexOf(values, |lens|, SymAt(z, k, NextNonzero(z, k)).code) >= 0
    ensures var i := NextNonzero(z, k);
      var c, rest := WriteSym(lens, values, SymAt(z, k, i)), Symbols(z, i + 1);
      && AcsStand(lens, values, z, i + 1, s, p + |c|)
      && |WriteSyms(lens, values, Symbols(z, k))| == |c| + |WriteSyms(lens, values, rest)|
      && AcFrom(lens, values, s, p, k, Upto(z, k)) ==
        if i + 1 < 64 then AcFrom(lens, values, s, p + |c|, i + 1, Upto(z, i + 1)) else Read(z, p + |c| + |WriteSyms(lens, values, rest)|)
  {
    hide AcAt, Category, WriteSym, Ascending, KraftHolds, At, Symbols, AcFrom, WriteSyms, Coded, Upto, Encodable, Put;
    var i := NextNonzero(z, k);
    SymbolsCases(z, k);
    AcCases(lens, values, s, p, k, Upto(z, k));
    ReadFirst(lens, values, SymAt(z, k, i), Symbols(z, i + 1), s, p);
    SmallCategory(z, i);
    CoefficientComesBack(lens, values, i - k, z[i], s, p);
    UptoNext(z, k, i);
    UptoPut(z, i);
    if i + 1 == 64 {
      NoSymbols(z, i + 1);
      WriteNone(lens, values);
      UptoAll(z);
    }
  }

  lemma SymbolsCases(z: Coefs, k: nat)
    requires k < 64
    ensures var i := NextNonzero(z, k);
      if i == 64 then Symbols(z, k) == [Sym(0, 0)]
      else if i - k >= 16 then Symbols(z, k) == [Sym(240, 0)] + Symbols(z, k + 16)
      else Symbols(z, k) == [Sym((i - k) * 16 + Category(z[i]), z[i])] + Symbols(z, i + 1)
  {
    hide Category, NextNonzero;
  }

  lemma NoSymbols(z: Coefs, k: nat)
    requires k == 64
    ensures Symbols(z, k) == []
  {
  }

  lemma AcCases(lens: Lengths, values: seq<byte>, s: Stream, p: nat, k: nat, z: Coefs)
    requires |lens| <= |values| && 1 <= k < 64
    ensures var a, r := AcAt(lens, values, s, p), AcFrom(lens, values, s, p, k, z);
      if a.NoCode? then r == Bad(p)
      else if a.Special? then
        if a.run == 15 && k + 16 < 64 then r == AcFrom(lens, values, s, p + a.length, k + 16, z)
        else r == Read(z, p + a.length)
      else
        var z' := Put(z, k + a.run, a.value);
        if k + a.run + 1 < 64 then r == AcFrom(lens, values, s, p + a.length, k + a.run + 1, z')
        else r == Read(z', p + a.length)
  {
    hide AcAt, Put;
  }

  /** The first symbol, and the others behind it. */
  lemma ReadFirst(lens: Lengths, values: seq<byte>, sym: Sym, rest: seq<Sym>, s: Stream, p: nat)
    requires Code(lens, values) && Coded(lens, values, [sym] + rest) && At(s, p, WriteSyms(lens, values, [sym] + rest))
    ensures IndexOf(values, |lens|, sym.code) >= 0 && Coded(lens, values, rest)
    ensures At(s, p, WriteSym(lens, values, sym))
    ensures At(s, p + |WriteSym(lens, values, sym)|, WriteSyms(lens, values, rest))
    ensures |WriteSyms(lens, values, [sym] + rest)| == |WriteSym(lens, values, sym)| + |WriteSyms(lens, values, rest)|
    ensures rest == [] ==> WriteSyms(lens, values, rest) == []
  {
    hide WriteSym, Ascending, KraftHolds, At;
    var all := [sym] + rest;
    assert all[0] == sym && all[1..] == rest;
    forall i | 0 <= i < |rest| ensures IndexOf(values, |lens|, rest[i].code) >= 0 { assert rest[i] == all[i + 1]; }
    AtSplit(s, p, WriteSym(lens, values, sym), WriteSyms(lens, values, rest));
  }

  lemma WriteNone(lens: Lengths, values: seq<byte>)
    requires Code(lens, values)
    ensures Coded(lens, values, []) && WriteSyms(lens, values, []) == []
  {
  }

  lemma SmallCategory(z: Coefs, i: nat)
    requires Encodable(z) && i < 64
    ensures Category(z[i]) < 16
  {
  }

  lemma UptoNext(z: Coefs, k: nat, i: nat)
    requires k <= i <= 64 && forall j :: k <= j < i ==> z[j] == 0
    ensures Upto(z, k) == Upto(z, i)
  {
  }

  lemma UptoPut(z: Coefs, i: nat)
    requires i < 64
    ensures Put(Upto(z, i), i, z[i]) == Upto(z, i + 1)
  {
  }

  lemma UptoAll(z: Coefs)
    ensures Upto(z, 64) == z
  {
  }

  // ---------------------------------------------------------------------------

  /** A whole block: the difference of the DC coefficient, then the AC coefficients. */
  ghost predicate BlockCoded(dc: Lengths, dcValues: seq<byte>, ac: Lengths, acValues: seq<byte>, z: Coefs, pred: int) {
    && Code(dc, dcValues) && Code(ac, acValues) && Encodable(z)
    && Category(z[0] - pred) < 16 && IndexOf(dcValues, |dc|, Category(z[0] - pred)) >= 0
    && Coded(ac, acValues, Symbols(z, 1))
  }

  ghost function WriteBlock(dc: Lengths, dcValues: seq<byte>, ac: Lengths, acValues: seq<byte>, z: Coefs, pred: int): Stream
    requires BlockCoded(dc, dcValues, ac, acValues, z, pred)
  {
    WriteSym(dc, dcValues, Sym(Category(z[0] - pred), z[0] - pred)) + WriteSyms(ac, acValues, Symbols(z, 1))
  }

  /** The DC coefficient is read as the one before plus the difference. */
  lemma DcComesBack(lens: Lengths, values: seq<byte>, diff: int, s: Stream, p: nat, pred: int, q0: nat)
    requires Code(lens, values) && Category(diff) < 16 && IndexOf(values, |lens|, Category(diff)) >= 0
    requires AddIntsValid(pred, diff) && Mul2ShortsValid(pred + diff, q0)
    requires At(s, p, WriteSym(lens, values, Sym(Category(diff), diff)))
    ensures DcAt(lens, values, s, p, pred, q0) == Dc(pred + diff, p + |WriteSym(lens, values, Sym(Category(diff), diff))|)
  {
    hide Symbol, WriteSym, Ascending, KraftHolds, At, Msb, Extend, Category, ValueBits, IndexOf, AddIntsValid, Mul2ShortsValid;
    SymRead(lens, values, Sym(Category(diff), diff), s, p);
    ExtendInverts(diff);
  }

  /** What stands in the stream where a symbol and the bits of its value have been written. */
  lemma SymRead(lens: Lengths, values: seq<byte>, sym: Sym, s: Stream, p: nat)
    requires Code(lens, values) && IndexOf(values, |lens|, sym.code) >= 0 && At(s, p, WriteSym(lens, values, sym))
    ensures var i, n := IndexOf(values, |lens|, sym.code), Category(sym.value);
      && Symbol(lens, s, p) == Hit(i, lens[i]) && Msb(s, p + lens[i], n) == ValueBits(sym.value)
      && |WriteSym(lens, values, sym)| == lens[i] + n
  {
    hide Lookup, Msb, Canonical.Code, Kraft, BigEndian, Category, ValueBits, IndexOf, At, Pow2;
    var i, n := IndexOf(values, |lens|, sym.code), Category(sym.value);
    AtSplit(s, p, CodeBits(lens, i), BigEndian(ValueBits(sym.value), n));
    CodeFits(lens, i, LONGEST);
    MsbOfBigEndian(s, p, Canonical.Code(lens, i), lens[i]);
    LookupFinds(lens, s, p, i, lens[i], LONGEST);
    MsbOfBigEndian(s, p + lens[i], ValueBits(sym.value), n);
  }

  /** Decoding undoes encoding: every block of coefficients of at most 15 bits whose symbols have codes, and
      whose DC coefficient passes the range checks, comes back. */
  lemma BlockComesBack(dc: Lengths, dcValues: seq<byte>, ac: Lengths, acValues: seq<byte>, z: Coefs, s: Stream, p: nat, pred: int, q0: nat)
    requires BlockCoded(dc, dcValues, ac, acValues, z, pred)
    requires AddIntsValid(pred, z[0] - pred) && Mul2ShortsValid(z[0], q0)
    requires At(s, p, WriteBlock(dc, dcValues, ac, acValues, z, pred))
    ensures BlockAt(dc, dcValues, ac, acValues, s, p, pred, q0)
         == Read(z, p + |WriteBlock(dc, dcValues, ac, acValues, z, pred)|)
  {
    hide WriteSym, WriteSyms, Symbols, At, Category, AcFrom, DcAt, Ascending, KraftHolds, AddIntsValid, Mul2ShortsValid;
    var diff := z[0] - pred;
    var head, tail := WriteSym(dc, dcValues, Sym(Category(diff), diff)), WriteSyms(ac, acValues, Symbols(z, 1));
    AtSplit(s, p, head, tail);
    DcComesBack(dc, dcValues, diff, s, p, pred, q0);
    AcsRead(ac, acValues, z, 1, s, p + |head|);
    assert FirstOnly(z[0]) == Upto(z, 1);
  }

  // ---------------------------------------------------------------------------
  // A scan of one block, from coefficients to bytes and back

  function FillBits(n: nat): (c: Stream)
    ensures |c| == n
  {
    seq(n, _ => true)
  }

  /** Bits packed into bytes, the last one filled up with ones (ITU-T T.81 F.1.2.3). */
  function PackBits(c: Stream): (bytes: seq<byte>) {
    if c == [] then []
    else if |c| <= 8 then [ByteOf(c + FillBits(8 - |c|))]
    else [ByteOf(c[..8])] + PackBits(c[8..])
  }

  function ByteOf(c: Stream): byte {
    Pow2Values();
    Msb(c, 0, 8)
  }

  lemma {:induction false} BitsOfNumber(c: Stream, n: nat)
    requires |c| == n
    ensures BigEndian(Msb(c, 0, n), n) == c
    decreases n
  {
    if n > 0 {
      var d := c[..n - 1];
      BitsOfNumber(d, n - 1);
      forall i: nat | i < n - 1 ensures Bit(c, i) == Bit(d, i) {}
      MsbAgrees(c, d, 0, n - 1);
      MsbStep(c, 0, n);
      DivModUnique(Msb(d, 0, n - 1), 2, Bit(c, n - 1));
      assert c == d + [c[n - 1]];
    }
  }

  /** The bytes show the bits, and ones behind them. */
  lemma {:induction false} PackedBits(c: Stream) returns (fill: nat)
    ensures BitsOf(PackBits(c)) == c + FillBits(fill)
    decreases |c|
  {
    hide BigEndian, Msb;
    fill := 0;
    if c == [] {
    } else if |c| <= 8 {
      fill := 8 - |c|;
      BitsOfNumber(c + FillBits(fill), 8);
      BitsOfOne(ByteOf(c + FillBits(fill)));
    } else {
      fill := PackedBits(c[8..]);
      BitsOfNumber(c[..8], 8);
      assert PackBits(c)[1..] == PackBits(c[8..]);
      assert c == c[..8] + c[8..];
    }
  }

  lemma StandsFirst(c: Stream, d: Stream)
    ensures At(c + d, 0, c)
  {
    StandsIn([], c, d);
    assert [] + c + d == c + d;
  }

  /** The block in a scan of its own: packed, stuffed and ended by a marker. */
  ghost function Scan(c: Stream): (data: seq<byte>) {
    Stuff(PackBits(c)) + [0xFF, 0xD9]
  }

  lemma ScanIsBits(c: Stream)
    ensures Entropy(Scan(c), 0) == PackBits(c)
    ensures var s := BitsOf(Entropy(Scan(c), 0)); |s| >= |c| && At(s, 0, c)
  {
    hide PackBits, Stuff, Entropy, BitsOf, At, AfterFill;
    MarkerBehind(PackBits(c));
    var fill := PackedBits(c);
    StandsFirst(c, FillBits(fill));
  }

  lemma MarkerBehind(bytes: seq<byte>)
    ensures Entropy(Stuff(bytes) + [0xFF, 0xD9], 0) == bytes
  {
    hide Stuff, Entropy;
    var data, n := Stuff(bytes) + [0xFF, 0xD9], |Stuff(bytes)|;
    assert data[0..n] == Stuff(bytes);
    assert data[n] == 0xFF && data[n + 1] == 0xD9;
    StuffedComesBack(data, 0, bytes);
  }

  /** A block that is written, packed, stuffed, and decoded again comes back dequantized and in place, for
      all tables that have the symbols and hide none. */
  method WriteThenDecode(hdc: Huffman, hac: Huffman, fac: array<int>, z: Coefs, pred: int, dequant: seq<nat>, bytes: seq<byte>)
      returns (ok: bool, dc: int, data: array<int>)
    requires hdc.Built() && hac.Built() && fac.Length == 512 && FacOf(hac.lens, hac.values[..], 512, fac[..])
    requires |dequant| == 64 && Named(hdc.lens) && Named(hac.lens)
    requires BlockCoded(hdc.lens, hdc.values[..], hac.lens, hac.values[..], z, pred)
    requires AddIntsValid(pred, z[0] - pred) && Mul2ShortsValid(z[0], dequant[0])
    requires bytes == Scan(WriteBlock(hdc.lens, hdc.values[..], hac.lens, hac.values[..], z, pred))
    ensures ok && dc == z[0] && data.Length == 64 && Dequantized(data[..], z, dequant)
    ensures forall r: nat, c: nat :: r < 8 && c < 8 ==> data[8 * r + c] == ToShort(z[Walk(r, c)] * dequant[8 * r + c])
  {
    hide BlockCoded, WriteBlock, Dequantized, FacOf, SizesOf, CodesOf, LevelsOf, FastOf, Ascending, KraftHolds, Named, BlockAt, Scan,
      AddIntsValid, Mul2ShortsValid, BitsOf;
    ghost var c := WriteBlock(hdc.lens, hdc.values[..], hac.lens, hac.values[..], z, pred);
    ScanIsBits(c);
    var j := new Jpeg(bytes, 0);
    BlockComesBack(hdc.lens, hdc.values[..], hac.lens, hac.values[..], z, j.bits, 0, pred, dequant[0]);
    data := new int[64];
    ok, dc := DecodeBlock(j, hdc, hac, fac, pred, dequant, data);
    RowByRow(data[..], z, dequant);
  }

  lemma RowByRow(data: seq<int>, z: Coefs, dequant: seq<nat>)
    requires Dequantized(data, z, dequant)
    ensures forall r: nat, c: nat :: r < 8 && c < 8 ==> data[8 * r + c] == ToShort(z[Walk(r, c)] * dequant[8 * r + c])
  {
    hide ToShort, Walk;
    forall r: nat, c: nat | r < 8 && c < 8
      ensures data[8 * r + c] == ToShort(z[Walk(r, c)] * dequant[8 * r + c])
    {
      assert DequantizedAt(data, z, dequant, r, c);
    }
  }
}
