/** One block of a baseline JPEG scan: stbi__jpeg_decode_block. It is proved against the reading of the
    stream coefficient by coefficient, and that to be the inverse of run-length and Huffman encoding. */
module JpegBlock {
  import opened Bits
  import opened Canonical
  import opened JpegHuffman
  import opened JpegStream
  import opened JpegDecode
  import opened JpegAc
  import opened JpegZigzag

  /** The coefficients in zigzag order, not yet dequantized. */
  type Coefs = z: seq<int> | |z| == 64 witness seq(64, _ => 0)

  /** Conversion to short: the one that differs by a multiple of 2^16. */
  function ToShort(v: int): (s: int)
    ensures -32768 <= s < 32768 && (v - s) % 65536 == 0
  {
    (v + 32768) % 65536 - 32768
  }

  /** What the block holds for the coefficients: row by row, the coefficient that the zigzag walk meets
      there, times the quantizer of the same place. */
  ghost predicate Dequantized(data: seq<int>, z: Coefs, dequant: seq<nat>) {
    |data| == |dequant| == 64 && forall r: nat, c: nat :: r < 8 && c < 8 ==> DequantizedAt(data, z, dequant, r, c)
  }

  ghost predicate DequantizedAt(data: seq<int>, z: Coefs, dequant: seq<nat>, r: nat, c: nat)
    requires |data| == |dequant| == 64 && r < 8 && c < 8
  {
    data[8 * r + c] == ToShort(z[Walk(r, c)] * dequant[8 * r + c])
  }

  /** The same by the decoder's table, coefficient by coefficient. */
  ghost predicate InOrder(data: seq<int>, z: Coefs, dequant: seq<nat>, i: nat)
    requires |data| == |dequant| == 64 && i < 64
  {
    data[Table(i)] == ToShort(z[i] * dequant[Table(i)])
  }

  lemma DequantizedIff(data: seq<int>, z: Coefs, dequant: seq<nat>)
    ensures Dequantized(data, z, dequant) <==>
      |data| == |dequant| == 64 && forall i: nat :: i < 64 ==> InOrder(data, z, dequant, i)
  {
    hide DequantizedAt, InOrder;
    if |data| != 64 || |dequant| != 64 { return; }
    forall i: nat | i < 64
      ensures Dequantized(data, z, dequant) ==> InOrder(data, z, dequant, i)
    {
      var r, c := PlaceOf(i);
      AtPlace(data, z, dequant, r, c);
    }
    forall r: nat, c: nat | r < 8 && c < 8
      ensures InOrder(data, z, dequant, Walk(r, c)) ==> DequantizedAt(data, z, dequant, r, c)
    {
      AtPlace(data, z, dequant, r, c);
    }
  }

  lemma AtPlace(data: seq<int>, z: Coefs, dequant: seq<nat>, r: nat, c: nat)
    requires |data| == |dequant| == 64 && r < 8 && c < 8
    ensures DequantizedAt(data, z, dequant, r, c) <==> InOrder(data, z, dequant, Walk(r, c))
  {
    hide Walk, Table, ToShort;
    TableWalks(r, c);
  }

  // ---------------------------------------------------------------------------
  // Reading

  datatype Parsed = Bad(at: nat) | Read(z: Coefs, end: nat)

  function Position(r: Parsed): nat {
    if r.Bad? then r.at else r.end
  }

  /** The AC coefficients from number k on, those before being known (ITU-T T.81 F.2.2.2). */
  ghost function AcFrom(lens: Lengths, values: seq<byte>, s: Stream, p: nat, k: nat, z: Coefs): (r: Parsed)
    requires |lens| <= |values| && 1 <= k < 64
    ensures Position(r) >= p && (r.Read? ==> r.z[0] == z[0])
    decreases 64 - k
  {
    match AcAt(lens, values, s, p)
    case NoCode => Bad(p)
    case Special(run, length) =>
      if run == 15 && k + 16 < 64 then AcFrom(lens, values, s, p + length, k + 16, z) else Read(z, p + length)
    case Coefficient(run, value, length) =>
      var z' := Put(z, k + run, value);
      if k + run + 1 < 64 then AcFrom(lens, values, s, p + length, k + run + 1, z') else Read(z', p + length)
  }

  /** A coefficient behind the last place goes to the last place. */
  function Put(z: Coefs, i: nat, value: int): Coefs {
    if i < 64 then z[i := value] else z[63 := value]
  }

  /** stbi__addints_valid */
  predicate AddIntsValid(a: int, b: int) {
    if (a >= 0) != (b >= 0) then true
    else if a < 0 && b < 0 then a >= -0x8000_0000 - b
    else a <= 0x7FFF_FFFF - b
  }

  /** Division that truncates. */
  function Quotient(a: int, b: int): int
    requires b != 0
  {
    if a >= 0 then a / b else -((-a) / b)
  }

  /** stbi__mul2shorts_valid; both arguments are converted to short. */
  predicate Mul2ShortsValid(x: int, y: int) {
    var a, b := ToShort(x), ToShort(y);
    if b == 0 || b == -1 then true
    else if (a >= 0) == (b >= 0) then a <= Quotient(32767, b)
    else if b < 0 then a <= Quotient(-32768, b)
    else a >= Quotient(-32768, b)
  }

  datatype Dc = NoDc(at: nat) | Dc(value: int, end: nat)

  /** The DC coefficient is coded as the difference to the one before (ITU-T T.81 F.2.2.1). */
  ghost function DcAt(lens: Lengths, values: seq<byte>, s: Stream, p: nat, pred: int, q0: nat): (r: Dc)
    requires |lens| <= |values|
    ensures (if r.NoDc? then r.at else r.end) >= p
  {
    match Symbol(lens, s, p)
    case Miss => NoDc(p)
    case Hit(i, length) =>
      var t: nat := values[i];
      if t > 15 then NoDc(p)
      else
        var diff, p1 := Extend(Msb(s, p + length, t), t), p + length + t;
        if !AddIntsValid(pred, diff) || !Mul2ShortsValid(pred + diff, q0) then NoDc(p1) else Dc(pred + diff, p1)
  }

  function FirstOnly(v: int): (z: Coefs)
    ensures z[0] == v && forall i :: 0 < i < 64 ==> z[i] == 0
  {
    seq<int>(64, i => if i == 0 then v else 0)
  }

  ghost function BlockAt(dc: Lengths, dcValues: seq<byte>, ac: Lengths, acValues: seq<byte>, s: Stream, p: nat, pred: int, q0: nat): (r: Parsed)
    requires |dc| <= |dcValues| && |ac| <= |acValues|
    ensures Position(r) >= p
  {
    match DcAt(dc, dcValues, s, p, pred, q0)
    case NoDc(at) => Bad(at)
    case Dc(value, end) => AcFrom(ac, acValues, s, end, 1, FirstOnly(value))
  }

  /** No symbol is hidden by the mark of the fast table. */
  ghost predicate Named(lens: Lengths) {
    |lens| == 256 ==> lens[255] > FAST_BITS
  }

  lemma NamedSymbols(lens: Lengths, s: Stream, p: nat)
    requires |lens| <= 256 && Ascending(lens) && KraftHolds(lens, LONGEST) && Named(lens)
    ensures !Unnamed(Symbol(lens, s, p))
  {
    UnnamedIff(lens);
  }

  // ---------------------------------------------------------------------------
  // The checks

  /** The sum is an int. */
  lemma AddValidIff(a: int, b: int)
    requires -0x8000_0000 <= a < 0x8000_0000 && -0x8000_0000 <= b < 0x8000_0000
    ensures AddIntsValid(a, b) <==> -0x8000_0000 <= a + b < 0x8000_0000
  {
  }

  /** For a short and a factor that is not negative as a short, the product is a short. */
  lemma MulValidIff(a: int, b: nat)
    requires -32768 <= a < 32768 && b < 32768
    ensures Mul2ShortsValid(a, b) <==> -32768 <= a * b < 32768
  {
    assert ToShort(a) == a && ToShort(b) == b;
    if b > 0 {
      if a >= 0 {
        QuotientBound(32767, b, a);
      } else {
        QuotientBound(32768, b, -a);
        Negated(a, b);
      }
    }
  }

  lemma Negated(a: int, b: int)
    ensures (-a) * b == -(a * b)
  {
  }

  lemma QuotientBound(n: nat, d: nat, x: nat)
    requires d > 0
    ensures x <= n / d <==> x * d <= n
  {
    var q := n / d;
    assert n == d * q + n % d;
    Commute(d, q);
    if x <= q {
      Distribute(q - x, x, d);
      MulPositive(q - x, d);
    } else {
      Distribute(x - q, q, d);
      MulAtLeast(x - q, d);
    }
  }

  // ---------------------------------------------------------------------------
  // The decoder

  /** The AC loop has followed the stream to position p and coefficient k, and the block holds what was
      read; or the stream has already been left behind. */
  ghost predicate Following(goal: Parsed, lens: Lengths, values: seq<byte>, s: Stream, p: int, k: nat, z: Coefs,
                            data: seq<int>, dequant: seq<nat>)
    requires |lens| <= |values| && 1 <= k < 64
  {
    Position(goal) <= |s| ==>
      p >= 0 && goal == AcFrom(lens, values, s, p, k, z) && Dequantized(data, z, dequant)
  }

  /** A coefficient goes to its place and no other. */
  lemma PutInPlace(data: seq<int>, z: Coefs, dequant: seq<nat>, i: nat, value: int)
    requires i < 64 + 15 && Dequantized(data, z, dequant)
    ensures Dequantized(data[Dezigzag(i) := ToShort(value * dequant[Dezigzag(i)])], Put(z, i, value), dequant)
  {
    hide Table, Zigzag, ToShort, Dequantized;
    var n := if i < 64 then i else 63;
    LastPlace();
    DequantizedIff(data, z, dequant);
    var data', z' := data[Dezigzag(i) := ToShort(value * dequant[Dezigzag(i)])], Put(z, i, value);
    DequantizedIff(data', z', dequant);
    forall k: nat | k < 64
      ensures InOrder(data', z', dequant, k)
    {
      ZigzagInverts(k);
      ZigzagInverts(n);
      assert InOrder(data, z, dequant, k);
    }
  }

  /** A run past the end of the block puts its coefficient in the last place. */
  lemma PutPastEnd(z: Coefs, i: nat, value: int)
    requires 64 <= i < 64 + 15
    ensures Dezigzag(i) == 63 && Put(z, i, value) == z[63 := value]
  {
  }

  lemma LastPlace()
    ensures Table(63) == 63 && Table(0) == 0
  {
  }

  /** stbi__jpeg_decode_block. As long as the block does not run past the end of the scan, it holds
      afterwards exactly what was read from the stream, and it is refused exactly if that is bad. */
  method DecodeBlock(j: Jpeg, hdc: Huffman, hac: Huffman, fac: array<int>, pred: int, dequant: seq<nat>, data: array<int>)
      returns (ok: bool, dc: int)
    requires j.Reader() && hdc.Built() && hac.Built() && fac.Length == 512 && FacOf(hac.lens, hac.values[..], 512, fac[..])
    requires |dequant| == 64 && data.Length == 64 && data != fac && data != hdc.delta && data != hac.delta
    modifies j, data
    ensures var r := BlockAt(hdc.lens, hdc.values[..], hac.lens, hac.values[..], j.bits, old(j.Pos()), pred, dequant[0]);
      (Named(hdc.lens) && Named(hac.lens) && Position(r) <= |j.bits|) ==>
        && (ok <==> r.Read?)
        && (ok ==> j.Reader() && j.Pos() == r.end && dc == r.z[0] && Dequantized(data[..], r.z, dequant))
  {
    hide AcFrom, FacOf, ToShort, Dequantized, Named, DcAt, BlockAt, FirstOnly, Following,
      SizesOf, CodesOf, LevelsOf, FastOf, Ascending, KraftHolds, Known, BitsOf, Ahead, Msb;
    BuiltSize(hdc);
    BuiltSize(hac);
    ghost var p, values, s := j.Pos(), hac.values[..], j.bits;
    ghost var goal := BlockAt(hdc.lens, hdc.values[..], hac.lens, values, s, p, pred, dequant[0]);
    ghost var exact := Named(hdc.lens) && Named(hac.lens) && Position(goal) <= |s|;
    BlockCases(hdc.lens, hdc.values[..], hac.lens, values, s, p, pred, dequant[0]);
    ok, dc := DecodeDc(j, hdc, pred, dequant[0]);
    if !ok {
      return;
    }
    ClearBlock(data, dc, dequant);
    if exact { Begin(goal, hac.lens, values, s, j.Pos(), FirstOnly(dc), data[..], dequant); }
    assert hac.values[..] == values;
    ok := DecodeAcs(j, hac, fac, dequant, data, exact, goal, FirstOnly(dc));
  }

  /** Zeros, and the DC coefficient in the first place. */
  method ClearBlock(data: array<int>, dc: int, dequant: seq<nat>)
    requires data.Length == 64 == |dequant|
    modifies data
    ensures Dequantized(data[..], FirstOnly(dc), dequant)
  {
    hide Dequantized, ToShort;
    forall i | 0 <= i < 64 { data[i] := 0; }
    data[0] := ToShort(dc * dequant[0]);
    OnlyFirst(data[..], FirstOnly(dc), dequant);
  }

  lemma BuiltSize(h: Huffman)
    requires h.Built()
    ensures |h.lens| <= 256 == |h.values[..]|
  {
  }

  lemma BlockCases(dc: Lengths, dcValues: seq<byte>, ac: Lengths, acValues: seq<byte>, s: Stream, p: nat, pred: int, q0: nat)
    requires |dc| <= |dcValues| && |ac| <= |acValues|
    ensures var r, d := BlockAt(dc, dcValues, ac, acValues, s, p, pred, q0), DcAt(dc, dcValues, s, p, pred, q0);
      if d.NoDc? then r == Bad(d.at)
      else
        && r == AcFrom(ac, acValues, s, d.end, 1, FirstOnly(d.value))
        && Position(r) >= d.end && (r.Read? ==> r.z[0] == d.value)
  {
  }

  lemma Begin(goal: Parsed, lens: Lengths, values: seq<byte>, s: Stream, p: nat, z: Coefs, data: seq<int>, dequant: seq<nat>)
    requires |lens| <= |values| && goal == AcFrom(lens, values, s, p, 1, z) && Dequantized(data, z, dequant)
    ensures Following(goal, lens, values, s, p, 1, z, data, dequant)
  {
  }

  /** The DC coefficient. */
  method DecodeDc(j: Jpeg, h: Huffman, pred: int, q0: nat) returns (ok: bool, dc: int)
    requires j.Reader() && h.Built()
    modifies j
    ensures ok ==> j.Reader()
    ensures var r := DcAt(h.lens, h.values[..], j.bits, old(j.Pos()), pred, q0);
      (Named(h.lens) && (if r.NoDc? then r.at else r.end) <= |j.bits|) ==>
        if ok then r == Dc(dc, j.Pos()) else r.NoDc?
  {
    hide Symbol, Msb, AddIntsValid, Mul2ShortsValid, SizesOf, CodesOf, LevelsOf, FastOf, Ascending, KraftHolds, Known, BitsOf,
      Ahead, Named, Extend, DcAt, ToShort, Quotient, Jpeg.Reader;
    ok, dc := false, pred;
    if j.codeBits < 16 {
      j.GrowBuffer();
    }
    j.Placed();
    ghost var p := j.Pos();
    if Named(h.lens) { NamedSymbols(h.lens, j.bits, p); }
    DcCases(h.lens, h.values[..], j.bits, p, pred, q0);
    var t := j.HuffDecode(h);
    if t < 0 || t > 15 {
      return;
    }
    var diff := ReceiveDifference(j, t);
    if !AddIntsValid(pred, diff) {
      return;
    }
    dc := pred + diff;
    ok := Mul2ShortsValid(dc, q0);
  }

  /** The difference of category t. */
  method ReceiveDifference(j: Jpeg, t: nat) returns (diff: int)
    requires j.Reader() && t <= 15
    modifies j
    ensures j.Reader()
    ensures old(j.Pos()) + t <= |j.bits| ==>
      j.Pos() == old(j.Pos()) + t && diff == Extend(Msb(j.bits, old(j.Pos()), t), t)
  {
    hide Msb, Extend, Known, BitsOf, Ahead;
    ExtendNothing(j.bits, j.Pos());
    diff := 0;
    if t != 0 {
      diff := j.ExtendReceive(t);
    }
  }

  lemma DcCases(lens: Lengths, values: seq<byte>, s: Stream, p: nat, pred: int, q0: nat)
    requires |lens| <= |values|
    ensures var r := DcAt(lens, values, s, p, pred, q0);
      match Symbol(lens, s, p)
      case Miss => r.NoDc?
      case Hit(i, length) =>
        i < |values| &&
        var t: nat := values[i];
        var diff, end := Extend(Msb(s, p + length, t), t), p + length + t;
        if t > 15 then r == NoDc(p)
        else if !AddIntsValid(pred, diff) || !Mul2ShortsValid(pred + diff, q0) then r == NoDc(end)
        else r == Dc(pred + diff, end)
  {
  }

  /** The AC coefficients. */
  method DecodeAcs(j: Jpeg, hac: Huffman, fac: array<int>, dequant: seq<nat>, data: array<int>, ghost exact: bool, ghost goal: Parsed,
                   ghost z0: Coefs)
      returns (ok: bool)
    requires j.Reader() && hac.Built() && fac.Length == 512 && FacOf(hac.lens, hac.values[..], 512, fac[..])
    requires |dequant| == 64 && data.Length == 64 && data != fac && data != hac.delta
    requires exact ==> Named(hac.lens) && Position(goal) <= |j.bits|
    requires exact ==> Following(goal, hac.lens, hac.values[..], j.bits, j.Pos(), 1, z0, data[..], dequant)
    modifies j, data
    ensures exact ==>
      && (ok <==> goal.Read?)
      && (ok ==> j.Reader() && j.Pos() == goal.end && Dequantized(data[..], goal.z, dequant))
  {
    hide Symbol, AcFrom, FacOf, Extend, Msb, ToShort, Dequantized, SizesOf, CodesOf, LevelsOf,
      FastOf, Ascending, KraftHolds, Known, BitsOf, Ahead, Named, Following, AcAt, Put, Dezigzag, Jpeg.Reader;
    var k: nat := 1;
    ghost var z := z0;
    while true
      invariant 1 <= k < 64 && j.Reader() && hac.Built() && FacOf(hac.lens, hac.values[..], 512, fac[..])
      invariant exact ==> Following(goal, hac.lens, hac.values[..], j.bits, j.Pos(), k, z, data[..], dequant)
      decreases 64 - k
    {
      j.Placed();
      ghost var p, was := j.Pos(), data[..];
      if exact {
        NamedSymbols(hac.lens, j.bits, p);
        Follow(goal, hac.lens, hac.values[..], j.bits, p, k, z, was, dequant);
      }
      var step := DecodeAc(j, hac, fac);
      match step {
        case Failed =>
          return false;
        case NoValue(run) =>
          if run != 15 {
            return true;
          }
          k := k + 16;
        case Value(run, value) =>
          k := k + run;
          var zig := Dezigzag(k);
          data[zig] := ToShort(value * dequant[zig]);
          z := Put(z, k, value);
          k := k + 1;
      }
      if k >= 64 {
        return true;
      }
    }
  }

  /** What one step makes of the rest of the block. */
  lemma Follow(goal: Parsed, lens: Lengths, values: seq<byte>, s: Stream, p: nat, k: nat, z: Coefs, data: seq<int>, dequant: seq<nat>)
    requires |lens| <= |values| && 1 <= k < 64
    requires Position(goal) <= |s| && Following(goal, lens, values, s, p, k, z, data, dequant)
    ensures var a := AcAt(lens, values, s, p);
      match a
      case NoCode => goal.Bad?
      case Special(run, length) =>
        && p + length <= |s|
        && if run == 15 && k + 16 < 64 then Following(goal, lens, values, s, p + length, k + 16, z, data, dequant)
           else goal.Read? && goal.end == p + length && Dequantized(data, goal.z, dequant)
      case Coefficient(run, value, length) =>
        p + length <= |s| &&
        (run < 16 ==>
          var i := k + run;
          var data' := data[Dezigzag(i) := ToShort(value * dequant[Dezigzag(i)])];
          if i + 1 < 64 then Following(goal, lens, values, s, p + length, i + 1, Put(z, i, value), data', dequant)
          else goal.Read? && goal.end == p + length && Dequantized(data', goal.z, dequant))
  {
    hide AcAt, Dequantized, ToShort, Put, Dezigzag;
    var a := AcAt(lens, values, s, p);
    if a.Coefficient? && a.run < 16 {
      PutInPlace(data, z, dequant, k + a.run, a.value);
    }
  }

  lemma ExtendNothing(s: Stream, p: int)
    requires p >= 0
    ensures Extend(Msb(s, p, 0), 0) == 0
  {
  }

  lemma OnlyFirst(data: seq<int>, z: Coefs, dequant: seq<nat>)
    requires |data| == |dequant| == 64 && data[0] == ToShort(z[0] * dequant[0])
    requires forall i :: 0 < i < 64 ==> data[i] == 0 && z[i] == 0
    ensures Dequantized(data, z, dequant)
  {
    hide Table, Zigzag, Dequantized;
    LastPlace();
    DequantizedIff(data, z, dequant);
    forall i: nat | i < 64
      ensures InOrder(data, z, dequant, i)
    {
      ZigzagInverts(i);
      ZigzagInverts(0);
    }
  }
}
