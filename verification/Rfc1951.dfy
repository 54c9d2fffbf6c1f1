/** What RFC 1950 and RFC 1951 write down, without the tables of the decoder: the fixed codes, the lengths
    and distances, the runs of code lengths, and whole files given by their bits. */
module Rfc1951 {
  import opened Wrappers
  import opened Bits
  import opened Canonical
  import opened Deflate
  import opened Encoder
  import opened Inflater

  // ---------------------------------------------------------------------------
  // Section 3.2.6: the fixed codes

  function LiteralCode(i: nat): Stream
    requires i < 288
  {
    if i < 144 then BigEndian(48 + i, 8)
    else if i < 256 then BigEndian(400 + (i - 144), 9)
    else if i < 280 then BigEndian(i - 256, 7)
    else BigEndian(192 + (i - 280), 8)
  }

  /** The canonical code of the fixed lengths. */
  lemma FixedLiteralCodes(i: nat)
    requires i < 288
    ensures FixedLiterals()[i] > 0
    ensures i < 144 ==> CodeBits(FixedLiterals(), i) == BigEndian(48 + i, 8)
    ensures 144 <= i < 256 ==> CodeBits(FixedLiterals(), i) == BigEndian(400 + (i - 144), 9)
    ensures 256 <= i < 280 ==> CodeBits(FixedLiterals(), i) == BigEndian(i - 256, 7)
    ensures 280 <= i ==> CodeBits(FixedLiterals(), i) == BigEndian(192 + (i - 280), 8)
  {
    hide Count, First, FixedLiterals, BigEndian;
    var l := FixedLiterals();
    FixedParts();
    FixedFirsts();
    if i < 144 {
      CountRun(l, 0, i, 8, 8);
      CountNone(l, 8);
    } else if i < 256 {
      FixedCounts(144, 9);
      CountRun(l, 144, i, 9, 9);
    } else if i < 280 {
      FixedCounts(256, 7);
      CountRun(l, 256, i, 7, 7);
    } else {
      FixedCounts(280, 8);
      CountRun(l, 280, i, 8, 8);
    }
  }

  lemma FixedParts()
    ensures forall k :: 0 <= k < 144 ==> FixedLiterals()[k] == 8
    ensures forall k :: 144 <= k < 256 ==> FixedLiterals()[k] == 9
    ensures forall k :: 256 <= k < 280 ==> FixedLiterals()[k] == 7
    ensures forall k :: 280 <= k < 288 ==> FixedLiterals()[k] == 8
  {
  }

  /** How many of the first symbols have codes of this length. */
  lemma FixedCounts(n: nat, l: nat)
    requires n == 144 || n == 256 || n == 280 || n == 288
    ensures Count(FixedLiterals(), n, l) ==
      (if l == 8 then 144 else 0) + (if n >= 256 && l == 9 then 112 else 0)
      + (if n >= 280 && l == 7 then 24 else 0) + if n == 288 && l == 8 then 8 else 0
  {
    hide Count, FixedLiterals;
    var lens := FixedLiterals();
    FixedParts();
    CountNone(lens, l);
    CountRun(lens, 0, 144, 8, l);
    if n >= 256 { CountRun(lens, 144, 256, 9, l); }
    if n >= 280 { CountRun(lens, 256, 280, 7, l); }
    if n >= 288 { CountRun(lens, 280, 288, 8, l); }
  }

  lemma CountNone(lens: Lengths, l: nat)
    ensures Count(lens, 0, l) == 0
  {
  }

  lemma {:induction false} CountRun(lens: Lengths, a: nat, b: nat, v: nat, l: nat)
    requires a <= b <= |lens| && forall k :: a <= k < b ==> lens[k] == v
    ensures Count(lens, b, l) == Count(lens, a, l) + if v == l then b - a else 0
  {
    if a < b { CountRun(lens, a, b - 1, v, l); }
  }

  lemma FixedFirsts()
    ensures First(FixedLiterals(), 7) == 0 && First(FixedLiterals(), 8) == 48 && First(FixedLiterals(), 9) == 400
  {
    hide Count, FixedLiterals;
    var lens := FixedLiterals();
    LastOfNone(lens, 6);
    FixedCounts(288, 7);
    FixedCounts(288, 8);
    assert First(lens, 8) == 2 * (First(lens, 7) + Total(lens, 7));
    assert First(lens, 9) == 2 * (First(lens, 8) + Total(lens, 8));
  }

  lemma {:induction false} LastOfNone(lens: Lengths, l: nat)
    requires lens == FixedLiterals() && l <= 6
    ensures Last(lens, l) == 0
  {
    hide Count, FixedLiterals;
    if l > 0 {
      LastOfNone(lens, l - 1);
      FixedCounts(288, l);
    }
  }

  lemma FixedDistanceCodes(d: nat)
    requires d < 32
    ensures FixedDistances()[d] > 0 && CodeBits(FixedDistances(), d) == BigEndian(d, 5)
  {
    hide Count, BigEndian;
    var lens := FixedDistances();
    CountNone(lens, 5);
    CountRun(lens, 0, d, 5, 5);
    DistancesShort(4);
  }

  lemma {:induction false} DistancesShort(l: nat)
    requires l <= 4
    ensures Last(FixedDistances(), l) == 0
  {
    hide Count;
    if l > 0 {
      DistancesShort(l - 1);
      CountNone(FixedDistances(), l);
      CountRun(FixedDistances(), 0, 32, 5, l);
    }
  }

  // ---------------------------------------------------------------------------
  // Section 3.2.5: lengths and distances

  function ExtraOfLength(l: nat): nat { if l < 8 || l == 28 then 0 else (l - 4) / 4 }
  function ExtraOfDistance(d: nat): nat { if d < 4 then 0 else d / 2 - 1 }

  function LeastLength(l: nat): nat {
    if l < 8 then 3 + l else if l == 28 then 258 else 3 + Shl(4 + l % 4, ExtraOfLength(l))
  }

  function LeastDistance(d: nat): nat {
    if d < 4 then 1 + d else 1 + Shl(2 + d % 2, ExtraOfDistance(d))
  }

  /** After the first eight, four length symbols each share a number of extra bits; 258 has its own. */
  lemma LengthTable(l: nat)
    requires l < 29
    ensures LengthExtra(l) == (if l < 8 || l == 28 then 0 else (l - 4) / 4)
    ensures LengthBase(l) == if l < 8 then 3 + l else if l == 28 then 258 else 3 + Pow2((l - 4) / 4) * (4 + l % 4)
    ensures LengthExtra(l) == ExtraOfLength(l) && LengthBase(l) == LeastLength(l)
  {
    hide LengthBase, LengthExtra, Pow2;
    if l < 8 || l == 28 {
      PlainLengths(l);
    } else {
      SharedLengths(l, (l - 4) / 4, l % 4);
      Commute(4 + l % 4, Pow2((l - 4) / 4));
    }
  }

  lemma PlainLengths(l: nat)
    requires l < 8 || l == 28
    ensures LengthExtra(l) == 0 && LengthBase(l) == if l < 8 then 3 + l else 258
  {
  }

  lemma SharedLengths(l: nat, e: nat, i: nat)
    requires l == 4 * e + 4 + i && 1 <= e <= 5 && i < 4
    ensures LengthExtra(l) == e && LengthBase(l) == 3 + Pow2(e) * (4 + i)
  {
    hide Pow2;
    DistPowers();
    match e case 1 => case 2 => case 3 => case 4 => case 5 =>
  }

  /** After the first four, two distance symbols each share a number of extra bits. */
  lemma DistanceTable(d: nat)
    requires d < 30
    ensures DistExtra(d) == if d < 4 then 0 else d / 2 - 1
    ensures DistBase(d) == if d < 4 then 1 + d else 1 + Pow2(d / 2 - 1) * (2 + d % 2)
    ensures DistExtra(d) == ExtraOfDistance(d) && DistBase(d) == LeastDistance(d)
  {
    hide DistBase, DistExtra, Pow2;
    if d < 4 {
      PlainDistances(d);
    } else {
      if d < 16 { NearDistances(d, d / 2 - 1, d % 2); } else { FarDistances(d, d / 2 - 1, d % 2); }
      Commute(2 + d % 2, Pow2(d / 2 - 1));
    }
  }

  lemma PlainDistances(d: nat)
    requires d < 4
    ensures DistExtra(d) == 0 && DistBase(d) == 1 + d
  {
  }

  lemma NearDistances(d: nat, e: nat, i: nat)
    requires d == 2 * e + 2 + i && 1 <= e <= 6 && i < 2
    ensures DistExtra(d) == e && DistBase(d) == 1 + Pow2(e) * (2 + i)
  {
    hide Pow2;
    DistPowers();
    match e case 1 => case 2 => case 3 => case 4 => case 5 => case 6 =>
  }

  lemma FarDistances(d: nat, e: nat, i: nat)
    requires d == 2 * e + 2 + i && 7 <= e <= 13 && i < 2
    ensures DistExtra(d) == e && DistBase(d) == 1 + Pow2(e) * (2 + i)
  {
    hide Pow2;
    DistPowers();
    match e case 7 => case 8 => case 9 => case 10 => case 11 => case 12 => case 13 =>
  }

  // ---------------------------------------------------------------------------
  // Section 3.2.7: the code length code

  /** First the three runs and zero, then outwards from eight. */
  lemma OrderOutwards(i: nat)
    requires i < 19
    ensures Order(i) == if i < 3 then 16 + i else if i == 3 then 0 else if i % 2 == 0 then 6 + i / 2 else 8 - (i - 3) / 2
  {
  }

  /** Symbol 16 repeats the last length 3 to 6 times, 17 stands for 3 to 10 zeros and 18 for 11 to 138. */
  lemma RunLengths(c: nat, acc: Lengths)
    requires 16 <= c < 19 && (c == 16 ==> acc != [])
    ensures var (fill, bits, base) := RunOf(c, acc);
      && (c == 16 ==> fill == acc[|acc| - 1] && base == 3 && base + Pow2(bits) - 1 == 6)
      && (c == 17 ==> fill == 0 && base == 3 && base + Pow2(bits) - 1 == 10)
      && (c == 18 ==> fill == 0 && base == 11 && base + Pow2(bits) - 1 == 138)
  {
    Pow2Values();
  }

  // ---------------------------------------------------------------------------
  // RFC 1950 section 2.2: the header

  /** The first byte is a window size and method 8, the second a level, no dictionary and check bits. */
  ghost predicate HeaderFields(cmf: nat, flg: nat, window: nat, level: nat, check: nat) {
    && window < 16 && level < 4 && check < 32
    && cmf == 16 * window + 8 && flg == 64 * level + check && (256 * cmf + flg) % 31 == 0
  }

  lemma HeaderIsFields(data: seq<byte>)
    ensures ZlibHeader(data) <==> |data| > 2 && exists window, level, check :: HeaderFields(data[0], data[1], window, level, check)
  {
    hide HeaderFields;
    if |data| > 2 {
      var a: nat, b: nat := data[0], data[1];
      HeaderParts(a, b);
      FieldsParts(a, b, a / 16, b / 64, b % 64);
      forall window, level, check | HeaderFields(a, b, window, level, check)
        ensures a % 16 == 8 && b / 32 % 2 == 0 && (a * 256 + b) % 31 == 0
      {
        FieldsParts(a, b, window, level, check);
      }
    }
  }

  lemma FieldsParts(cmf: nat, flg: nat, window: nat, level: nat, check: nat)
    ensures HeaderFields(cmf, flg, window, level, check) ==> cmf % 16 == 8 && flg / 32 % 2 == 0 && (cmf * 256 + flg) % 31 == 0
    ensures (window < 16 && level < 4 && check < 32 && cmf == 16 * window + 8 && flg == 64 * level + check && (cmf * 256 + flg) % 31 == 0)
      ==> HeaderFields(cmf, flg, window, level, check)
  {
    if HeaderFields(cmf, flg, window, level, check) {
      DivModUnique(window, 16, 8);
      DivModUnique(2 * level, 32, check);
      DivModUnique(level, 2, 0);
    }
  }

  lemma HeaderParts(cmf: byte, flg: byte)
    ensures cmf % 16 == 8 ==> cmf == 16 * (cmf / 16) + 8
    ensures flg / 32 % 2 == 0 ==> flg % 64 < 32 && flg == 64 * (flg / 64) + flg % 64
  {
  }

  // ---------------------------------------------------------------------------
  // Files given by their bits

  /** What a token is written as in a fixed block. */
  ghost function TokenBits(t: Token): Stream
    requires t.Valid()
  {
    match t
    case Literal(b) => LiteralCode(b)
    case Pair(l, x, d, y) =>
      LiteralCode(257 + l) + (LittleEndian(x, ExtraOfLength(l)) + (BigEndian(d, 5) + LittleEndian(y, ExtraOfDistance(d))))
  }

  ghost function BodyBits(tokens: seq<Token>): Stream
    requires forall i :: 0 <= i < |tokens| ==> tokens[i].Valid()
  {
    if tokens == [] then [false, false, false, false, false, false, false] else TokenBits(tokens[0]) + BodyBits(tokens[1..])
  }

  /** What a token adds to the bytes out, if its distance does not reach before the first of them. */
  ghost function TokenText(t: Token, out: seq<byte>): (text: Option<seq<byte>>)
    requires t.Valid()
  {
    match t
    case Literal(b) => Some(out + [b])
    case Pair(l, x, d, y) =>
      var dist := LeastDistance(d) + y;
      if dist > |out| then None else Some(Copy(out, dist, LeastLength(l) + x))
  }

  ghost function TextOf(tokens: seq<Token>, out: seq<byte>): (text: Option<seq<byte>>)
    requires forall i :: 0 <= i < |tokens| ==> tokens[i].Valid()
    decreases |tokens|
  {
    if tokens == [] then Some(out)
    else match TokenText(tokens[0], out)
      case None => None
      case Some(out') => TextOf(tokens[1..], out')
  }

  /** The data are a final block of kind 1 with these tokens, behind the header if there is one. */
  ghost predicate IsFixedFile(data: seq<byte>, header: bool, tokens: seq<Token>) {
    && (header ==> ZlibHeader(data))
    && (forall i :: 0 <= i < |tokens| ==> tokens[i].Valid())
    && var p, c := if header then 16 else 0, [true, true, false] + BodyBits(tokens);
      Carries(data, p, c) && p + |c| + 16 <= 8 * |data|
  }

  lemma TokenIsBits(t: Token)
    requires t.Valid()
    ensures Coded(FixedLiterals(), FixedDistances(), t) && WriteToken(FixedLiterals(), FixedDistances(), t) == TokenBits(t)
    ensures t.Pair? ==> t.Length() == LeastLength(t.length) + t.lengthExtra && t.Distance() == LeastDistance(t.dist) + t.distExtra
  {
    hide FixedLiterals, FixedDistances, CodeBits, BigEndian, LittleEndian, LengthBase, LengthExtra, DistBase, DistExtra,
      ExtraOfLength, ExtraOfDistance, LeastLength, LeastDistance;
    match t
    case Literal(b) => FixedLiteralCodes(b);
    case Pair(l, _, d, _) =>
      FixedLiteralCodes(257 + l);
      FixedDistanceCodes(d);
      LengthTable(l);
      DistanceTable(d);
  }

  lemma {:induction false} TokensAreBits(tokens: seq<Token>, out: seq<byte>)
    requires forall i :: 0 <= i < |tokens| ==> tokens[i].Valid()
    requires TextOf(tokens, out).Some?
    ensures FixedLiterals()[256] > 0 && ValidTokens(FixedLiterals(), FixedDistances(), tokens, out)
    ensures WriteTokens(FixedLiterals(), FixedDistances(), tokens, out) == BodyBits(tokens)
    ensures Expand(FixedLiterals(), FixedDistances(), tokens, out) == TextOf(tokens, out).value
    decreases |tokens|
  {
    hide FixedLiterals, FixedDistances, CodeBits, WriteToken, TokenBits, TokenText, Coded, Step, Bounded;
    FixedLiteralCodes(256);
    if tokens == [] {
      SevenZeros();
    } else {
      TokenIsBits(tokens[0]);
      TokenIsText(tokens[0], out);
      TokensAreBits(tokens[1..], Step(tokens[0], out));
    }
  }

  lemma TokenIsText(t: Token, out: seq<byte>)
    requires t.Valid() && TokenText(t, out).Some?
    ensures (t.Pair? ==> t.Distance() <= |out|) && TokenText(t, out) == Some(Step(t, out))
  {
    hide Copy, LeastLength, LeastDistance, Token.Valid, Token.Length, Token.Distance;
    if t.Pair? { PairNumbers(t); }
  }

  lemma PairNumbers(t: Token)
    requires t.Pair? && t.Valid()
    ensures t.Length() == LeastLength(t.length) + t.lengthExtra && t.Distance() == LeastDistance(t.dist) + t.distExtra
  {
    hide LengthBase, DistBase, LeastLength, LeastDistance, LengthExtra, DistExtra;
    LengthTable(t.length);
    DistanceTable(t.dist);
  }

  lemma SevenZeros()
    ensures BigEndian(0, 7) == [false, false, false, false, false, false, false]
  {
    assert BigEndian(0, 2) == [false, false];
    assert BigEndian(0, 4) == [false, false, false, false];
  }

  /** A final block of kind 1 is inflated to what its tokens stand for. */
  lemma FixedFileInflates(data: seq<byte>, header: bool, tokens: seq<Token>, cap: nat)
    requires IsFixedFile(data, header, tokens) && TextOf(tokens, []).Some? && |TextOf(tokens, []).value| <= cap
    ensures var r := Inflate(data, header, cap); r.Ok? && r.value == TextOf(tokens, []).value && r.pos + 16 <= 8 * |data|
  {
    hide ToBits, Blocks, BodyBits, FixedLiterals, FixedDistances, ValidTokens, WriteTokens, Expand, TextOf, ZlibHeader, Carries, At;
    var p, body := if header then 16 else 0, BodyBits(tokens);
    var c := [true, true, false] + body;
    TokensAreBits(tokens, []);
    var b := FixedBlock(tokens);
    OneTwo();
    assert WriteBlock(b, p, [], true) == c by { assert [true] + ([true, false] + body) == c; }
    CarriedStands(data, p, c);
    OneBlock(b, p);
    BlocksRead([b], ToBits(data), p, [], cap);
  }

  lemma OneTwo()
    ensures LittleEndian(1, 2) == [true, false]
  {
    assert LittleEndian(0, 1) == [false];
  }

  lemma OneBlock(b: BlockData, p: nat)
    requires ValidBlock(b, [])
    ensures ValidBlocks([b], []) && WriteBlocks([b], p, []) == WriteBlock(b, p, [], true) && ExpandBlocks([b], []) == ExpandBlock(b, [])
  {
    hide ValidBlock, WriteBlock, ExpandBlock;
    assert [b][1..] == [];
  }

  // ---------------------------------------------------------------------------
  // Texts without matches

  ghost function TextBits(text: seq<byte>): Stream {
    if text == [] then [false, false, false, false, false, false, false] else LiteralCode(text[0]) + TextBits(text[1..])
  }

  /** The data are a final block of kind 1: every byte of the text by its code, and seven zeros. */
  ghost predicate IsLiteralFile(data: seq<byte>, header: bool, text: seq<byte>) {
    && (header ==> ZlibHeader(data))
    && var p, c := if header then 16 else 0, [true, true, false] + TextBits(text);
      Carries(data, p, c) && p + |c| + 16 <= 8 * |data|
  }

  function Literals(text: seq<byte>): (tokens: seq<Token>)
    ensures forall i :: 0 <= i < |tokens| ==> tokens[i].Valid()
  {
    if text == [] then [] else [Literal(text[0])] + Literals(text[1..])
  }

  lemma {:induction false} LiteralsSpell(text: seq<byte>, out: seq<byte>)
    ensures BodyBits(Literals(text)) == TextBits(text) && TextOf(Literals(text), out) == Some(out + text)
    decreases |text|
  {
    hide LiteralCode;
    if text == [] {
      assert out + text == out;
    } else {
      LiteralsSpell(text[1..], out + [text[0]]);
      assert Literals(text)[1..] == Literals(text[1..]);
      assert out + [text[0]] + text[1..] == out + text;
    }
  }

  lemma LiteralFileInflates(data: seq<byte>, header: bool, text: seq<byte>, cap: nat)
    requires IsLiteralFile(data, header, text) && |text| <= cap
    ensures var r := Inflate(data, header, cap); r.Ok? && r.value == text && r.pos + 16 <= 8 * |data|
  {
    hide TextBits, BodyBits, Carries, ZlibHeader, TextOf, Inflate;
    LiteralsSpell(text, []);
    assert [] + text == text;
    FixedFileInflates(data, header, Literals(text), cap);
  }

  // ---------------------------------------------------------------------------
  // Section 3.2.4: stored texts

  /** The data are a final block of kind 0: the length, its complement, and the text. */
  ghost predicate IsStoredFile(data: seq<byte>, header: bool, text: seq<byte>) {
    && (header ==> ZlibHeader(data))
    && var q := if header then 2 else 0;
      && q + 5 + |text| + 2 <= |data| && data[q] % 8 == 1
      && data[q + 1] as int + 256 * (data[q + 2] as int) == |text|
      && data[q + 3] == 255 - data[q + 1] && data[q + 4] == 255 - data[q + 2]
      && data[q + 5..q + 5 + |text|] == text
  }

  lemma StoredFileInflates(data: seq<byte>, header: bool, text: seq<byte>, cap: nat)
    requires IsStoredFile(data, header, text) && |text| <= cap
    ensures var r := Inflate(data, header, cap); r.Ok? && r.value == text && r.pos + 16 <= 8 * |data|
  {
    hide ToBits, Blocks, Block, ZlibHeader, Lsb;
    var q := if header then 2 else 0;
    ThreeBits(data, q);
    BlocksStep(ToBits(data), 8 * q, [], cap);
    StoredBlockInflates(data, q, text, cap);
  }

  lemma StoredBlockInflates(data: seq<byte>, q: nat, text: seq<byte>, cap: nat)
    requires q + 5 + |text| <= |data| && Lsb(ToBits(data), 8 * q + 1, 2) == 0 && |text| <= cap
    requires data[q + 1] as int + 256 * (data[q + 2] as int) == |text|
    requires data[q + 3] == 255 - data[q + 1] && data[q + 4] == 255 - data[q + 2] && data[q + 5..q + 5 + |text|] == text
    ensures Block(ToBits(data), 8 * q + 1, [], cap) == Ok(text, 8 * (q + 5 + |text|))
  {
    hide ToBits, Stored, Block, Lsb, Align;
    BlockStep(ToBits(data), 8 * q + 1, [], cap);
    var h: seq<nat> := [data[q + 1], data[q + 2], data[q + 3], data[q + 4]];
    AlignThree(q);
    StoredByHeader(data, 8 * q + 3, h, [], cap);
    assert [] + text == text;
  }

  lemma AlignThree(q: nat)
    ensures Align(8 * q + 3) == q + 1
  {
  }

  /** The first bits of a byte of the form 8 * n + 1. */
  lemma ThreeBits(data: seq<byte>, q: nat)
    requires q < |data| && data[q] % 8 == 1
    ensures Lsb(ToBits(data), 8 * q, 1) == 1 && Lsb(ToBits(data), 8 * q + 1, 2) == 0
  {
    hide ToBits, Lsb, Pow2;
    var s := ToBits(data);
    ToBitsByte(data, q);
    LsbTake(s, 8 * q, 3, 8);
    Pow2Values();
    LsbTake(s, 8 * q, 1, 3);
  }
}
