/** LZW as GIF uses it (GIF89a Appendix F): a reference decoder that keeps the dictionary as strings,
    an encoder free to choose any phrase of its dictionary and to clear when it likes, and the proof
    that they are inverse to each other. Code clear = 2^m starts afresh, clear + 1 ends the image. */
module GifLzw {
  import opened Bits

  type Dict = seq<seq<byte>>

  const LIMIT: nat := 8192
  const WIDEST: nat := 12

  /** The strings of the one-letter codes; the clear code and the end code have none. */
  function FreshDict(m: nat): (d: Dict)
    ensures |d| == Pow2(m) + 2
  {
    seq(Pow2(m) + 2, c requires 0 <= c => if c < Pow2(m) then [Letter(c)] else [])
  }

  /** A letter is kept in a byte. */
  function Letter(c: nat): byte {
    c % 256
  }

  /** What is known between two codes; last is the string of the last code, empty after a clear. */
  datatype State = State(width: nat, dict: Dict, last: seq<byte>, cleared: bool)

  function Start(m: nat): State {
    State(m + 1, FreshDict(m), [], false)
  }

  function Cleared(m: nat): State {
    State(m + 1, FreshDict(m), [], true)
  }

  predicate IsText(c: nat, m: nat) {
    c != Pow2(m) && c != Pow2(m) + 1
  }

  ghost predicate Good(st: State, m: nat) {
    && st.width >= 1 && |st.dict| >= Pow2(m) + 2
    && (st.last == [] ==> st.dict == FreshDict(m))
    && forall c :: 0 <= c < |st.dict| && IsText(c, m) ==> st.dict[c] != []
  }

  lemma FreshIsGood(m: nat)
    ensures Good(Start(m), m) && Good(Cleared(m), m)
  {
  }

  /** The dictionary once the string after last is seen to begin with head. */
  function Learn(d: Dict, last: seq<byte>, head: byte): (e: Dict)
    ensures |e| == |d| + if last == [] then 0 else 1
    ensures e[..|d|] == d
  {
    if last == [] then d else d + [last + [head]]
  }

  /** The width after a code, n being the size of the dictionary. */
  function Widen(w: nat, n: nat): nat {
    if Low(n, w) == 0 && n <= 0xFFF then w + 1 else w
  }

  /** Codes never get wider than 13 bits. */
  lemma WidenBound(w: nat, n: nat)
    requires w <= WIDEST + 1 && n > 0
    ensures Widen(w, n) <= WIDEST + 1
  {
    if w >= WIDEST {
      Pow2Monotone(WIDEST, w);
      Bounds(2, WIDEST);
      if n <= 0xFFF { LowOfSmall(n, w); }
    }
  }

  /** A code the decoder can accept in this state. */
  predicate Legal(st: State, c: nat) {
    && st.cleared
    && if st.last == [] then c < |st.dict| else c <= |st.dict| && |st.dict| < LIMIT
  }

  /** The string of a legal code; the code of the entry that is only now being learned stands for last
      and its own first letter. */
  function Text(st: State, c: nat, m: nat): (s: seq<byte>)
    requires Good(st, m) && Legal(st, c) && IsText(c, m)
    ensures s != []
  {
    if c < |st.dict| then st.dict[c] else st.last + [st.last[0]]
  }

  function Advance(st: State, c: nat, m: nat): (st': State)
    requires Good(st, m) && Legal(st, c) && IsText(c, m)
    ensures Good(st', m) && st'.last == Text(st, c, m) && st'.cleared
  {
    var s := Text(st, c, m);
    var d := Learn(st.dict, st.last, s[0]);
    State(Widen(st.width, |d|), d, s, true)
  }

  datatype Result = Result(ok: bool, pixels: seq<byte>)

  /** The codes from position p on. When no whole code is left the image ends where it is. */
  function Decode(bits: Stream, p: nat, m: nat, st: State): (r: Result)
    requires Good(st, m)
    decreases |bits| - p
  {
    if p + st.width > |bits| then Result(true, [])
    else
      var c, q := Lsb(bits, p, st.width), p + st.width;
      if c == Pow2(m) then
        FreshIsGood(m);
        Decode(bits, q, m, Cleared(m))
      else if c == Pow2(m) + 1 then Result(true, [])
      else if !Legal(st, c) then Result(false, [])
      else
        var r := Decode(bits, q, m, Advance(st, c, m));
        r.(pixels := Text(st, c, m) + r.pixels)
  }

  lemma DecodeStep(bits: Stream, p: nat, m: nat, st: State, c: nat)
    requires Good(st, m) && Good(Cleared(m), m) && p + st.width <= |bits| && c == Lsb(bits, p, st.width)
    ensures c == Pow2(m) ==> Decode(bits, p, m, st) == Decode(bits, p + st.width, m, Cleared(m))
    ensures c == Pow2(m) + 1 ==> Decode(bits, p, m, st) == Result(true, [])
    ensures IsText(c, m) && !Legal(st, c) ==> Decode(bits, p, m, st) == Result(false, [])
    ensures IsText(c, m) && Legal(st, c) ==>
      var r := Decode(bits, p + st.width, m, Advance(st, c, m));
      Decode(bits, p, m, st) == Result(r.ok, Text(st, c, m) + r.pixels)
  {
    hide Pow2, Lsb, Legal, Advance, Text, Cleared, Good;
  }

  lemma DecodeOut(bits: Stream, p: nat, m: nat, st: State)
    requires Good(st, m) && p + st.width > |bits|
    ensures Decode(bits, p, m, st) == Result(true, [])
  {
  }

  // ---------------------------------------------------------------------------
  // What is refused

  /** A code is at most the next entry, that only if there is a string before it to be extended, and the
      table has room for 8192 entries. */
  lemma LegalIff(st: State, c: nat)
    ensures Legal(st, c) <==>
      st.cleared && c <= |st.dict| && (st.last == [] ==> c != |st.dict|) && (st.last != [] ==> |st.dict| + 1 <= 8192)
  {
  }

  /** A raster has to begin with a clear code, unless it ends at once. */
  lemma ClearComesFirst(bits: Stream, m: nat)
    requires m + 1 <= |bits| && Lsb(bits, 0, m + 1) != Pow2(m) && Lsb(bits, 0, m + 1) != Pow2(m) + 1
    ensures Good(Start(m), m) && Decode(bits, 0, m, Start(m)) == Result(false, [])
  {
    hide Pow2, Lsb, FreshDict;
    FreshIsGood(m);
    DecodeStep(bits, 0, m, Start(m), Lsb(bits, 0, m + 1));
  }

  /** And behind it stands a letter. */
  lemma LetterComesSecond(bits: Stream, m: nat)
    requires 2 * m + 2 <= |bits| && Lsb(bits, 0, m + 1) == Pow2(m) && Lsb(bits, m + 1, m + 1) > Pow2(m) + 1
    ensures Good(Start(m), m) && Decode(bits, 0, m, Start(m)) == Result(false, [])
  {
    hide Pow2, Lsb, FreshDict;
    FreshIsGood(m);
    DecodeStep(bits, 0, m, Start(m), Pow2(m));
    DecodeStep(bits, m + 1, m, Cleared(m), Lsb(bits, m + 1, m + 1));
  }

  // ---------------------------------------------------------------------------
  // The encoder

  /** Either start afresh, or write the code c of the phrase s. */
  datatype Op = Clear | Phrase(c: nat, s: seq<byte>)

  /** The encoder's side of the state. */
  datatype Coder = Coder(dict: Dict, last: seq<byte>, cleared: bool)

  /** The least width above m in which n is a number, but no more than 12 unless m is 12. */
  function WidthFor(m: nat, n: nat): (w: nat)
    ensures w > m
    decreases WIDEST - m
  {
    if n < Pow2(m + 1) || m + 1 >= WIDEST then m + 1 else WidthFor(m + 1, n)
  }

  /** The phrase extends the dictionary before it is looked up in it. */
  ghost predicate Writable(ops: seq<Op>, m: nat, e: Coder) {
    ops == [] ||
    match ops[0]
    case Clear => Writable(ops[1..], m, Coder(FreshDict(m), [], true))
    case Phrase(c, s) =>
      && e.cleared && s != [] && c < Pow2(WidthFor(m, |e.dict|))
      && var d := Learn(e.dict, e.last, s[0]);
         && |d| <= LIMIT && c < |d| && d[c] == s
         && Writable(ops[1..], m, Coder(d, s, true))
  }

  ghost function Write(ops: seq<Op>, m: nat, e: Coder): Stream {
    var w := WidthFor(m, |e.dict|);
    if ops == [] then []
    else match ops[0]
      case Clear => LittleEndian(Pow2(m), w) + Write(ops[1..], m, Coder(FreshDict(m), [], true))
      case Phrase(c, s) =>
        LittleEndian(c, w) +
        Write(ops[1..], m, Coder(if s == [] then e.dict else Learn(e.dict, e.last, s[0]), s, true))
  }

  /** The width of the code that follows. */
  ghost function LastWidth(ops: seq<Op>, m: nat, e: Coder): nat {
    if ops == [] then WidthFor(m, |e.dict|)
    else match ops[0]
      case Clear => LastWidth(ops[1..], m, Coder(FreshDict(m), [], true))
      case Phrase(c, s) =>
        LastWidth(ops[1..], m, Coder(if s == [] then e.dict else Learn(e.dict, e.last, s[0]), s, true))
  }

  function Expand(ops: seq<Op>): seq<byte> {
    if ops == [] then []
    else (match ops[0] case Clear => [] case Phrase(_, s) => s) + Expand(ops[1..])
  }

  /** The two sides of the state agree. */
  ghost predicate InStep(st: State, e: Coder, m: nat) {
    && Good(st, m) && st.dict == e.dict && st.last == e.last && st.cleared == e.cleared
    && |e.dict| <= LIMIT && st.width == WidthFor(m, |e.dict|)
  }

  // ---------------------------------------------------------------------------
  // Widths

  lemma {:induction false} WidthIsLeast(m: nat, n: nat)
    requires m <= WIDEST
    ensures var w := WidthFor(m, n);
      && m < w && (m < WIDEST ==> w <= WIDEST) && (m == WIDEST ==> w == WIDEST + 1)
      && (n < Pow2(w) || w >= WIDEST)
      && (w == m + 1 || n >= Pow2(w - 1))
    decreases WIDEST - m
  {
    if !(n < Pow2(m + 1) || m + 1 >= WIDEST) {
      WidthIsLeast(m + 1, n);
    }
  }

  lemma {:induction false} WidthUnique(m: nat, n: nat, w: nat)
    requires m < w && (m < WIDEST ==> w <= WIDEST) && (m >= WIDEST ==> w == m + 1)
    requires n < Pow2(w) || w >= WIDEST
    requires w == m + 1 || n >= Pow2(w - 1)
    ensures WidthFor(m, n) == w
    decreases w - m
  {
    if w > m + 1 {
      Pow2Monotone(m + 1, w - 1);
      WidthUnique(m + 1, n, w);
    }
  }

  /** Testing, after each new entry, whether the size is a multiple of the code range keeps the width
      the least one, for every minimum code size the standard allows. */
  lemma WidenKeepsLeast(m: nat, n: nat)
    requires 2 <= m <= WIDEST && Pow2(m) + 2 <= n < LIMIT
    ensures Widen(WidthFor(m, n), n + 1) == WidthFor(m, n + 1)
  {
    hide Pow2, WidthFor, Widen;
    WidthIsLeast(m, n);
    var w := WidthFor(m, n);
    if n + 1 < Pow2(w) {
      WidthKept(m, n, w);
    } else if w < WIDEST {
      WidthGrows(m, n, w);
    } else {
      WidthStays(m, n, w);
    }
  }

  lemma WidthKept(m: nat, n: nat, w: nat)
    requires m < w && (m < WIDEST ==> w <= WIDEST) && (m >= WIDEST ==> w == m + 1)
    requires n + 1 < Pow2(w) && (w == m + 1 || n >= Pow2(w - 1))
    ensures Widen(w, n + 1) == w == WidthFor(m, n + 1)
  {
    hide Pow2, WidthFor, Low;
    LowOfSmall(n + 1, w);
    WidthUnique(m, n + 1, w);
  }

  lemma WidthGrows(m: nat, n: nat, w: nat)
    requires 2 <= m < w < WIDEST && n + 1 == Pow2(w)
    ensures Widen(w, n + 1) == w + 1 == WidthFor(m, n + 1)
  {
    hide WidthFor, Pow2;
    Bounds(m, w);
    Pow2Monotone(w, 11);
    Pow2Add(1, w);
    Pow2Values();
    WidthUnique(m, n + 1, w + 1);
    LowOfPow2(w);
  }

  lemma LowOfPow2(w: nat)
    ensures Low(Pow2(w), w) == 0
  {
    DivModUnique(1, Pow2(w), 0);
  }

  lemma WidthStays(m: nat, n: nat, w: nat)
    requires 2 <= m < w && WIDEST <= w && (m < WIDEST ==> w <= WIDEST) && (m >= WIDEST ==> w == m + 1)
    requires n + 1 >= Pow2(w) && (w == m + 1 || n >= Pow2(w - 1))
    ensures Widen(w, n + 1) == w == WidthFor(m, n + 1)
  {
    hide WidthFor, Pow2, Low;
    Bounds(2, WIDEST);
    Pow2Monotone(WIDEST, w);
    WidthUnique(m, n + 1, w);
  }

  lemma Bounds(m: nat, w: nat)
    requires 2 <= m <= WIDEST && m < w <= WIDEST + 1
    ensures Pow2(w) > Pow2(m) + 2
    ensures w == WIDEST ==> Pow2(w) == 4096
    ensures w == WIDEST + 1 ==> Pow2(w) == LIMIT
    ensures Pow2(11) == 2048
  {
    hide Pow2;
    Pow2Values();
    Pow2Monotone(2, m);
    Pow2Monotone(m + 1, w);
    Pow2Add(1, m);
    Pow2Add(2, 9);
    Pow2Add(3, 9);
    Pow2Add(4, 9);
  }

  /** No entry, no change. */
  lemma WidenAtStart(m: nat)
    requires 2 <= m <= WIDEST
    ensures WidthFor(m, Pow2(m) + 2) == m + 1 && Widen(m + 1, Pow2(m) + 2) == m + 1
  {
    Bounds(m, m + 1);
    LowOfSmall(Pow2(m) + 2, m + 1);
  }

  /** A decoder that starts one wider than the letters starts right for exactly the code sizes from 2 on,
      the ones the standard allows. */
  lemma StartsRight(m: nat)
    requires m <= WIDEST
    ensures Start(m).width == WidthFor(m, |FreshDict(m)|) <==> m >= 2
  {
    Pow2Values();
    if m >= 2 { WidenAtStart(m); }
  }

  // ---------------------------------------------------------------------------
  // Decoding what was encoded

  lemma FreshInStep(m: nat)
    requires 2 <= m <= WIDEST
    ensures InStep(Start(m), Coder(FreshDict(m), [], false), m)
    ensures InStep(Cleared(m), Coder(FreshDict(m), [], true), m)
  {
    FreshIsGood(m);
    StartsRight(m);
    Bounds(m, m + 1);
    Pow2Monotone(m, WIDEST);
    Bounds(m, WIDEST + 1);
  }

  /** Whatever the encoder may write is legal, stands for the phrase, and keeps the two in step. */
  lemma PhraseInStep(st: State, e: Coder, m: nat, c: nat, s: seq<byte>)
    requires 2 <= m <= WIDEST && InStep(st, e, m) && e.cleared && s != []
    requires var d := Learn(e.dict, e.last, s[0]); |d| <= LIMIT && c < |d| && d[c] == s
    ensures Legal(st, c)
    ensures IsText(c, m) ==> Text(st, c, m) == s
    ensures IsText(c, m) ==> InStep(Advance(st, c, m), Coder(Learn(e.dict, e.last, s[0]), s, true), m)
  {
    hide WidthFor, FreshDict, Pow2;
    if IsText(c, m) {
      if c == |st.dict| { assert s == st.last + [s[0]]; assert s[0] == st.last[0]; }
      assert Text(st, c, m) == s;
      if e.last == [] { WidenAtStart(m); } else { WidenKeepsLeast(m, |e.dict|); }
    }
  }

  /** The two codes without a string are never the code of a phrase. */
  lemma PhraseIsText(st: State, e: Coder, m: nat, c: nat, s: seq<byte>)
    requires InStep(st, e, m) && s != [] && NoStrings(e.dict, m)
    requires var d := Learn(e.dict, e.last, s[0]); c < |d| && d[c] == s
    ensures IsText(c, m) && NoStrings(Learn(e.dict, e.last, s[0]), m)
  {
  }

  ghost predicate NoStrings(d: Dict, m: nat) {
    |d| >= Pow2(m) + 2 && d[Pow2(m)] == [] && d[Pow2(m) + 1] == []
  }

  /** The codes are there, and so is what the stream needs to hold them. */
  ghost predicate Stands(bits: Stream, p: nat, c: Stream) {
    p + |c| <= |bits| && At(bits, p, c)
  }

  lemma StandsSplit(bits: Stream, p: nat, a: Stream, b: Stream)
    ensures Stands(bits, p, a + b) <==> Stands(bits, p, a) && Stands(bits, p + |a|, b)
  {
    AtSplit(bits, p, a, b);
  }

  ghost predicate Ends(bits: Stream, p: nat, m: nat, w: nat) {
    p + w > |bits| || Stands(bits, p, LittleEndian(Pow2(m) + 1, w))
  }

  /** The bits from p on are what the encoder writes for these operations, and then the image ends. */
  ghost predicate Encodes(ops: seq<Op>, bits: Stream, p: nat, m: nat, e: Coder) {
    && Writable(ops, m, e) && Stands(bits, p, Write(ops, m, e))
    && Ends(bits, p + |Write(ops, m, e)|, m, LastWidth(ops, m, e))
  }

  /** Decoding inverts encoding, from any pair of states in step. */
  lemma {:induction false} CodesRead(ops: seq<Op>, bits: Stream, p: nat, m: nat, st: State, e: Coder)
    requires 2 <= m <= WIDEST && InStep(st, e, m) && NoStrings(e.dict, m)
    requires Encodes(ops, bits, p, m, e)
    ensures Decode(bits, p, m, st) == Result(true, Expand(ops))
    decreases |ops|
  {
    hide FreshDict, Pow2, Learn, Stands, Lsb, LittleEndian, WidthFor, Legal, Text, Advance;
    var w := WidthFor(m, |e.dict|);
    SpecialsFit(m, |e.dict|);
    if ops == [] {
      StandsReads(bits, p, Pow2(m) + 1, w);
    } else {
      match ops[0]
      case Clear =>
        var n := Coder(FreshDict(m), [], true);
        FreshInStep(m);
        FreshNoStrings(m);
        StandsSplit(bits, p, LittleEndian(Pow2(m), w), Write(ops[1..], m, n));
        StandsReads(bits, p, Pow2(m), w);
        CodesRead(ops[1..], bits, p + w, m, Cleared(m), n);
      case Phrase(c, s) =>
        var n := Coder(Learn(e.dict, e.last, s[0]), s, true);
        PhraseInStep(st, e, m, c, s);
        PhraseIsText(st, e, m, c, s);
        StandsSplit(bits, p, LittleEndian(c, w), Write(ops[1..], m, n));
        StandsReads(bits, p, c, w);
        CodesRead(ops[1..], bits, p + w, m, Advance(st, c, m), n);
    }
  }

  lemma StandsReads(bits: Stream, p: nat, v: nat, w: nat)
    requires v < Pow2(w)
    ensures Stands(bits, p, LittleEndian(v, w)) <==> p + w <= |bits| && Lsb(bits, p, w) == v
  {
    LsbOfLittleEndian(bits, p, v, w);
  }

  lemma FreshNoStrings(m: nat)
    ensures NoStrings(FreshDict(m), m)
  {
  }

  lemma SpecialsFit(m: nat, n: nat)
    requires 2 <= m <= WIDEST
    ensures Pow2(m) + 1 < Pow2(WidthFor(m, n))
  {
    WidthIsLeast(m, n);
    Bounds(m, WidthFor(m, n));
  }

  /** Before the first clear code. */
  function NewCoder(m: nat): Coder {
    Coder(FreshDict(m), [], false)
  }

  /** Decoding the bits gives back what these operations stand for, if an encoder writes them so. */
  ghost predicate Recovered(ops: seq<Op>, bits: Stream, m: nat) {
    FreshIsGood(m);
    Encodes(ops, bits, 0, m, NewCoder(m)) ==> Decode(bits, 0, m, Start(m)) == Result(true, Expand(ops))
  }

  /** Decoding inverts encoding exactly for minimum code sizes from 2 on. */
  lemma RoundTripIff(m: nat)
    requires m <= WIDEST
    ensures (forall ops, bits :: Recovered(ops, bits, m)) <==> m >= 2
  {
    if m >= 2 {
      forall ops, bits
        ensures Recovered(ops, bits, m)
      {
        if Encodes(ops, bits, 0, m, NewCoder(m)) {
          FreshInStep(m);
          FreshNoStrings(m);
          CodesRead(ops, bits, 0, m, Start(m), NewCoder(m));
        }
      }
    } else if m == 1 {
      LostAtOne();
    } else {
      LostAtZero();
    }
  }

  /** With size 0 the clear code is written in two bits and read in one; the other one is a letter. */
  lemma LostAtZero()
    ensures !Recovered([Clear], [true, false], 0)
  {
    hide Decode, Advance, Lsb, LittleEndian, Stands, FreshDict;
    var ops, bits: Stream := [Clear], [true, false];
    SmallWidths();
    FreshIsGood(0);
    assert ops[1..] == [];
    assert Write(ops, 0, NewCoder(0)) == LittleEndian(1, 2);
    ReadsSmall(bits, 0);
    ReadsSmall(bits, 1);
    StandsReads(bits, 0, 1, 2);
    assert Encodes(ops, bits, 0, 0, NewCoder(0));
    DecodeStep(bits, 0, 0, Start(0), 1);
    DecodeStep(bits, 1, 0, Cleared(0), 0);
  }

  lemma SmallWidths()
    ensures Pow2(0) == 1 && Pow2(1) == 2 && Pow2(2) == 4 && Pow2(3) == 8
    ensures WidthFor(0, 3) == 2 && WidthFor(1, 4) == 3
  {
  }

  lemma ReadsSmall(s: Stream, p: nat)
    ensures Lsb(s, p, 1) == Bit(s, p) && Lsb(s, p, 2) == Bit(s, p) + 2 * Bit(s, p + 1)
    ensures Lsb(s, p, 3) == Bit(s, p) + 2 * Bit(s, p + 1) + 4 * Bit(s, p + 2)
  {
    assert Lsb(s, p + 1, 2) == Bit(s, p + 1) + 2 * Lsb(s, p + 2, 1);
  }

  /** With size 1 it is written in three bits and read in two, and the text is read out of place. */
  lemma LostAtOne()
    ensures !Recovered([Clear, Phrase(1, [1])], [false, true, false, true, false, false], 1)
  {
    hide Decode, Encodes, Expand;
    FreshIsGood(1);
    LostEncodes();
    LostDecodes();
    LostText();
  }

  lemma LostText()
    ensures Expand([Clear, Phrase(1, [1])]) == [1]
  {
    assert [Clear, Phrase(1, [1])][1..] == [Phrase(1, [1])];
    assert Expand([Phrase(1, [1])]) == [1];
  }

  /** The clear code in bits 0 to 2, the letter in bits 3 to 5. */
  lemma LostEncodes()
    ensures Good(Start(1), 1) && Encodes([Clear, Phrase(1, [1])], [false, true, false, true, false, false], 0, 1, NewCoder(1))
  {
    hide Decode, Advance, Lsb, LittleEndian, Stands, FreshDict, Letter;
    var phrase := [Phrase(1, [1])];
    var ops, bits: Stream := [Clear] + phrase, [false, true, false, true, false, false];
    var e := Coder(FreshDict(1), [], true);
    SmallWidths();
    FreshIsGood(1);
    LetterOne();
    assert phrase[1..] == [] && ops[1..] == phrase && ops == [Clear, Phrase(1, [1])];
    ReadsSmall(bits, 0);
    ReadsSmall(bits, 3);
    StandsReads(bits, 3, 1, 3);
    StandsNothing(bits, 6);
    assert Write([], 1, Coder(FreshDict(1), [1], true)) == [];
    assert Write(phrase, 1, e) == LittleEndian(1, 3) + [];
    assert LittleEndian(1, 3) + [] == LittleEndian(1, 3);
    assert Encodes(phrase, bits, 3, 1, e);
    StandsReads(bits, 0, 2, 3);
    StandsSplit(bits, 0, LittleEndian(2, 3), LittleEndian(1, 3));
  }

  /** Read in twos they are clear, clear and the letter 0. */
  lemma LostDecodes()
    ensures Good(Start(1), 1)
    ensures var r := Decode([false, true, false, true, false, false], 0, 1, Start(1)); r.pixels != [] && r.pixels[0] == 0
  {
    hide Decode, Advance, Lsb, FreshDict, Letter;
    var bits: Stream := [false, true, false, true, false, false];
    SmallWidths();
    FreshIsGood(1);
    LetterOne();
    ReadsSmall(bits, 0);
    ReadsSmall(bits, 2);
    ReadsSmall(bits, 4);
    DecodeStep(bits, 0, 1, Start(1), 2);
    DecodeStep(bits, 2, 1, Cleared(1), 2);
    DecodeStep(bits, 4, 1, Cleared(1), 0);
    assert Text(Cleared(1), 0, 1) == [0];
  }

  /** The letters 0 and 1 of the dictionary for size 1. */
  lemma LetterOne()
    ensures FreshDict(1)[0] == [0] && FreshDict(1)[1] == [1]
  {
  }

  // ---------------------------------------------------------------------------
  // Only what was encoded

  /** Whatever decodes was written by some encoder. */
  lemma {:induction false} CodesWritten(bits: Stream, p: nat, m: nat, st: State, e: Coder) returns (ops: seq<Op>)
    requires 2 <= m <= WIDEST && InStep(st, e, m) && NoStrings(e.dict, m)
    requires Decode(bits, p, m, st).ok && p <= |bits|
    ensures Encodes(ops, bits, p, m, e) && Expand(ops) == Decode(bits, p, m, st).pixels
    decreases |bits| - p
  {
    hide FreshDict, Pow2, Learn, Stands, Lsb, LittleEndian, WidthFor, Text, Advance, Legal, Encodes, NoStrings;
    var w := WidthFor(m, |e.dict|);
    SpecialsFit(m, |e.dict|);
    if p + w > |bits| {
      NothingWritten(bits, p, m, e);
      return [];
    }
    var c := Lsb(bits, p, w);
    StandsReads(bits, p, c, w);
    if c == Pow2(m) + 1 {
      NothingWritten(bits, p, m, e);
      return [];
    }
    if c == Pow2(m) {
      var n := Coder(FreshDict(m), [], true);
      FreshInStep(m);
      FreshNoStrings(m);
      var rest := CodesWritten(bits, p + w, m, Cleared(m), n);
      ClearWritten(rest, bits, p, m, e);
      ops := [Clear] + rest;
    } else {
      var s := Text(st, c, m);
      TextLearned(st, m, c);
      PhraseInStep(st, e, m, c, s);
      PhraseIsText(st, e, m, c, s);
      var rest := CodesWritten(bits, p + w, m, Advance(st, c, m), Coder(Learn(e.dict, e.last, s[0]), s, true));
      PhraseWritten(c, s, rest, bits, p, m, e);
      ops := [Phrase(c, s)] + rest;
    }
  }

  lemma NothingWritten(bits: Stream, p: nat, m: nat, e: Coder)
    requires p <= |bits| && Ends(bits, p, m, WidthFor(m, |e.dict|))
    ensures Encodes([], bits, p, m, e) && Expand([]) == []
  {
    StandsNothing(bits, p);
  }

  lemma ClearWritten(rest: seq<Op>, bits: Stream, p: nat, m: nat, e: Coder)
    requires var w, n := WidthFor(m, |e.dict|), Coder(FreshDict(m), [], true);
      Stands(bits, p, LittleEndian(Pow2(m), w)) && Encodes(rest, bits, p + w, m, n)
    ensures Encodes([Clear] + rest, bits, p, m, e) && Expand([Clear] + rest) == Expand(rest)
  {
    hide FreshDict, Pow2, Stands, Lsb, LittleEndian, WidthFor, Learn;
    var ops, w, n := [Clear] + rest, WidthFor(m, |e.dict|), Coder(FreshDict(m), [], true);
    assert ops[1..] == rest;
    StandsSplit(bits, p, LittleEndian(Pow2(m), w), Write(rest, m, n));
  }

  lemma PhraseWritten(c: nat, s: seq<byte>, rest: seq<Op>, bits: Stream, p: nat, m: nat, e: Coder)
    requires e.cleared && s != []
    requires var w := WidthFor(m, |e.dict|);
      c < Pow2(w) && Stands(bits, p, LittleEndian(c, w))
      && var d := Learn(e.dict, e.last, s[0]);
         |d| <= LIMIT && c < |d| && d[c] == s && Encodes(rest, bits, p + w, m, Coder(d, s, true))
    ensures Encodes([Phrase(c, s)] + rest, bits, p, m, e) && Expand([Phrase(c, s)] + rest) == s + Expand(rest)
  {
    hide Pow2, Stands, Lsb, LittleEndian, WidthFor, Learn;
    var ops, w := [Phrase(c, s)] + rest, WidthFor(m, |e.dict|);
    var n := Coder(Learn(e.dict, e.last, s[0]), s, true);
    assert ops[1..] == rest;
    StandsSplit(bits, p, LittleEndian(c, w), Write(rest, m, n));
  }

  lemma StandsNothing(bits: Stream, p: nat)
    requires p <= |bits|
    ensures Stands(bits, p, [])
  {
  }

  /** The string of a legal code is the entry of that code once the new entry is made: for the code
      just ahead of the dictionary too. */
  lemma TextLearned(st: State, m: nat, c: nat)
    requires Good(st, m) && Legal(st, c) && IsText(c, m) && |st.dict| <= LIMIT
    ensures var s := Text(st, c, m); var d := Learn(st.dict, st.last, s[0]);
      st.cleared && |d| <= LIMIT && c < |d| && d[c] == s
  {
  }

  // ---------------------------------------------------------------------------
  // A compressor

  /** The longest phrase of the dictionary that the input begins with; c is its code. */
  function Longest(d: Dict, input: seq<byte>, n: nat): (c: int)
    requires n <= |d| && input != []
    ensures -1 <= c < n && (c >= 0 ==> d[c] != [] && d[c] <= input)
    ensures forall k :: 0 <= k < n && d[k] != [] && d[k] <= input ==> c >= 0 && |d[k]| <= |d[c]|
  {
    if n == 0 then -1
    else
      var c := Longest(d, input, n - 1);
      if d[n - 1] != [] && d[n - 1] <= input && (c < 0 || |d[n - 1]| > |d[c]|) then n - 1 else c
  }

  /** Greedy compression, clearing when the next entry would have no 12-bit code. It stops at a letter
      outside the alphabet. */
  function Compress(input: seq<byte>, m: nat, e: Coder): (ops: seq<Op>)
    requires Pow2(m) + 2 < 4096
    decreases |input|, !(e.cleared && |e.dict| < 4096)
  {
    if input == [] then []
    else if !e.cleared || |e.dict| >= 4096 then
      [Clear] + Compress(input, m, Coder(FreshDict(m), [], true))
    else
      var d := Learn(e.dict, e.last, input[0]);
      var c := Longest(d, input, |d|);
      if c < 0 then [] else [Phrase(c, d[c])] + Compress(input[|d[c]|..], m, Coder(d, d[c], true))
  }

  predicate Alphabet(input: seq<byte>, m: nat) {
    forall i :: 0 <= i < |input| ==> input[i] < Pow2(m)
  }

  ghost predicate Spells(d: Dict, m: nat) {
    |d| >= Pow2(m) + 2 && forall c :: 0 <= c < Pow2(m) ==> d[c] == [Letter(c)]
  }

  /** Every text over the alphabet has an encoding. */
  lemma {:induction false} CompressWrites(input: seq<byte>, m: nat, e: Coder)
    requires 2 <= m && Pow2(m) + 2 < 4096 && m < WIDEST && Alphabet(input, m)
    requires Spells(e.dict, m)
    ensures Writable(Compress(input, m, e), m, e) && Expand(Compress(input, m, e)) == input
    decreases |input|, !(e.cleared && |e.dict| < 4096)
  {
    hide WidthFor, FreshDict, Pow2, Learn, Longest;
    if input == [] {
    } else if !e.cleared || |e.dict| >= 4096 {
      FreshSpells(m);
      CompressWrites(input, m, Coder(FreshDict(m), [], true));
    } else {
      var d := Learn(e.dict, e.last, input[0]);
      var c := LongestFound(d, input, m);
      var s := d[c];
      LearnSpells(e.dict, e.last, input[0], m);
      CodeFitsWidth(m, |e.dict|, c);
      assert s[0] == input[0];
      assert input == s + input[|s|..];
      CompressWrites(input[|s|..], m, Coder(d, s, true));
    }
  }

  lemma FreshSpells(m: nat)
    ensures Spells(FreshDict(m), m)
  {
  }

  lemma LearnSpells(d: Dict, last: seq<byte>, head: byte, m: nat)
    requires Spells(d, m)
    ensures Spells(Learn(d, last, head), m)
  {
  }

  lemma LongestFound(d: Dict, input: seq<byte>, m: nat) returns (c: nat)
    requires Spells(d, m) && input != [] && input[0] < Pow2(m)
    ensures c == Longest(d, input, |d|) < |d| && d[c] != [] && d[c] <= input
  {
    assert d[input[0]] == [input[0]];
    c := Longest(d, input, |d|);
  }

  lemma CodeFitsWidth(m: nat, n: nat, c: nat)
    requires 2 <= m < WIDEST && c <= n < 4096
    ensures c < Pow2(WidthFor(m, n))
  {
    WidthIsLeast(m, n);
    Bounds(m, WidthFor(m, n));
  }
}
