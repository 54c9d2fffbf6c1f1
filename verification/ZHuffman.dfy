/** The two-level Huffman table of the inflater: stbi__zhuffman and stbi__zbuild_huffman.

    Codes of at most nine bits are found in `fast`, indexed by the next nine bits of the stream
    as they lie in the bit buffer; longer ones by comparing the reversed bits with `maxcode`. */
module ZHuffman {
  import opened Bits
  import opened Words
  import opened Canonical

  const ZFAST_BITS: nat := 9
  const ZNSYMS: nat := 288
  const MAX_BITS: nat := 15

  /** stbi__bit_reverse: reverse 16 bits, then shift the unused ones away. */
  function BitReverse(v: nat, bits: nat): nat
    requires bits <= 16
  {
    Shr(BitReverse16(v), 16 - bits)
  }

  lemma BitReverseIsReverse(v: nat, bits: nat)
    requires bits <= 16 && v < Pow2(bits)
    ensures BitReverse(v, bits) == Reverse(v, bits)
  {
    hide Pow2, Low, Shr, Reverse, BitReverse16;
    SwapsReverse(v);
    ReverseInIsReverse(16, v, bits);
  }

  lemma ReverseInIsReverse(word: nat, v: nat, bits: nat)
    requires bits <= word && v < Pow2(bits)
    ensures Shr(Reverse(Low(v, word), word), word - bits) == Reverse(v, bits)
  {
    Pow2Monotone(bits, word);
    LowOfSmall(v, word);
    ReverseShift(v, bits, word);
  }

  // ---------------------------------------------------------------------------
  // What the arrays of a finished table say about its list of lengths

  /** Symbol i has a short code, and j is a nine-bit lookahead that begins with it. */
  ghost predicate Claims(lens: Lengths, i: nat, j: nat) {
    i < |lens| && 0 < lens[i] <= ZFAST_BITS && Low(j, lens[i]) == Reverse(Code(lens, i), lens[i])
  }

  /** Entry e at index j, when the first n symbols have been entered. */
  ghost predicate FastEntry(lens: Lengths, n: nat, j: nat, e: nat) {
    if e == 0 then forall i: nat :: i < n ==> !Claims(lens, i, j)
    else e % 512 < n && e % 512 < |lens| && e / 512 == lens[e % 512] && Claims(lens, e % 512, j)
  }

  ghost predicate FastOf(lens: Lengths, n: nat, fast: seq<nat>) {
    |fast| == 512 && forall j: nat :: j < 512 ==> FastEntry(lens, n, j, fast[j])
  }

  ghost predicate LevelOf(lens: Lengths, l: nat, firstcode: nat, maxcode: nat, firstsymbol: nat)
    requires 0 < l <= MAX_BITS
  {
    firstcode == First(lens, l) && maxcode == Shl(Last(lens, l), 16 - l) && firstsymbol == FirstSlot(lens, l)
  }

  ghost predicate LevelsOf(lens: Lengths, n: nat, firstcode: seq<nat>, maxcode: seq<nat>, firstsymbol: seq<nat>)
    requires n <= 16 && |firstcode| == 16 && |maxcode| == 17 && |firstsymbol| == 16
  {
    forall l: nat :: 0 < l < n ==> LevelOf(lens, l, firstcode[l], maxcode[l], firstsymbol[l])
  }

  ghost predicate SlotsOf(lens: Lengths, n: nat, size: seq<nat>, value: seq<nat>) {
    && |size| == ZNSYMS && |value| == ZNSYMS && n <= |lens| <= ZNSYMS
    && forall i: nat :: i < n && lens[i] > 0 ==> SlotHolds(lens, i, size, value)
  }

  ghost predicate SlotHolds(lens: Lengths, i: nat, size: seq<nat>, value: seq<nat>)
    requires |size| == ZNSYMS && |value| == ZNSYMS && i < |lens| && lens[i] > 0
  {
    Slot(lens, i) < ZNSYMS && size[Slot(lens, i)] == lens[i] && value[Slot(lens, i)] == i
  }

  /** Two codes never claim the same fast-table slot. */
  lemma ClaimsDisjoint(lens: Lengths, i: nat, k: nat, j: nat)
    requires KraftHolds(lens, MAX_BITS) && j < 512 && Claims(lens, i, j) && Claims(lens, k, j)
    ensures i == k
  {
    var s := LittleEndian(j, 9);
    Pow2Values();
    LowOfSmall(j, 9);
    ValueOfWord(j, 9);
    ClaimIsMatch(lens, i, j, s, 0);
    ClaimIsMatch(lens, k, j, s, 0);
    LookupFinds(lens, s, 0, i, lens[i], MAX_BITS);
    LookupFinds(lens, s, 0, k, lens[k], MAX_BITS);
  }

  /** A claimed index is a match of the stream that has it as its next nine bits. */
  lemma ClaimIsMatch(lens: Lengths, i: nat, j: nat, s: Stream, p: nat)
    requires i < |lens| && 0 < lens[i] <= ZFAST_BITS && KraftHolds(lens, MAX_BITS)
    requires j == Lsb(s, p, 9)
    ensures Claims(lens, i, j) <==> Matches(lens, i, lens[i], Msb(s, p, lens[i]))
  {
    var l := lens[i];
    CodeFits(lens, i, MAX_BITS);
    LsbTake(s, p, l, 9);
    ReverseLsb(s, p, l);
    ReverseMsb(s, p, l);
    ReverseTwice(Code(lens, i), l);
  }

  lemma {:induction false} ReverseTwice(v: nat, n: nat)
    requires v < Pow2(n)
    ensures Reverse(Reverse(v, n), n) == v
  {
    var s := LittleEndian(v, n);
    LowOfSmall(v, n);
    ValueOfWord(v, n);
    ReverseLsb(s, 0, n);
    ReverseMsb(s, 0, n);
  }

  // ---------------------------------------------------------------------------
  // The table

  class Table {
    const fast: array<nat>
    const firstcode: array<nat>
    const maxcode: array<nat>
    const firstsymbol: array<nat>
    const size: array<nat>
    const value: array<nat>
    ghost var lens: Lengths

    constructor ()
      ensures Shape() && fresh(this) && fresh(Arrays())
    {
      fast := new nat[512];
      firstcode := new nat[16];
      maxcode := new nat[17];
      firstsymbol := new nat[16];
      size := new nat[ZNSYMS];
      value := new nat[ZNSYMS];
    }

    ghost function Arrays(): set<array<nat>> {
      {fast, firstcode, maxcode, firstsymbol, size, value}
    }

    ghost predicate Shape() {
      && fast.Length == 512 && firstcode.Length == 16 && maxcode.Length == 17
      && firstsymbol.Length == 16 && size.Length == ZNSYMS && value.Length == ZNSYMS
      && fast != firstcode && fast != maxcode && fast != firstsymbol && fast != size && fast != value
      && firstcode != maxcode && firstcode != firstsymbol && firstcode != size && firstcode != value
      && maxcode != firstsymbol && maxcode != size && maxcode != value
      && firstsymbol != size && firstsymbol != value && size != value
    }

    /** The arrays are the table of the lengths in `lens`. */
    ghost predicate Built()
      reads this, Arrays()
    {
      && Shape()
      && |lens| <= ZNSYMS && Bounded(lens, MAX_BITS) && KraftHolds(lens, MAX_BITS)
      && FastOf(lens, |lens|, fast[..])
      && LevelsOf(lens, 16, firstcode[..], maxcode[..], firstsymbol[..])
      && maxcode[16] == 0x10000
      && SlotsOf(lens, |lens|, size[..], value[..])
    }

    /** stbi__zbuild_huffman. Accepts exactly the lists of lengths that meet Kraft's inequality. */
    method Build(sizelist: seq<nat>) returns (ok: bool)
      requires Shape() && |sizelist| <= ZNSYMS && Bounded(sizelist, MAX_BITS)
      modifies this, Arrays()
      ensures ok <==> KraftHolds(sizelist, MAX_BITS)
      ensures ok ==> Built() && lens == sizelist
    {
      lens := sizelist;
      forall j | 0 <= j < 512 { fast[j] := 0; }
      var sizes := CountSizes(sizelist);
      var nextCode, fits := FirstCodes(sizes);
      LevelsFitIffKraft(lens, MAX_BITS);
      if !fits {
        return false;
      }
      maxcode[16] := 0x10000;
      EnterSymbols(sizelist, nextCode);
      ok := true;
    }

    /** The loop that fills the table, symbol by symbol. */
    method EnterSymbols(sizelist: seq<nat>, nextCode: array<nat>)
      requires Shape() && lens == sizelist && |lens| <= ZNSYMS && Bounded(lens, MAX_BITS) && KraftHolds(lens, MAX_BITS)
      requires nextCode.Length == 16 && nextCode !in Arrays()
      requires forall l: nat :: 0 < l < 16 ==> nextCode[l] == First(lens, l)
      requires LevelsOf(lens, 16, firstcode[..], maxcode[..], firstsymbol[..])
      requires FastOf(lens, 0, fast[..])
      modifies fast, size, value, nextCode
      ensures FastOf(lens, |lens|, fast[..]) && SlotsOf(lens, |lens|, size[..], value[..])
    {
      hide First, FirstSlot, Last, Kraft, KraftHolds;
      var i := 0;
      while i < |sizelist|
        invariant i <= |lens|
        invariant forall l: nat :: 0 < l < 16 ==> nextCode[l] == First(lens, l) + Count(lens, i, l)
        invariant SlotsOf(lens, i, size[..], value[..])
        invariant FastOf(lens, i, fast[..])
      {
        var s := sizelist[i];
        if s != 0 {
          assert LevelOf(lens, s, firstcode[..][s], maxcode[..][s], firstsymbol[..][s]);
          EnterSymbol(i, s, nextCode[s]);
          nextCode[s] := nextCode[s] + 1;
        } else {
          UnusedSymbol(lens, i, fast[..], size[..], value[..]);
        }
        i := i + 1;
      }
    }

    /** One turn of the loop that fills the table: the slot of symbol i, and for a short code all
        the fast entries that begin with it. */
    method EnterSymbol(i: nat, s: nat, code: nat)
      requires Shape() && i < |lens| <= ZNSYMS && lens[i] == s && 0 < s <= MAX_BITS && KraftHolds(lens, MAX_BITS)
      requires code == Code(lens, i)
      requires LevelOf(lens, s, firstcode[s], maxcode[s], firstsymbol[s])
      requires SlotsOf(lens, i, size[..], value[..]) && FastOf(lens, i, fast[..])
      modifies fast, size, value
      ensures SlotsOf(lens, i + 1, size[..], value[..]) && FastOf(lens, i + 1, fast[..])
    {
      hide Pow2, Low, Count, First, FirstSlot, Kraft, Last, Reverse, BitReverse;
      SlotBound(lens, i);
      var c := code - firstcode[s] + firstsymbol[s];
      var fastv := (s * 512 + i) % 65536;
      ghost var sizes, values := size[..], value[..];
      size[c] := s;
      value[c] := i;
      SlotEntered(lens, i, sizes, values);
      assert size[..] == sizes[c := s] && value[..] == values[c := i];
      ghost var before := fast[..];
      if s <= ZFAST_BITS {
        CodeFits(lens, i, MAX_BITS);
        BitReverseIsReverse(code, s);
        FillFast(s, BitReverse(code, s), fastv);
      }
      FastEntered(lens, i, before, fast[..], fastv);
    }

    /** The inner loop: every index whose low s bits are the reversed code. */
    method FillFast(s: nat, start: nat, fastv: nat)
      requires Shape() && 0 < s <= ZFAST_BITS && start < Pow2(s)
      modifies fast
      ensures forall x :: 0 <= x < 512 ==> fast[x] == if Low(x, s) == start then fastv else old(fast[x])
    {
      hide Pow2, Low;
      forall x: nat | x <= start
        ensures Low(x, s) == x
      {
        LowOfSmall(x, s);
      }
      var j := start;
      while j < 512
        invariant Low(j, s) == start
        invariant forall x :: 0 <= x < 512 ==>
          fast[x] == if x < j && Low(x, s) == start then fastv else old(fast[x])
        decreases 512 - j
      {
        forall x | j < x < j + Pow2(s)
          ensures Low(x, s) != start
        {
          NoneBetween(j, x, s);
        }
        NextMultiple(j, s);
        fast[j] := fastv;
        j := j + Pow2(s);
      }
    }

    method CountSizes(sizelist: seq<nat>) returns (sizes: array<nat>)
      requires Bounded(sizelist, MAX_BITS)
      ensures fresh(sizes) && sizes.Length == 17 && sizes[0] == 0
      ensures forall l: nat :: 0 < l < 17 ==> sizes[l] == Total(sizelist, l)
    {
      sizes := new nat[17](_ => 0);
      var i := 0;
      while i < |sizelist|
        invariant i <= |sizelist|
        invariant forall l: nat :: l < 17 ==> sizes[l] == Count(sizelist, i, l)
      {
        sizes[sizelist[i]] := sizes[sizelist[i]] + 1;
        i := i + 1;
      }
      sizes[0] := 0;
    }

    /** The loop over lengths: first code, first slot and shifted limit of each, and the check. */
    method FirstCodes(sizes: array<nat>) returns (nextCode: array<nat>, fits: bool)
      requires Shape() && sizes.Length == 17 && sizes !in Arrays()
      requires forall l: nat :: 0 < l < 17 ==> sizes[l] == Total(lens, l)
      requires |lens| <= ZNSYMS
      modifies firstcode, maxcode, firstsymbol
      ensures fresh(nextCode) && nextCode.Length == 16
      ensures fits <==> forall l :: 0 < l <= MAX_BITS ==> LevelFits(lens, l)
      ensures fits ==> LevelsOf(lens, 16, firstcode[..], maxcode[..], firstsymbol[..])
      ensures fits ==> forall l: nat :: 0 < l < 16 ==> nextCode[l] == First(lens, l)
    {
      hide First, FirstSlot, Last, Kraft, Count;
      LevelsStart(lens);
      nextCode := new nat[16];
      fits := SizesFit(sizes);
      if !fits {
        return;
      }
      var code, k := 0, 0;
      for i := 1 to 16
        invariant code == First(lens, i) && k == FirstSlot(lens, i)
        invariant forall l :: 0 < l < i ==> LevelFits(lens, l)
        invariant LevelsOf(lens, i, firstcode[..], maxcode[..], firstsymbol[..])
        invariant forall l: nat :: 0 < l < i ==> nextCode[l] == First(lens, l)
      {
        nextCode[i] := code;
        code, fits := EnterLevel(i, sizes[i], code, k);
        if !fits {
          return;
        }
        k := k + sizes[i];
      }
    }

    /** One turn of that loop. */
    method EnterLevel(i: nat, count: nat, first: nat, k: nat) returns (code: nat, fits: bool)
      requires Shape() && 0 < i < 16 && |lens| <= ZNSYMS
      requires count == Total(lens, i) && first == First(lens, i) && k == FirstSlot(lens, i)
      requires forall l :: 0 < l < i ==> LevelFits(lens, l)
      requires LevelsOf(lens, i, firstcode[..], maxcode[..], firstsymbol[..])
      modifies firstcode, maxcode, firstsymbol
      ensures fits <==> LevelFits(lens, i)
      ensures fits ==> code == First(lens, i + 1) && LevelsOf(lens, i + 1, firstcode[..], maxcode[..], firstsymbol[..])
    {
      NarrowLevel(lens, i);
      ghost var f, m, s := firstcode[..], maxcode[..], firstsymbol[..];
      firstcode[i] := first % 65536;
      firstsymbol[i] := k % 65536;
      code := first + count;
      if count != 0 && code - 1 >= Pow2(i) {
        return code, false;
      }
      maxcode[i] := Shl(code, 16 - i);
      LevelEntered(lens, i, f, m, s, firstcode[..], maxcode[..], firstsymbol[..]);
      code := code * 2;
      fits := true;
    }

    method SizesFit(sizes: array<nat>) returns (fits: bool)
      requires sizes.Length == 17
      requires forall l: nat :: 0 < l < 17 ==> sizes[l] == Total(lens, l)
      ensures !fits ==> exists l :: 0 < l <= MAX_BITS && !LevelFits(lens, l)
    {
      for i := 1 to 16
      {
        if sizes[i] > Pow2(i) {
          assert !LevelFits(lens, i);
          return false;
        }
      }
      fits := true;
    }
  }

  lemma LevelEntered(lens: Lengths, i: nat, f: seq<nat>, m: seq<nat>, s: seq<nat>, f': seq<nat>, m': seq<nat>, s': seq<nat>)
    requires 0 < i < 16 && |f| == |f'| == |s| == |s'| == 16 && |m| == |m'| == 17
    requires LevelsOf(lens, i, f, m, s)
    requires forall l :: 0 <= l < i ==> f'[l] == f[l] && m'[l] == m[l] && s'[l] == s[l]
    requires LevelOf(lens, i, f'[i], m'[i], s'[i])
    ensures LevelsOf(lens, i + 1, f', m', s')
  {
    forall l: nat | 0 < l < i + 1
      ensures LevelOf(lens, l, f'[l], m'[l], s'[l])
    {
      if l < i { assert LevelOf(lens, l, f[l], m[l], s[l]); }
    }
  }

  lemma LevelsStart(lens: Lengths)
    ensures First(lens, 1) == 0 && FirstSlot(lens, 1) == 0
    ensures forall l: nat :: l > 0 ==> FirstSlot(lens, l + 1) == FirstSlot(lens, l) + Total(lens, l)
  {
  }

  lemma NarrowLevel(lens: Lengths, i: nat)
    requires 0 < i < 16 && |lens| <= ZNSYMS
    requires forall l :: 0 < l < i ==> LevelFits(lens, l)
    ensures First(lens, i) < 65536 && FirstSlot(lens, i) < 65536
  {
    NoLevelsNoCodes(lens, i - 1);
    Pow2Monotone(i, 15);
    Pow2Values();
    FirstSlotIsCount(lens, i);
    CountUpToBound(lens, |lens|, i);
  }

  lemma NoneBetween(j: nat, x: nat, s: nat)
    requires j < x < j + Pow2(s)
    ensures Low(x, s) != Low(j, s)
  {
    var d := Pow2(s);
    var q, r := j / d, j % d;
    assert j == d * q + r;
    if x % d == r {
      var k := x / d;
      assert x == d * k + r;
      Commute(d, q);
      Commute(d, k);
      Distribute(k, -q, d);
      if k > q { MulAtLeast(k - q, d); } else { Distribute(q, -k, d); MulPositive(q - k, d); }
    }
  }

  lemma NextMultiple(j: nat, s: nat)
    ensures Low(j + Pow2(s), s) == Low(j, s)
  {
    var d := Pow2(s);
    var q, r := j / d, j % d;
    assert j == d * q + r;
    Commute(d, q);
    Distribute(q, 1, d);
    DivModUnique(q + 1, d, r);
  }

  lemma SlotEntered(lens: Lengths, i: nat, size: seq<nat>, value: seq<nat>)
    requires i < |lens| <= ZNSYMS && lens[i] > 0 && SlotsOf(lens, i, size, value)
    ensures Slot(lens, i) < ZNSYMS
    ensures SlotsOf(lens, i + 1, size[Slot(lens, i) := lens[i]], value[Slot(lens, i) := i])
  {
    SlotBound(lens, i);
    var size', value' := size[Slot(lens, i) := lens[i]], value[Slot(lens, i) := i];
    forall k: nat | k < i + 1 && lens[k] > 0
      ensures SlotHolds(lens, k, size', value')
    {
      SlotInjective(lens, k, i);
      if k < i { assert SlotHolds(lens, k, size, value); }
    }
  }

  lemma FastEntered(lens: Lengths, i: nat, before: seq<nat>, after: seq<nat>, fastv: nat)
    requires i < |lens| <= ZNSYMS && 0 < lens[i] <= MAX_BITS && FastOf(lens, i, before) && |after| == 512
    requires fastv == lens[i] * 512 + i
    requires forall x: nat :: x < 512 ==> after[x] == if Claims(lens, i, x) then fastv else before[x]
    ensures FastOf(lens, i + 1, after)
  {
    forall x: nat | x < 512
      ensures FastEntry(lens, i + 1, x, after[x])
    {
      assert FastEntry(lens, i, x, before[x]);
      DivModUnique(lens[i], 512, i);
    }
  }

  lemma UnusedSymbol(lens: Lengths, i: nat, fast: seq<nat>, size: seq<nat>, value: seq<nat>)
    requires i < |lens| && lens[i] == 0
    requires SlotsOf(lens, i, size, value) && FastOf(lens, i, fast)
    ensures SlotsOf(lens, i + 1, size, value) && FastOf(lens, i + 1, fast)
  {
    forall j: nat | j < 512
      ensures FastEntry(lens, i + 1, j, fast[j])
    {
      assert FastEntry(lens, i, j, fast[j]);
    }
  }
}
