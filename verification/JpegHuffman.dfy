/** The Huffman table of the JPEG decoder: stbi__huffman, stbi__build_huffman and the table that decodes
    short AC coefficients in one look-up, stbi__build_fast_ac. A table is given by how many codes there
    are of each length (ITU-T T.81 Annex C), so symbols are numbered in the order of their codes. */
module JpegHuffman {
  import opened Bits
  import opened Canonical

  const FAST_BITS: nat := 9
  const LONGEST: nat := 16

  /** HUFFSIZE: the lengths in ascending order. */
  function SizeList(count: seq<nat>, n: nat): (lens: Lengths)
    requires n <= |count|
  {
    if n == 0 then [] else SizeList(count, n - 1) + Replicate(n, count[n - 1])
  }

  ghost predicate Ascending(lens: Lengths) {
    && Bounded(lens, LONGEST)
    && (forall i :: 0 <= i < |lens| ==> lens[i] > 0)
    && forall i, j :: 0 <= i < j < |lens| ==> lens[i] <= lens[j]
  }

  lemma {:induction false} SizeListAscends(count: seq<nat>, n: nat)
    requires n <= |count| && n <= LONGEST
    ensures Ascending(SizeList(count, n))
    ensures forall i :: 0 <= i < |SizeList(count, n)| ==> SizeList(count, n)[i] <= n
  {
    if n > 0 {
      SizeListAscends(count, n - 1);
    }
  }

  /** The list has count[l - 1] codes of l bits. */
  lemma {:induction false} SizeListCounts(count: seq<nat>, n: nat, l: nat)
    requires n <= |count| && l > 0
    ensures multiset(SizeList(count, n))[l] == if l <= n then count[l - 1] else 0
  {
    if n > 0 {
      SizeListCounts(count, n - 1, l);
      ReplicateCounts(n, count[n - 1], l);
    }
  }

  lemma {:induction false} ReplicateCounts(x: nat, n: nat, y: nat)
    ensures multiset(Replicate(x, n))[y] == if x == y then n else 0
  {
    if n > 0 {
      ReplicateCounts(x, n - 1, y);
      assert Replicate(x, n) == Replicate(x, n - 1) + [x];
    }
  }

  // ---------------------------------------------------------------------------
  // In an ascending list a symbol is its own slot

  lemma {:induction false} CountShorter(lens: Lengths, n: nat, i: nat)
    requires Ascending(lens) && i <= n <= |lens| && i < |lens|
    ensures CountUpTo(lens, n, lens[i]) == CountUpTo(lens, i, lens[i])
    decreases n
  {
    if i < n { CountShorter(lens, n - 1, i); }
  }

  lemma {:induction false} CountAll(lens: Lengths, n: nat, l: nat)
    requires Ascending(lens) && n <= |lens| && forall i :: 0 <= i < n ==> lens[i] < l
    ensures CountUpTo(lens, n, l) == n
  {
    if n > 0 { CountAll(lens, n - 1, l); }
  }

  lemma SlotIsIndex(lens: Lengths, i: nat)
    requires Ascending(lens) && i < |lens|
    ensures Slot(lens, i) == i
  {
    FirstSlotIsCount(lens, lens[i]);
    CountShorter(lens, |lens|, i);
    CountUpToStep(lens, i, lens[i]);
    CountAll(lens, i, lens[i] + 1);
  }

  /** The symbols of one length are the slots from its first one up to the next length's. */
  lemma LevelIsRange(lens: Lengths, i: nat, l: nat)
    requires Ascending(lens) && i < |lens| && 0 < l <= LONGEST
    ensures lens[i] == l <==> FirstSlot(lens, l) <= i < FirstSlot(lens, l + 1)
    ensures lens[i] == l ==> Code(lens, i) == First(lens, l) + (i - FirstSlot(lens, l))
  {
    SlotIsIndex(lens, i);
    RankBelowTotal(lens, i);
    if lens[i] < l {
      FirstSlotMonotone(lens, lens[i], l);
    } else if lens[i] > l {
      FirstSlotMonotone(lens, l, lens[i]);
    }
  }

  lemma FirstSlotBound(lens: Lengths, l: nat)
    requires l > 0
    ensures FirstSlot(lens, l) <= |lens|
  {
    FirstSlotIsCount(lens, l);
    CountUpToBound(lens, |lens|, l);
  }

  /** After the longest length, every symbol has been numbered. */
  lemma LastSlot(lens: Lengths)
    requires Ascending(lens)
    ensures FirstSlot(lens, LONGEST + 1) == |lens|
  {
    FirstSlotIsCount(lens, LONGEST + 1);
    CountAll(lens, |lens|, LONGEST + 1);
  }

  // ---------------------------------------------------------------------------
  // What the arrays of a finished table say

  /** The code of symbol i is short, and the nine-bit lookahead c begins with it. */
  ghost predicate Begins(lens: Lengths, i: nat, c: nat) {
    i < |lens| && 0 < lens[i] <= FAST_BITS && Shr(c, FAST_BITS - lens[i]) == Code(lens, i)
  }

  /** 255 stands for no entry, so symbol 255 can have none. */
  ghost predicate FastEntry(lens: Lengths, n: nat, c: nat, e: nat) {
    if e == 255 then forall i: nat :: i < n && Begins(lens, i, c) ==> i == 255
    else e < n && Begins(lens, e, c)
  }

  ghost predicate FastOf(lens: Lengths, n: nat, fast: seq<byte>) {
    |fast| == 512 && forall c: nat :: c < 512 ==> FastEntry(lens, n, c, fast[c])
  }

  ghost predicate LevelOf(lens: Lengths, l: nat, maxcode: nat, delta: int)
    requires 0 < l <= LONGEST
  {
    maxcode == Shl(Last(lens, l), LONGEST - l) && delta == FirstSlot(lens, l) - First(lens, l)
  }

  ghost predicate LevelsOf(lens: Lengths, n: nat, maxcode: seq<nat>, delta: seq<int>)
    requires n <= 17 && |maxcode| == 18 && |delta| == 17
  {
    forall l: nat :: 0 < l < n ==> LevelOf(lens, l, maxcode[l], delta[l])
  }

  ghost predicate CodesOf(lens: Lengths, n: nat, code: seq<nat>)
    requires |code| == 256
  {
    && n <= |lens| <= 256 && (forall i :: 0 <= i < |lens| ==> lens[i] > 0)
    && forall i: nat :: i < n ==> code[i] == Code(lens, i)
  }

  ghost predicate SizesOf(lens: Lengths, size: seq<nat>)
    requires |size| == 257
  {
    |lens| <= 256 && size[..|lens|] == lens && size[|lens|] == 0
  }

  /** The whole stream as far as the lookahead shows it. */
  function Lookahead(c: nat): (s: Stream)
    ensures |s| == FAST_BITS
  {
    BigEndian(c, FAST_BITS)
  }

  /** A lookahead begins with a code exactly when the stream matches it. */
  lemma BeginIsMatch(lens: Lengths, i: nat, s: Stream, p: nat)
    requires i < |lens| && 0 < lens[i] <= FAST_BITS
    ensures Begins(lens, i, Msb(s, p, FAST_BITS)) <==> Matches(lens, i, lens[i], Msb(s, p, lens[i]))
  {
    MsbShift(s, p, lens[i], FAST_BITS);
  }

  lemma LookaheadIs(c: nat)
    requires c < 512
    ensures Msb(Lookahead(c), 0, FAST_BITS) == c
  {
    Pow2Values();
    LookaheadOf(c, FAST_BITS);
  }

  lemma LookaheadOf(c: nat, n: nat)
    requires c < Pow2(n)
    ensures Msb(BigEndian(c, n), 0, n) == c
  {
    assert At(BigEndian(c, n), 0, BigEndian(c, n));
    MsbOfBigEndian(BigEndian(c, n), 0, c, n);
  }

  /** What the table says about the stream: a short code's symbol and length, or that the bits are past
      all short codes; except for symbol 255, which the table cannot name. */
  lemma FastLookup(lens: Lengths, s: Stream, p: nat, fast: seq<byte>)
    requires Ascending(lens) && FastOf(lens, |lens|, fast)
    ensures Msb(s, p, FAST_BITS) < 512
    ensures var e: nat, h := fast[Msb(s, p, FAST_BITS)], Lookup(lens, s, p, 0, LONGEST);
      if e < 255 then e < |lens| && h == Hit(e, lens[e]) && 0 < lens[e] <= FAST_BITS
      else if h.Hit? && h.length <= FAST_BITS then h.symbol == 255
      else Msb(s, p, FAST_BITS) >= Last(lens, FAST_BITS)
  {
    hide Msb, Lookup, Last, First, Count, Find, Code, Begins;
    Pow2Values();
    var c := Msb(s, p, FAST_BITS);
    var e := fast[c];
    assert FastEntry(lens, |lens|, c, e);
    if e != 255 {
      BeginLength(lens, e, c);
      BeginIsMatch(lens, e, s, p);
      LookupFinds(lens, s, p, e, lens[e], LONGEST);
    } else {
      var h := Lookup(lens, s, p, 0, LONGEST);
      if h.Hit? && h.length <= FAST_BITS {
        HitBegins(lens, s, p, h);
      } else if c < Last(lens, FAST_BITS) {
        ShortCode(lens, s, p, FAST_BITS);
      }
    }
  }

  lemma BeginLength(lens: Lengths, i: nat, c: nat)
    requires Begins(lens, i, c)
    ensures i < |lens| && 0 < lens[i] <= FAST_BITS
  {
  }

  lemma HitBegins(lens: Lengths, s: Stream, p: nat, h: Hit)
    requires h == Lookup(lens, s, p, 0, LONGEST) && h.Hit? && h.length <= FAST_BITS
    ensures Begins(lens, h.symbol, Msb(s, p, FAST_BITS))
  {
    BeginIsMatch(lens, h.symbol, s, p);
  }

  /** Bits below the last code of some length begin with a code of at most that length. */
  lemma {:induction false} ShortCode(lens: Lengths, s: Stream, p: nat, l: nat)
    requires l <= LONGEST && Msb(s, p, l) < Last(lens, l)
    ensures var h := Lookup(lens, s, p, 0, LONGEST); h.Hit? && h.length <= l
  {
    if l > 0 {
      if Msb(s, p, l - 1) < Last(lens, l - 1) {
        ShortCode(lens, s, p, l - 1);
      } else {
        var i := SymbolInRange(lens, l, Msb(s, p, l));
        LookupFinds(lens, s, p, i, l, LONGEST);
      }
    }
  }

  /** No two codes claim the same entry. */
  lemma BeginsOnce(lens: Lengths, i: nat, k: nat, c: nat)
    requires c < 512 && Begins(lens, i, c) && Begins(lens, k, c)
    ensures i == k
  {
    var s := Lookahead(c);
    LookaheadIs(c);
    BeginIsMatch(lens, i, s, 0);
    BeginIsMatch(lens, k, s, 0);
    LookupFinds(lens, s, 0, i, lens[i], LONGEST);
    LookupFinds(lens, s, 0, k, lens[k], LONGEST);
  }

  /** The entries a short code claims are a run of the table. */
  lemma BeginsInRun(lens: Lengths, i: nat, c: nat)
    requires i < |lens| && 0 < lens[i] <= FAST_BITS && c < 512
    ensures var r := FAST_BITS - lens[i];
      Begins(lens, i, c) <==> Shl(Code(lens, i), r) <= c < Shl(Code(lens, i), r) + Pow2(r)
  {
    QuotientIs(c, Pow2(FAST_BITS - lens[i]), Code(lens, i));
  }

  lemma QuotientIs(c: nat, d: nat, k: nat)
    requires d > 0
    ensures c / d == k <==> k * d <= c < k * d + d
  {
    assert c == d * (c / d) + c % d;
    Commute(d, c / d);
    if k * d <= c < k * d + d { DivModUnique(k, d, c - k * d); }
  }

  lemma RunFits(lens: Lengths, i: nat)
    requires i < |lens| && 0 < lens[i] <= FAST_BITS && KraftHolds(lens, LONGEST)
    ensures Shl(Code(lens, i), FAST_BITS - lens[i]) + Pow2(FAST_BITS - lens[i]) <= 512
  {
    hide Pow2, Code, KraftHolds;
    var l, r := lens[i], FAST_BITS - lens[i];
    CodeFits(lens, i, LONGEST);
    Pow2Add(l, r);
    Pow2Values();
    Distribute(Code(lens, i), 1, Pow2(r));
    var gap := Pow2(l) - (Code(lens, i) + 1);
    Distribute(gap, Code(lens, i) + 1, Pow2(r));
    if gap > 0 { MulAtLeast(gap, Pow2(r)); }
  }

  // ---------------------------------------------------------------------------

  class Huffman {
    const fast: array<byte>
    const code: array<nat>
    const values: array<byte>
    const size: array<nat>
    const maxcode: array<nat>
    const delta: array<int>
    ghost var lens: Lengths

    constructor ()
      ensures Shape() && fresh(fast) && fresh(code) && fresh(values) && fresh(size) && fresh(maxcode) && fresh(delta)
    {
      fast := new byte[512];
      code := new nat[256];
      values := new byte[256];
      size := new nat[257];
      maxcode := new nat[18];
      delta := new int[17];
    }

    ghost predicate Shape() {
      && fast.Length == 512 && code.Length == 256 && values.Length == 256
      && size.Length == 257 && maxcode.Length == 18 && delta.Length == 17
      && fast != values && code != size && code != maxcode && size != maxcode
    }

    ghost predicate Built()
      reads this, fast, code, size, maxcode, delta
    {
      && Shape() && |lens| <= 256 && Ascending(lens) && KraftHolds(lens, LONGEST)
      && SizesOf(lens, size[..]) && CodesOf(lens, |lens|, code[..])
      && LevelsOf(lens, 17, maxcode[..], delta[..]) && maxcode[17] == 0xFFFF_FFFF
      && FastOf(lens, |lens|, fast[..])
    }

    /** stbi__build_huffman: accepts exactly the counts of at most 256 codes that meet Kraft's
        inequality, the values being filled in later. */
    method BuildHuffman(count: seq<nat>) returns (ok: bool)
      requires Shape() && |count| == 16
      modifies this, fast, code, size, maxcode, delta
      ensures var l := SizeList(count, 16); ok <==> |l| <= 256 && KraftHolds(l, LONGEST)
      ensures ok ==> Built() && lens == SizeList(count, 16)
    {
      hide Kraft, SizeList, FastOf;
      var k;
      ok, k := ListSizes(count);
      if !ok {
        return;
      }
      lens := SizeList(count, 16);
      SizeListAscends(count, 16);
      LevelsFitIffKraft(lens, LONGEST);
      ok := AssignCodes();
      if !ok {
        return;
      }
      maxcode[17] := 0xFFFF_FFFF;
      FillFast(k);
    }

    /** The size of every symbol, and a zero behind the last. */
    method ListSizes(count: seq<nat>) returns (ok: bool, k: nat)
      requires Shape() && |count| == 16
      modifies size
      ensures ok <==> |SizeList(count, 16)| <= 256
      ensures ok ==> k == |SizeList(count, 16)| && SizesOf(SizeList(count, 16), size[..])
    {
      k := 0;
      var i := 0;
      while i < 16
        invariant 0 <= i <= 16 && k == |SizeList(count, i)| <= 256 && size[..k] == SizeList(count, i)
      {
        SizeListGrows(count, i + 1, 16);
        var j := 0;
        while j < count[i]
          invariant 0 <= j <= count[i] && k == |SizeList(count, i)| + j <= 256
          invariant size[..k] == SizeList(count, i) + Replicate(i + 1, j)
        {
          size[k] := i + 1;
          k := k + 1;
          j := j + 1;
          if k >= 257 {
            return false, k;
          }
          assert size[..k] == size[..k - 1] + [i + 1];
          assert Replicate(i + 1, j) == Replicate(i + 1, j - 1) + [i + 1];
        }
        i := i + 1;
      }
      size[k] := 0;
      ok := true;
    }

    /** The codes of all lengths, smallest first. */
    method AssignCodes() returns (ok: bool)
      requires Shape() && Ascending(lens) && SizesOf(lens, size[..])
      modifies code, maxcode, delta
      ensures ok <==> forall l :: 0 < l <= LONGEST ==> LevelFits(lens, l)
      ensures ok ==> CodesOf(lens, |lens|, code[..]) && LevelsOf(lens, 17, maxcode[..], delta[..])
    {
      hide Count, Ascending, LevelOf, Code;
      var next, k, j := 0, 0, 1;
      AscendingPositive(lens);
      while j <= 16
        invariant 1 <= j <= 17 && k == FirstSlot(lens, j) <= |lens| && next == First(lens, j)
        invariant Shape() && CodesOf(lens, k, code[..]) && LevelsOf(lens, j, maxcode[..], delta[..])
        invariant forall l :: 0 < l < j ==> LevelFits(lens, l)
        invariant SizesOf(lens, size[..])
      {
        ok, k, next := AssignLevel(j, k, next);
        if !ok {
          return;
        }
        j := j + 1;
      }
      LastSlot(lens);
      ok := true;
    }

    /** The codes of length j. */
    method AssignLevel(j: nat, k0: nat, first: nat) returns (ok: bool, k: nat, next: nat)
      requires Shape() && Ascending(lens) && SizesOf(lens, size[..])
      requires 1 <= j <= 16 && k0 == FirstSlot(lens, j) <= |lens| && first == First(lens, j)
      requires CodesOf(lens, k0, code[..]) && LevelsOf(lens, j, maxcode[..], delta[..])
      modifies code, maxcode, delta
      ensures ok <==> LevelFits(lens, j)
      ensures ok ==> k == FirstSlot(lens, j + 1) <= |lens| && next == First(lens, j + 1)
      ensures ok ==> CodesOf(lens, k, code[..]) && LevelsOf(lens, j + 1, maxcode[..], delta[..])
    {
      hide Count, SizesOf, Ascending, Code, Pow2, First, Last, Shl;
      k, next := k0, first;
      delta[j] := k - next;
      LevelFacts(lens, j);
      SizeAt(lens, size[..], k);
      LevelIndex(lens, k, j);
      if size[k] == j {
        k, next := EnterCodes(j, k0, first);
        if next - 1 >= Pow2(j) {
          return false, k, next;
        }
      }
      maxcode[j] := Shl(next, 16 - j);
      next := 2 * next;
      ok := true;
    }

    /** The codes of one length. */
    method EnterCodes(j: nat, k0: nat, first: nat) returns (k: nat, next: nat)
      requires Shape() && Ascending(lens) && SizesOf(lens, size[..])
      requires 1 <= j <= 16 && k0 == FirstSlot(lens, j) <= |lens| && first == First(lens, j) && CodesOf(lens, k0, code[..])
      modifies code
      ensures k == FirstSlot(lens, j + 1) <= |lens| && next == first + (k - k0)
      ensures LevelFits(lens, j) ==> CodesOf(lens, k, code[..])
    {
      hide Count, SizesOf, Ascending, Code, Pow2, First, Last, FirstSlot;
      k, next := k0, first;
      LevelFacts(lens, j);
      SizeAt(lens, size[..], k);
      LevelIndex(lens, k, j);
      while size[k] == j
        invariant k0 <= k <= FirstSlot(lens, j + 1) && next == first + (k - k0) && Shape()
        invariant k < FirstSlot(lens, j + 1) <==> size[k] == j
        invariant LevelFits(lens, j) ==> CodesOf(lens, k, code[..])
        invariant SizesOf(lens, size[..])
        decreases FirstSlot(lens, j + 1) - k
      {
        SizeAt(lens, size[..], k);
        LevelIndex(lens, k, j);
        code[k] := next % 65536;
        CodeInWord(lens, j, k, next);
        next := next + 1;
        k := k + 1;
        SizeAt(lens, size[..], k);
        LevelIndex(lens, k, j);
      }
    }

    /** The acceleration table: every nine-bit lookahead that begins with a code points to its symbol. */
    method FillFast(k: nat)
      requires Shape() && |lens| == k <= 256 && Ascending(lens) && KraftHolds(lens, LONGEST)
      requires SizesOf(lens, size[..]) && CodesOf(lens, k, code[..])
      modifies fast
      ensures FastOf(lens, k, fast[..])
    {
      hide Count, Code, Pow2, Kraft, Ascending, Begins, Shl;
      forall c | 0 <= c < 512 { fast[c] := 255; }
      var i: nat := 0;
      while i < k
        invariant i <= k && Shape() && SizesOf(lens, size[..]) && CodesOf(lens, k, code[..])
        invariant FastOf(lens, i, fast[..])
      {
        SizeAt(lens, size[..], i);
        AscendingPositive(lens);
        var s := size[i];
        ghost var was := fast[..];
        if s <= FAST_BITS {
          RunFits(lens, i);
          var c, m := Shl(code[i], FAST_BITS - s), Pow2(FAST_BITS - s);
          FillRun(c, m, i);
        }
        Entered(lens, i, was, fast[..]);
        i := i + 1;
      }
    }

    method FillRun(c: nat, m: nat, i: byte)
      requires Shape() && c + m <= 512
      modifies fast
      ensures forall x: nat :: x < 512 ==> fast[x] == if c <= x < c + m then i else old(fast[x])
    {
      var j := 0;
      while j < m
        invariant 0 <= j <= m
        invariant forall x: nat :: x < 512 ==> fast[x] == if c <= x < c + j then i else old(fast[x])
      {
        fast[c + j] := i;
        j := j + 1;
      }
    }
  }

  // ---------------------------------------------------------------------------

  lemma AscendingPositive(lens: Lengths)
    requires Ascending(lens)
    ensures forall i :: 0 <= i < |lens| ==> 0 < lens[i] <= LONGEST
  {
  }

  lemma {:induction false} SizeListGrows(count: seq<nat>, m: nat, n: nat)
    requires m <= n <= |count|
    ensures |SizeList(count, m)| <= |SizeList(count, n)|
  {
    if m < n { SizeListGrows(count, m, n - 1); }
  }

  lemma SizeAt(lens: Lengths, size: seq<nat>, k: nat)
    requires |size| == 257 && SizesOf(lens, size) && k <= |lens|
    ensures size[k] == if k < |lens| then lens[k] else 0
  {
    if k < |lens| { assert size[..|lens|][k] == lens[k]; }
  }

  lemma LevelFacts(lens: Lengths, j: nat)
    requires 0 < j <= LONGEST
    ensures FirstSlot(lens, j + 1) == FirstSlot(lens, j) + Total(lens, j) <= |lens|
    ensures Last(lens, j) == First(lens, j) + Total(lens, j) && First(lens, j + 1) == 2 * Last(lens, j)
  {
    FirstSlotBound(lens, j + 1);
  }

  lemma LevelIndex(lens: Lengths, k: nat, j: nat)
    requires Ascending(lens) && 0 < j <= LONGEST && FirstSlot(lens, j) <= k <= |lens|
    ensures k < FirstSlot(lens, j + 1) <==> k < |lens| && lens[k] == j
  {
    LevelFacts(lens, j);
    if k < |lens| { LevelIsRange(lens, k, j); }
  }

  /** As long as the level fits, its codes are 16-bit words. */
  lemma CodeInWord(lens: Lengths, j: nat, k: nat, next: nat)
    requires Ascending(lens) && 0 < j <= LONGEST && k < |lens| && lens[k] == j
    requires next == First(lens, j) + (k - FirstSlot(lens, j))
    ensures next == Code(lens, k)
    ensures LevelFits(lens, j) ==> next % 65536 == next
  {
    hide Pow2, Count, FirstSlot, First;
    LevelIsRange(lens, k, j);
    LevelFacts(lens, j);
    if LevelFits(lens, j) {
      Pow2Monotone(j, 16);
      Pow2Values();
    }
  }

  /** Symbol i entered into the fast table, if its code is short. */
  lemma Entered(lens: Lengths, i: nat, was: seq<byte>, now: seq<byte>)
    requires i < |lens| && i < 256 && lens[i] > 0 && |was| == |now| == 512 && FastOf(lens, i, was)
    requires lens[i] > FAST_BITS ==> now == was
    requires lens[i] <= FAST_BITS ==>
      var r := FAST_BITS - lens[i];
      forall x: nat :: x < 512 ==> now[x] == if Shl(Code(lens, i), r) <= x < Shl(Code(lens, i), r) + Pow2(r) then i else was[x]
    ensures FastOf(lens, i + 1, now)
  {
    hide Code, Pow2, Shl, Begins;
    forall c: nat | c < 512
      ensures FastEntry(lens, i + 1, c, now[c])
    {
      assert FastEntry(lens, i, c, was[c]);
      if lens[i] <= FAST_BITS {
        BeginsInRun(lens, i, c);
        if Begins(lens, i, c) {
          forall k: nat | k < i ensures !Begins(lens, k, c) { NoOther(lens, k, i, c); }
        }
      } else {
        LongCode(lens, i, c);
      }
    }
  }

  lemma NoOther(lens: Lengths, k: nat, i: nat, c: nat)
    requires k != i && c < 512 && Begins(lens, i, c)
    ensures !Begins(lens, k, c)
  {
    if Begins(lens, k, c) { BeginsOnce(lens, k, i, c); }
  }

  lemma LongCode(lens: Lengths, i: nat, c: nat)
    requires i < |lens| && lens[i] > FAST_BITS
    ensures !Begins(lens, i, c)
  {
  }
}
