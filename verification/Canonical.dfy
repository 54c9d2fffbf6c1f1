/** Canonical prefix codes: the reference the table-driven decoders are proved against.

    A code is given by its list of code lengths, 0 meaning that the symbol is not used.
    Codes of one length are consecutive in symbol order, and the first code of each length
    follows from the shorter ones (RFC 1951 section 3.2.2; ITU-T T.81 Annex C). */
module Canonical {
  import opened Bits

  type Lengths = seq<nat>

  /** n times the same length. */
  function Replicate(x: nat, n: nat): (z: Lengths)
    ensures |z| == n && forall i :: 0 <= i < n ==> z[i] == x
  {
    seq(n, _ => x)
  }

  ghost predicate Bounded(lens: Lengths, m: nat) {
    forall i :: 0 <= i < |lens| ==> lens[i] <= m
  }

  /** How many of the first n symbols have length l. */
  ghost function Count(lens: Lengths, n: nat, l: nat): (c: nat)
    requires n <= |lens|
    ensures c <= n
  {
    if n == 0 then 0 else Count(lens, n - 1, l) + (if lens[n - 1] == l then 1 else 0)
  }

  ghost function Total(lens: Lengths, l: nat): nat {
    Count(lens, |lens|, l)
  }

  /** One past the largest code of length l (0 for length 0, where no symbol has a code). */
  ghost function Last(lens: Lengths, l: nat): nat
    decreases l, 1
  {
    if l == 0 then 0 else First(lens, l) + Total(lens, l)
  }

  /** The smallest code of length l. */
  ghost function First(lens: Lengths, l: nat): nat
    requires l > 0
    decreases l, 0
  {
    2 * Last(lens, l - 1)
  }

  /** How many symbols have a code shorter than l: the slot of the first symbol of length l when
      symbols are sorted by length. */
  ghost function FirstSlot(lens: Lengths, l: nat): nat
    requires l > 0
  {
    if l == 1 then 0 else FirstSlot(lens, l - 1) + Total(lens, l - 1)
  }

  ghost function Rank(lens: Lengths, i: nat): nat
    requires i < |lens|
  {
    Count(lens, i, lens[i])
  }

  ghost function Code(lens: Lengths, i: nat): nat
    requires i < |lens| && lens[i] > 0
  {
    First(lens, lens[i]) + Rank(lens, i)
  }

  ghost function Slot(lens: Lengths, i: nat): nat
    requires i < |lens| && lens[i] > 0
  {
    FirstSlot(lens, lens[i]) + Rank(lens, i)
  }

  ghost predicate Matches(lens: Lengths, i: nat, l: nat, acc: nat) {
    i < |lens| && l > 0 && lens[i] == l && Code(lens, i) == acc
  }

  /** The symbol among the first n whose code is the l-bit number acc, or -1. */
  ghost function Find(lens: Lengths, n: nat, l: nat, acc: nat): (i: int)
    requires n <= |lens|
    ensures -1 <= i < n
    ensures i >= 0 ==> Matches(lens, i, l, acc)
    ensures i < 0 ==> forall k: nat :: k < n ==> !Matches(lens, k, l, acc)
  {
    if n == 0 then -1
    else if Matches(lens, n - 1, l, acc) then n - 1
    else Find(lens, n - 1, l, acc)
  }

  datatype Hit = Hit(symbol: nat, length: nat) | Miss

  /** The bit-at-a-time decoder: l bits have been read without meeting a code; read one more
      and compare, until a code of at most m bits is met. */
  ghost function Lookup(lens: Lengths, s: Stream, p: nat, l: nat, m: nat): (h: Hit)
    requires l <= m
    ensures h.Hit? ==> l < h.length <= m && Matches(lens, h.symbol, h.length, Msb(s, p, h.length))
    decreases m - l
  {
    if l == m then Miss
    else
      var i := Find(lens, |lens|, l + 1, Msb(s, p, l + 1));
      if i >= 0 then Hit(i, l + 1) else Lookup(lens, s, p, l + 1, m)
  }

  // ---------------------------------------------------------------------------
  // Counting

  lemma {:induction false} CountMonotone(lens: Lengths, m: nat, n: nat, l: nat)
    requires m <= n <= |lens|
    ensures Count(lens, m, l) <= Count(lens, n, l)
  {
    if m < n { CountMonotone(lens, m, n - 1, l); }
  }

  lemma RankBelowTotal(lens: Lengths, i: nat)
    requires i < |lens|
    ensures Rank(lens, i) < Total(lens, lens[i])
  {
    CountMonotone(lens, i + 1, |lens|, lens[i]);
  }

  lemma RankDistinct(lens: Lengths, i: nat, j: nat)
    requires i < j < |lens| && lens[i] == lens[j]
    ensures Rank(lens, i) < Rank(lens, j)
  {
    CountMonotone(lens, i + 1, j, lens[i]);
  }

  /** Every rank below the number of symbols of a length is the rank of one of them. */
  lemma {:induction false} SymbolOfRank(lens: Lengths, n: nat, l: nat, r: nat) returns (i: nat)
    requires n <= |lens| && r < Count(lens, n, l)
    ensures i < n && lens[i] == l && Rank(lens, i) == r
  {
    if lens[n - 1] == l && Count(lens, n - 1, l) == r {
      i := n - 1;
    } else {
      i := SymbolOfRank(lens, n - 1, l, r);
    }
  }

  lemma {:induction false} FirstSlotMonotone(lens: Lengths, l: nat, k: nat)
    requires 0 < l < k
    ensures FirstSlot(lens, l) + Total(lens, l) <= FirstSlot(lens, k)
  {
    if l + 1 < k { FirstSlotMonotone(lens, l, k - 1); }
  }

  /** Sorting by length puts different symbols into different slots. */
  lemma SlotInjective(lens: Lengths, i: nat, j: nat)
    requires i < |lens| && j < |lens| && lens[i] > 0 && lens[j] > 0
    ensures Slot(lens, i) == Slot(lens, j) ==> i == j
  {
    RankBelowTotal(lens, i);
    RankBelowTotal(lens, j);
    if lens[i] < lens[j] {
      FirstSlotMonotone(lens, lens[i], lens[j]);
    } else if lens[j] < lens[i] {
      FirstSlotMonotone(lens, lens[j], lens[i]);
    } else if i < j {
      RankDistinct(lens, i, j);
    } else if j < i {
      RankDistinct(lens, j, i);
    }
  }

  ghost function CountUpTo(lens: Lengths, n: nat, l: nat): nat
    requires n <= |lens|
  {
    if n == 0 then 0 else CountUpTo(lens, n - 1, l) + (if 0 < lens[n - 1] < l then 1 else 0)
  }

  lemma {:induction false} CountUpToStep(lens: Lengths, n: nat, l: nat)
    requires n <= |lens| && l > 0
    ensures CountUpTo(lens, n, l + 1) == CountUpTo(lens, n, l) + Count(lens, n, l)
  {
    if n > 0 { CountUpToStep(lens, n - 1, l); }
  }

  lemma {:induction false} CountUpToBound(lens: Lengths, n: nat, l: nat)
    requires n <= |lens|
    ensures CountUpTo(lens, n, l) <= n
    ensures l <= 1 ==> CountUpTo(lens, n, l) == 0
  {
    if n > 0 { CountUpToBound(lens, n - 1, l); }
  }

  lemma {:induction false} FirstSlotIsCount(lens: Lengths, l: nat)
    requires l > 0
    ensures FirstSlot(lens, l) == CountUpTo(lens, |lens|, l)
  {
    if l == 1 {
      CountUpToBound(lens, |lens|, 1);
    } else {
      FirstSlotIsCount(lens, l - 1);
      CountUpToStep(lens, |lens|, l - 1);
    }
  }

  lemma SlotBound(lens: Lengths, i: nat)
    requires i < |lens| && lens[i] > 0
    ensures Slot(lens, i) < |lens|
  {
    RankBelowTotal(lens, i);
    FirstSlotIsCount(lens, lens[i] + 1);
    CountUpToBound(lens, |lens|, lens[i] + 1);
  }

  // ---------------------------------------------------------------------------
  // Which code lengths are possible: Kraft's inequality

  /** The Kraft sum of the symbols of length at most l, scaled by 2^l. */
  ghost function Kraft(lens: Lengths, n: nat, l: nat): nat
    requires n <= |lens|
  {
    if n == 0 then 0
    else Kraft(lens, n - 1, l) + (if 0 < lens[n - 1] <= l then Pow2(l - lens[n - 1]) else 0)
  }

  /** A code of at most m bits exists exactly when the sum of 2^-length is at most one. */
  ghost predicate KraftHolds(lens: Lengths, m: nat) {
    Kraft(lens, |lens|, m) <= Pow2(m)
  }

  lemma {:induction false} KraftStep(lens: Lengths, n: nat, l: nat)
    requires n <= |lens| && l > 0
    ensures Kraft(lens, n, l) == 2 * Kraft(lens, n, l - 1) + Count(lens, n, l)
  {
    if n > 0 { KraftStep(lens, n - 1, l); }
  }

  lemma {:induction false} KraftZero(lens: Lengths, n: nat)
    requires n <= |lens|
    ensures Kraft(lens, n, 0) == 0
  {
    if n > 0 { KraftZero(lens, n - 1); }
  }

  lemma {:induction false} LastIsKraft(lens: Lengths, l: nat)
    ensures Last(lens, l) == Kraft(lens, |lens|, l)
  {
    if l == 0 {
      KraftZero(lens, |lens|);
    } else {
      LastIsKraft(lens, l - 1);
      KraftStep(lens, |lens|, l);
    }
  }

  lemma {:induction false} LastGrows(lens: Lengths, l: nat, k: nat)
    requires l <= k
    ensures Last(lens, k) >= Pow2(k - l) * Last(lens, l)
    ensures (forall j :: l < j <= k ==> Total(lens, j) == 0) ==> Last(lens, k) == Pow2(k - l) * Last(lens, l)
  {
    if l < k {
      LastGrows(lens, l, k - 1);
      Assoc(2, Pow2(k - 1 - l), Last(lens, l));
    }
  }

  /** The check made length by length while the first codes are computed. */
  ghost predicate LevelFits(lens: Lengths, l: nat) {
    Total(lens, l) > 0 ==> Last(lens, l) <= Pow2(l)
  }

  lemma {:induction false} NoLevelsNoCodes(lens: Lengths, l: nat)
    requires forall j :: 0 < j <= l ==> LevelFits(lens, j)
    ensures Last(lens, l) <= Pow2(l)
  {
    if l > 0 {
      assert LevelFits(lens, l);
      NoLevelsNoCodes(lens, l - 1);
    }
  }

  /** Checking every used length is checking the Kraft sum. */
  lemma LevelsFitIffKraft(lens: Lengths, m: nat)
    ensures (forall l :: 0 < l <= m ==> LevelFits(lens, l)) <==> KraftHolds(lens, m)
  {
    LastIsKraft(lens, m);
    if forall l :: 0 < l <= m ==> LevelFits(lens, l) {
      NoLevelsNoCodes(lens, m);
    }
    if KraftHolds(lens, m) {
      forall l: nat | 0 < l <= m
        ensures LevelFits(lens, l)
      {
        KraftBoundsLevel(lens, l, m);
      }
    }
  }

  lemma KraftBoundsLevel(lens: Lengths, l: nat, m: nat)
    requires l <= m && KraftHolds(lens, m)
    ensures Last(lens, l) <= Pow2(l)
  {
    LastIsKraft(lens, m);
    LastGrows(lens, l, m);
    Pow2Add(m - l, l);
    if Last(lens, l) > Pow2(l) {
      var d, c := Last(lens, l), Pow2(l);
      Distribute(d - c, c, Pow2(m - l));
      MulAtLeast(d - c, Pow2(m - l));
      Commute(Pow2(m - l), d);
      Commute(Pow2(m - l), c);
    }
  }

  /** Each code fits in its own length. */
  lemma CodeFits(lens: Lengths, i: nat, m: nat)
    requires i < |lens| && 0 < lens[i] <= m && KraftHolds(lens, m)
    ensures Code(lens, i) < Pow2(lens[i])
  {
    RankBelowTotal(lens, i);
    KraftBoundsLevel(lens, lens[i], m);
  }

  // ---------------------------------------------------------------------------
  // Where codes lie in the bits read so far

  lemma {:induction false} SymbolInRange(lens: Lengths, l: nat, acc: nat) returns (i: nat)
    requires l > 0 && First(lens, l) <= acc < Last(lens, l)
    ensures Matches(lens, i, l, acc)
  {
    i := SymbolOfRank(lens, |lens|, l, acc - First(lens, l));
  }

  lemma MatchInRange(lens: Lengths, i: nat, l: nat, acc: nat)
    requires Matches(lens, i, l, acc)
    ensures First(lens, l) <= acc < Last(lens, l)
  {
    RankBelowTotal(lens, i);
  }

  lemma MatchUnique(lens: Lengths, i: nat, j: nat, l: nat, acc: nat)
    requires Matches(lens, i, l, acc) && Matches(lens, j, l, acc)
    ensures i == j
  {
    if i < j { RankDistinct(lens, i, j); } else if j < i { RankDistinct(lens, j, i); }
  }

  /** If the bits read are past all codes of length k, they were past all shorter ones too. */
  lemma {:induction false} PastShorter(lens: Lengths, s: Stream, p: nat, l: nat, k: nat)
    requires l <= k && Msb(s, p, k) >= Last(lens, k)
    ensures Msb(s, p, l) >= Last(lens, l)
  {
    if l < k {
      PastShorter(lens, s, p, l, k - 1);
    }
  }

  /** Bits past all codes of every length up to k meet no code there. */
  lemma {:induction false} LookupSkips(lens: Lengths, s: Stream, p: nat, l: nat, k: nat, m: nat)
    requires l <= k <= m && Msb(s, p, k) >= Last(lens, k)
    ensures Lookup(lens, s, p, l, m) == Lookup(lens, s, p, k, m)
    decreases k - l
  {
    if l < k {
      PastShorter(lens, s, p, l + 1, k);
      var i := Find(lens, |lens|, l + 1, Msb(s, p, l + 1));
      if i >= 0 { MatchInRange(lens, i, l + 1, Msb(s, p, l + 1)); }
      LookupSkips(lens, s, p, l + 1, k, m);
    }
  }

  /** A matching code is what the bit-at-a-time decoder finds, whatever the other codes are. */
  lemma LookupFinds(lens: Lengths, s: Stream, p: nat, i: nat, l: nat, m: nat)
    requires l <= m && Matches(lens, i, l, Msb(s, p, l))
    ensures Lookup(lens, s, p, 0, m) == Hit(i, l)
  {
    MatchInRange(lens, i, l, Msb(s, p, l));
    LookupSkips(lens, s, p, 0, l - 1, m);
    var j := Find(lens, |lens|, l, Msb(s, p, l));
    MatchUnique(lens, i, j, l, Msb(s, p, l));
  }

  lemma LookupMisses(lens: Lengths, s: Stream, p: nat, m: nat)
    requires Msb(s, p, m) >= Last(lens, m)
    ensures Lookup(lens, s, p, 0, m) == Miss
  {
    LookupSkips(lens, s, p, 0, m, m);
  }

  /** Symbol k comes before symbol i: its code is shorter, or as long and k is smaller. */
  ghost predicate Precedes(lens: Lengths, k: nat, i: nat)
    requires k < |lens| && i < |lens|
  {
    0 < lens[k] && (lens[k] < lens[i] || (lens[k] == lens[i] && k < i))
  }

  /** How much of the 2^m words of m bits begin with the code of a symbol before symbol i, among the first n. */
  ghost function SpaceBefore(lens: Lengths, i: nat, m: nat, n: nat): nat
    requires i < |lens| && n <= |lens| && lens[i] <= m
  {
    if n == 0 then 0
    else SpaceBefore(lens, i, m, n - 1) + if Precedes(lens, n - 1, i) then Pow2(m - lens[n - 1]) else 0
  }

  /** The canonical code (RFC 1951 section 3.2.2, ITU-T T.81 Annex C): the codes divide up the words of m
      bits in order of length, and of symbol among equals, without a gap. */
  lemma CodesFillSpace(lens: Lengths, i: nat, m: nat)
    requires i < |lens| && 0 < lens[i] <= m
    ensures Shl(Code(lens, i), m - lens[i]) == SpaceBefore(lens, i, m, |lens|)
  {
    hide Kraft, SpaceBefore, Last, Count, Shl;
    LastIsKraft(lens, lens[i] - 1);
    SpaceIs(lens, i, m, |lens|);
  }

  lemma {:induction false} SpaceIs(lens: Lengths, i: nat, m: nat, n: nat)
    requires i < |lens| && 0 < lens[i] <= m && n <= |lens|
    ensures SpaceBefore(lens, i, m, n)
         == Shl(2 * Kraft(lens, n, lens[i] - 1) + Count(lens, if n < i then n else i, lens[i]), m - lens[i])
  {
    hide Kraft, Count, SpaceBefore, Shl, Pow2;
    SpaceStep(lens, i, m, n);
    if n > 0 {
      var l := lens[i];
      var before := 2 * Kraft(lens, n - 1, l - 1) + Count(lens, if n - 1 < i then n - 1 else i, l);
      SpaceIs(lens, i, m, n - 1);
      if 0 < lens[n - 1] < l {
        DoublePow2(l - lens[n - 1]);
        AddShifted(before, Pow2(l - lens[n - 1]), l - lens[n - 1], m - l);
      } else if lens[n - 1] == l && n - 1 < i {
        Pow2Zero();
        AddShifted(before, 1, 0, m - l);
      }
    }
  }

  lemma SpaceStep(lens: Lengths, i: nat, m: nat, n: nat)
    requires i < |lens| && 0 < lens[i] <= m && n <= |lens|
    ensures var l, k := lens[i], n - 1;
      if n == 0 then SpaceBefore(lens, i, m, n) == Kraft(lens, n, l - 1) == Count(lens, n, l) == 0 == Shl(0, m - l)
      else
        && SpaceBefore(lens, i, m, n) == SpaceBefore(lens, i, m, k) + (if Precedes(lens, k, i) then Pow2(m - lens[k]) else 0)
        && Kraft(lens, n, l - 1) == Kraft(lens, k, l - 1) + (if 0 < lens[k] < l then Pow2(l - 1 - lens[k]) else 0)
        && Count(lens, n, l) == Count(lens, k, l) + if lens[k] == l then 1 else 0
  {
    hide Pow2;
  }

  lemma DoublePow2(n: nat)
    requires n > 0
    ensures Pow2(n) == 2 * Pow2(n - 1)
  {
  }

  lemma AddShifted(v: nat, w: nat, k: nat, n: nat)
    requires w == Pow2(k)
    ensures Shl(v + w, n) == Shl(v, n) + Pow2(k + n)
  {
    Pow2Add(k, n);
    Distribute(v, w, Pow2(n));
  }

  /** The bits of the code of symbol i, most significant first. */
  ghost function CodeBits(lens: Lengths, i: nat): Stream
    requires i < |lens| && lens[i] > 0
  {
    BigEndian(Code(lens, i), lens[i])
  }

  /** The code is prefix-free. */
  lemma PrefixFree(lens: Lengths, i: nat, j: nat, m: nat)
    requires i < |lens| && j < |lens| && 0 < lens[i] <= m && 0 < lens[j] <= m
    requires KraftHolds(lens, m)
    ensures CodeBits(lens, i) <= CodeBits(lens, j) ==> i == j
  {
    var a, b := CodeBits(lens, i), CodeBits(lens, j);
    if a <= b {
      CodeFits(lens, i, m);
      CodeFits(lens, j, m);
      AtSplit(b, 0, a, b[lens[i]..]);
      assert a + b[lens[i]..] == b;
      MsbOfBigEndian(b, 0, Code(lens, i), lens[i]);
      MsbOfBigEndian(b, 0, Code(lens, j), lens[j]);
      LookupFinds(lens, b, 0, i, lens[i], m);
      LookupFinds(lens, b, 0, j, lens[j], m);
    }
  }
}
