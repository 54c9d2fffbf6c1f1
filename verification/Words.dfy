/** Machine words. A word is the sequence of its bits, least significant first; masks, shifts and `|`
    work bit by bit. The lemmas say what they are on the numbers that the words stand for. */
module Words {
  import opened Bits

  function Value(w: Stream): nat {
    Lsb(w, 0, |w|)
  }

  function And(a: Stream, b: Stream): (c: Stream)
    requires |a| == |b|
    ensures |c| == |a|
  {
    seq(|a|, i requires 0 <= i < |a| => a[i] && b[i])
  }

  function Or(a: Stream, b: Stream): (c: Stream)
    requires |a| == |b|
    ensures |c| == |a|
  {
    seq(|a|, i requires 0 <= i < |a| => a[i] || b[i])
  }

  function ShiftLeft(a: Stream, n: nat): (c: Stream)
    ensures |c| == |a|
  {
    seq(|a|, i requires 0 <= i < |a| => i >= n && a[i - n])
  }

  function ShiftRight(a: Stream, n: nat): (c: Stream)
    ensures |c| == |a|
  {
    seq(|a|, i requires 0 <= i < |a| => i + n < |a| && a[i + n])
  }

  /** The mask of the low n bits. */
  function Ones(n: nat, w: nat): (c: Stream)
    ensures |c| == w
  {
    seq(w, i requires 0 <= i < w => i < n)
  }

  // ---------------------------------------------------------------------------
  // Words and numbers

  ghost predicate SameBit(s: Stream, p: nat, t: Stream, q: nat, i: nat) {
    Bit(s, p + i) == Bit(t, q + i)
  }

  /** The same n bits are the same number. */
  lemma {:induction false} LsbAgrees(s: Stream, p: nat, t: Stream, q: nat, n: nat)
    requires forall i: nat :: i < n ==> SameBit(s, p, t, q, i)
    ensures Lsb(s, p, n) == Lsb(t, q, n)
    decreases n
  {
    if n > 0 {
      assert SameBit(s, p, t, q, 0);
      var p', q' := p + 1, q + 1;
      forall i: nat | i < n - 1 ensures SameBit(s, p', t, q', i) {
        var k := i + 1;
        assert SameBit(s, p, t, q, k);
      }
      LsbAgrees(s, p', t, q', n - 1);
    }
  }

  /** The word of a number has the number's low bits for its value. */
  lemma {:induction false} ValueOfWord(v: nat, n: nat)
    ensures Value(LittleEndian(v, n)) == Low(v, n)
    decreases n
  {
    var w := LittleEndian(v, n);
    if n > 0 {
      var t := LittleEndian(v / 2, n - 1);
      ValueOfWord(v / 2, n - 1);
      forall i: nat | i < n - 1 ensures SameBit(w, 1, t, 0, i) { assert w[1 + i] == t[i]; }
      LsbAgrees(w, 1, t, 0, n - 1);
      HalfMod(v, n);
    }
  }

  lemma ValueOfSmall(v: nat, n: nat)
    requires v < Pow2(n)
    ensures Value(LittleEndian(v, n)) == v
  {
    ValueOfWord(v, n);
    LowOfSmall(v, n);
  }

  lemma WideValue(a: Stream, n: nat)
    ensures Lsb(a, 0, |a| + n) == Value(a)
  {
    LsbSplit(a, 0, |a|, n);
    LsbPastEnd(a, |a|, n);
    MulZero(Pow2(|a|));
  }

  lemma MulZero(d: nat)
    ensures 0 * d == 0
  {
  }

  /** w >> n */
  lemma ShiftRightIsShr(a: Stream, n: nat)
    ensures Value(ShiftRight(a, n)) == Shr(Value(a), n)
  {
    hide Lsb, Low, Shl, Shr, Pow2;
    WideValue(a, n);
    LsbTake(a, 0, n, |a| + n);
    LsbAgrees(ShiftRight(a, n), 0, a, n, |a|);
  }

  /** w & ((1 << n) - 1) */
  lemma MaskIsLow(a: Stream, n: nat)
    requires n <= |a|
    ensures Value(And(a, Ones(n, |a|))) == Low(Value(a), n)
  {
    hide Lsb, Low, Pow2;
    var c := And(a, Ones(n, |a|));
    LsbTake(a, 0, n, |a|);
    LsbSplit(c, 0, n, |a| - n);
    LsbAgrees(c, 0, a, 0, n);
    LsbAgrees(c, n, [], 0, |a| - n);
    LsbPastEnd([], 0, |a| - n);
    MulZero(Pow2(n));
  }

  /** w << n */
  lemma ShiftLeftIsShl(a: Stream, n: nat)
    ensures Value(ShiftLeft(a, n)) == Low(Shl(Value(a), n), |a|)
  {
    hide Lsb, Low, Shl, Shr, Pow2;
    var z := seq(n, _ => false) + a;
    LsbSplit(z, 0, n, |a|);
    LsbAgrees(z, 0, [], 0, n);
    LsbPastEnd([], 0, n);
    LsbAgrees(z, n, a, 0, |a|);
    LsbTake(z, 0, |a|, n + |a|);
    LsbAgrees(z, 0, ShiftLeft(a, n), 0, |a|);
  }

  /** Without a common bit, `|` adds. */
  lemma {:induction false} OrIsPlusFrom(a: Stream, b: Stream, p: nat, n: nat)
    requires |a| == |b| && p + n <= |a| && forall i :: 0 <= i < |a| ==> !(a[i] && b[i])
    ensures Lsb(Or(a, b), p, n) == Lsb(a, p, n) + Lsb(b, p, n)
    decreases n
  {
    if n > 0 { OrIsPlusFrom(a, b, p + 1, n - 1); }
  }

  lemma {:induction false} ZeroBits(a: Stream, p: nat, n: nat, i: nat)
    requires Lsb(a, p, n) == 0 && p <= i < p + n
    ensures Bit(a, i) == 0
    decreases n
  {
    if i > p { ZeroBits(a, p + 1, n - 1, i); }
  }

  /** A number below 2^n has no bits from n on. */
  lemma NoHighBits(a: Stream, n: nat, i: nat)
    requires Value(a) < Pow2(n) && n <= i < |a|
    ensures !a[i]
  {
    LsbTake(a, 0, n, |a|);
    Digits(Value(a), Pow2(n), 0, Value(a));
    ZeroBits(a, n, |a| - n, i);
  }

  lemma NoLowBits(a: Stream, c: nat, n: nat, i: nat)
    requires Value(a) == Shl(c, n) && i < n && i < |a|
    ensures !a[i]
  {
    hide Lsb;
    var m := if n < |a| then n else |a|;
    LsbTake(a, 0, m, |a|);
    Pow2Add(n - m, m);
    Assoc(c, Pow2(n - m), Pow2(m));
    MulPositive(c, Pow2(n - m));
    DivModUnique(c * Pow2(n - m), Pow2(m), 0);
    ZeroBits(a, 0, m, i);
  }

  // ---------------------------------------------------------------------------
  // The operators on unsigned numbers of w bits

  function OrOf(a: nat, b: nat, w: nat): nat {
    Value(Or(LittleEndian(a, w), LittleEndian(b, w)))
  }

  /** a & ((1 << n) - 1) */
  function MaskOf(a: nat, n: nat, w: nat): nat {
    Value(And(LittleEndian(a, w), Ones(n, w)))
  }

  function LeftOf(a: nat, n: nat, w: nat): nat {
    Value(ShiftLeft(LittleEndian(a, w), n))
  }

  function RightOf(a: nat, n: nat, w: nat): nat {
    Value(ShiftRight(LittleEndian(a, w), n))
  }

  lemma MaskNumber(a: nat, n: nat, w: nat)
    requires a < Pow2(w) && n <= w
    ensures MaskOf(a, n, w) == Low(a, n)
  {
    ValueOfSmall(a, w);
    MaskIsLow(LittleEndian(a, w), n);
  }

  lemma RightNumber(a: nat, n: nat, w: nat)
    requires a < Pow2(w)
    ensures RightOf(a, n, w) == Shr(a, n)
  {
    ValueOfSmall(a, w);
    ShiftRightIsShr(LittleEndian(a, w), n);
  }

  lemma LeftNumber(a: nat, n: nat, w: nat)
    requires a < Pow2(w)
    ensures LeftOf(a, n, w) == Low(Shl(a, n), w)
  {
    ValueOfSmall(a, w);
    ShiftLeftIsShl(LittleEndian(a, w), n);
  }

  /** a | b, where a has no bits from n on and b none below: an addition without carry. */
  lemma OrNumber(a: nat, c: nat, n: nat, w: nat)
    requires a < Pow2(n) && a < Pow2(w) && Shl(c, n) < Pow2(w)
    ensures OrOf(a, Shl(c, n), w) == a + Shl(c, n) == OrOf(Shl(c, n), a, w)
  {
    hide Lsb, Pow2, Shl, Low, LittleEndian;
    var b := Shl(c, n);
    var x, y := LittleEndian(a, w), LittleEndian(b, w);
    ValueOfSmall(a, w);
    ValueOfSmall(b, w);
    forall i: nat | i < w ensures !(x[i] && y[i]) {
      if i >= n { NoHighBits(x, n, i); } else { NoLowBits(y, c, n, i); }
    }
    OrIsPlusFrom(x, y, 0, w);
    OrIsPlusFrom(y, x, 0, w);
  }

  /** The same for a byte on its way into a word. */
  lemma OrByte(a: nat, b: nat, n: nat, w: nat)
    requires a < Pow2(n) && b < 256 && n + 8 <= w
    ensures OrOf(a, LeftOf(b, n, w), w) == a + Shl(b, n)
  {
    hide Pow2, Shl, LeftOf, OrOf;
    Pow2Monotone(n, w);
    ByteFits(b, n, w);
    OrNumber(a, b, n, w);
  }

  lemma ByteFits(b: nat, n: nat, w: nat)
    requires b < 256 && n + 8 <= w
    ensures LeftOf(b, n, w) == Shl(b, n) && Shl(b, n) + Pow2(n) <= Pow2(n + 8) <= Pow2(w)
  {
    hide LeftOf;
    Pow2Values();
    Pow2Add(8, n);
    Distribute(b, 1, Pow2(n));
    Distribute(255 - b, b + 1, Pow2(n));
    MulPositive(255 - b, Pow2(n));
    Pow2Monotone(n + 8, w);
    Pow2Monotone(8, w);
    LeftNumber(b, n, w);
    LowOfSmall(Shl(b, n), w);
  }

  /** Rotation by n to the left, as two shifts and an `|`; the shift amounts are taken modulo the width. */
  function RotateOf(a: nat, n: nat, w: nat): nat
    requires n < w
  {
    OrOf(LeftOf(a, n, w), RightOf(a, (w - n) % w, w), w)
  }

  /** The top n bits come in at the bottom, below the shifted rest. */
  lemma RotateNumber(a: nat, n: nat, w: nat)
    requires a < Pow2(w) && n < w
    ensures var k := RotateOf(a, n, w);
      MaskOf(k, n, w) == (if n == 0 then 0 else Shr(a, w - n)) && k - MaskOf(k, n, w) == LeftOf(a, n, w) < Pow2(w)
  {
    hide Lsb, LittleEndian, OrOf, LeftOf, RightOf, MaskOf, Low, Shr, Shl, Pow2;
    LeftNumber(a, n, w);
    if n == 0 {
      DivModUnique(1, w, 0);
      RightNumber(a, 0, w);
      NoShift(a, w);
      OrSame(a, w);
      MaskNumber(a, 0, w);
      NoBits(a);
    } else {
      DivModUnique(0, w, w - n);
      RightNumber(a, w - n, w);
      TopAndRest(a, n, w);
      var top, rest := Shr(a, w - n), Low(a, w - n);
      Pow2Monotone(n, w);
      OrNumber(top, rest, n, w);
      MaskNumber(top + Shl(rest, n), n, w);
      DivModUnique(rest, Pow2(n), top);
      LowIs(top + Shl(rest, n), n, rest, top);
    }
  }

  lemma LowIs(x: nat, n: nat, q: nat, r: nat)
    requires r < Pow2(n) && x == r + Shl(q, n)
    ensures Low(x, n) == r
  {
    DivModUnique(q, Pow2(n), r);
  }

  lemma NoBits(a: nat)
    ensures Low(a, 0) == 0
  {
  }

  lemma NoShift(a: nat, w: nat)
    requires a < Pow2(w)
    ensures Shr(a, 0) == a && Low(Shl(a, 0), w) == a
  {
    LowOfSmall(a, w);
  }

  lemma OrSame(a: nat, w: nat)
    requires a < Pow2(w)
    ensures OrOf(a, a, w) == a
  {
    var x := LittleEndian(a, w);
    assert Or(x, x) == x;
    ValueOfSmall(a, w);
  }

  lemma TopAndRest(a: nat, n: nat, w: nat)
    requires a < Pow2(w) && n <= w
    ensures Shr(a, w - n) < Pow2(n)
    ensures Low(Shl(a, n), w) == Shl(Low(a, w - n), n) && Shr(a, w - n) + Shl(Low(a, w - n), n) < Pow2(w)
  {
    hide Lsb, LittleEndian, Pow2, Low, Shl, Shr;
    var s := LittleEndian(a, w);
    ValueOfSmall(a, w);
    LsbTake(s, 0, w - n, w);
    ShiftLeftIsShl(s, n);
    RestAbove(s, n);
    RotatedBits(s, n);
  }

  lemma RestAbove(s: Stream, n: nat)
    requires n <= |s|
    ensures Value(ShiftLeft(s, n)) == Shl(Lsb(s, 0, |s| - n), n)
  {
    hide Lsb, Pow2;
    var c := ShiftLeft(s, n);
    LsbSplit(c, 0, n, |s| - n);
    LsbAgrees(c, 0, [], 0, n);
    LsbPastEnd([], 0, n);
    LsbAgrees(c, n, s, 0, |s| - n);
  }

  lemma RotatedBits(s: Stream, n: nat)
    requires n <= |s|
    ensures Lsb(s, |s| - n, n) + Shl(Lsb(s, 0, |s| - n), n) < Pow2(|s|)
  {
    hide Lsb, Pow2, Shl;
    var r := s[|s| - n..] + s[..|s| - n];
    LsbSplit(r, 0, n, |s| - n);
    LsbAgrees(r, 0, s, |s| - n, n);
    LsbAgrees(r, n, s, 0, |s| - n);
  }

  // ---------------------------------------------------------------------------
  // stbi__bitreverse16

  /** One of the swaps: the bits under hi go k down, those under lo k up. */
  function Swap(n: Stream, hi: Stream, lo: Stream, k: nat): (r: Stream)
    requires |n| == |hi| == |lo|
    ensures |r| == |n|
  {
    Or(ShiftRight(And(n, hi), k), ShiftLeft(And(n, lo), k))
  }

  /** Groups of k bits, every other one set: the odd ones, or the even ones. */
  function Stripes(k: nat, odd: bool): (m: Stream)
    requires k > 0
    ensures |m| == 16
  {
    seq(16, i requires 0 <= i < 16 => (i / k % 2 == 1) == odd)
  }

  /** The masks of the source. */
  function Mask(k: nat, odd: bool): nat
    requires k == 1 || k == 2 || k == 4 || k == 8
  {
    match k
    case 1 => if odd then 0xAAAA else 0x5555
    case 2 => if odd then 0xCCCC else 0x3333
    case 4 => if odd then 0xF0F0 else 0x0F0F
    case 8 => if odd then 0xFF00 else 0x00FF
  }

  /** They are these stripes. */
  lemma StripesAreMasks(k: nat, odd: bool)
    requires k == 1 || k == 2 || k == 4 || k == 8
    ensures Value(Stripes(k, odd)) == Mask(k, odd)
  {
    hide Value, Stripes;
    match k
    case 1 => StripesOfOne(odd);
    case 2 => StripesOfTwo(odd);
    case 4 => StripesOfFour(odd);
    case 8 => StripesOfEight(odd);
  }

  lemma StripesOfOne(odd: bool)
    ensures Value(Stripes(1, odd)) == Mask(1, odd)
  {
    hide Lsb, Pow2, Value;
    SixteenBits(Stripes(1, odd));
  }

  lemma StripesOfTwo(odd: bool)
    ensures Value(Stripes(2, odd)) == Mask(2, odd)
  {
    hide Lsb, Pow2, Value;
    SixteenBits(Stripes(2, odd));
  }

  lemma StripesOfFour(odd: bool)
    ensures Value(Stripes(4, odd)) == Mask(4, odd)
  {
    hide Lsb, Pow2, Value;
    SixteenBits(Stripes(4, odd));
  }

  lemma StripesOfEight(odd: bool)
    ensures Value(Stripes(8, odd)) == Mask(8, odd)
  {
    hide Lsb, Pow2, Value;
    SixteenBits(Stripes(8, odd));
  }

  lemma SixteenBits(s: Stream)
    requires |s| == 16
    ensures Value(s) ==
      Bit(s, 0) + 2 * Bit(s, 1) + 4 * Bit(s, 2) + 8 * Bit(s, 3) + 16 * Bit(s, 4) + 32 * Bit(s, 5) + 64 * Bit(s, 6)
      + 128 * Bit(s, 7) + 256 * Bit(s, 8) + 512 * Bit(s, 9) + 1024 * Bit(s, 10) + 2048 * Bit(s, 11) + 4096 * Bit(s, 12)
      + 8192 * Bit(s, 13) + 16384 * Bit(s, 14) + 32768 * Bit(s, 15)
  {
    hide Lsb, Bit, Pow2;
    LsbEight(s, 0);
    LsbEight(s, 8);
    TwoBytes(s, 0, 8);
    Pow2Values();
  }

  function Swaps(n: Stream): (r: Stream)
    requires |n| == 16
    ensures |r| == 16
  {
    var n1 := Swap(n, Stripes(1, true), Stripes(1, false), 1);
    var n2 := Swap(n1, Stripes(2, true), Stripes(2, false), 2);
    var n3 := Swap(n2, Stripes(4, true), Stripes(4, false), 4);
    Swap(n3, Stripes(8, true), Stripes(8, false), 8)
  }

  function BitReverse16(v: nat): nat {
    Value(Swaps(LittleEndian(v, 16)))
  }

  /** The group that bit i changes places with. */
  function Across(i: nat, k: nat): (j: nat)
    requires i < 16 && (k == 1 || k == 2 || k == 4 || k == 8)
    ensures j < 16 && j / k % 2 != i / k % 2
  {
    if i / k % 2 == 1 then i - k else i + k
  }

  /** A swap exchanges neighbouring groups. */
  lemma SwapAt(n: Stream, k: nat, i: nat)
    requires |n| == 16 && i < 16 && (k == 1 || k == 2 || k == 4 || k == 8)
    ensures Swap(n, Stripes(k, true), Stripes(k, false), k)[i] == n[Across(i, k)]
  {
    hide Swap;
    SwapBits(n, Stripes(k, true), Stripes(k, false), k, i);
    GroupStep(i, k);
  }

  lemma SwapBits(n: Stream, hi: Stream, lo: Stream, k: nat, i: nat)
    requires |n| == |hi| == |lo| && i < |n|
    ensures Swap(n, hi, lo, k)[i] ==
      ((i + k < |n| && n[i + k] && hi[i + k]) || (i >= k && n[i - k] && lo[i - k]))
  {
  }

  lemma GroupStep(i: nat, k: nat)
    requires i < 16 && (k == 1 || k == 2 || k == 4 || k == 8)
    ensures (i + k) / k == i / k + 1 && (i >= k ==> (i - k) / k == i / k - 1)
    ensures if i / k % 2 == 1 then i >= k else i + k < 16
  {
    if k == 1 {} else if k == 2 {} else if k == 4 {} else {}
  }

  /** Four swaps turn the word around. */
  lemma SwapsAt(n: Stream, i: nat)
    requires |n| == 16 && i < 16
    ensures Swaps(n)[i] == n[15 - i]
  {
    hide Swap, Stripes;
    var n1 := Swap(n, Stripes(1, true), Stripes(1, false), 1);
    var n2 := Swap(n1, Stripes(2, true), Stripes(2, false), 2);
    var n3 := Swap(n2, Stripes(4, true), Stripes(4, false), 4);
    SwapAt(n3, 8, i);
    SwapAt(n2, 4, Across(i, 8));
    SwapAt(n1, 2, Across(Across(i, 8), 4));
    SwapAt(n, 1, Across(Across(Across(i, 8), 4), 2));
    TurnedAround(i);
  }

  lemma TurnedAround(i: nat)
    requires i < 16
    ensures Across(Across(Across(Across(i, 8), 4), 2), 1) == 15 - i
  {
  }

  ghost predicate Mirror(s: Stream, p: nat, t: Stream, q: nat, n: nat, i: nat)
    requires i < n
  {
    Bit(s, p + i) == Bit(t, q + n - 1 - i)
  }

  /** Bits in the opposite order, read from the other end. */
  lemma {:induction false} Backwards(s: Stream, p: nat, t: Stream, q: nat, n: nat)
    requires forall i: nat :: i < n ==> Mirror(s, p, t, q, n, i)
    ensures Lsb(s, p, n) == Msb(t, q, n)
    decreases n
  {
    if n > 0 {
      assert Mirror(s, p, t, q, n, 0);
      var p', m := p + 1, n - 1;
      forall i: nat | i < m ensures Mirror(s, p', t, q, m, i) {
        var k := i + 1;
        assert Mirror(s, p, t, q, n, k);
      }
      Backwards(s, p', t, q, m);
    }
  }

  /** stbi__bitreverse16 reverses the low sixteen bits. */
  lemma SwapsReverse(v: nat)
    ensures BitReverse16(v) == Reverse(Low(v, 16), 16)
  {
    hide Swaps, Lsb, Msb, Low, Reverse, LittleEndian;
    var w := LittleEndian(v, 16);
    forall i: nat | i < 16 ensures Mirror(Swaps(w), 0, w, 0, 16, i) { SwapsAt(w, i); }
    Backwards(Swaps(w), 0, w, 0, 16);
    ValueOfWord(v, 16);
    ReverseLsb(w, 0, 16);
  }
}
