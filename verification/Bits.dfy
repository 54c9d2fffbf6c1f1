/** Bytes, bits and the two ways a run of bits is read as a number.

    A stream is a sequence of bits in the order in which DEFLATE takes them out of
    its bytes (least significant bit of each byte first, RFC 1951 section 3.1.1).
    Past its end a stream reads as zeros, as the byte reader of the decoder does. */
module Bits {

  type byte = b: int | 0 <= b < 256

  type Stream = seq<bool>

  function Pow2(n: nat): (r: nat)
    ensures r >= 1
  {
    if n == 0 then 1 else 2 * Pow2(n - 1)
  }

  function Bit(s: Stream, p: nat): (b: nat)
    ensures b <= 1
  {
    if p < |s| && s[p] then 1 else 0
  }

  /** The n bits from position p, the first one least significant. */
  function Lsb(s: Stream, p: nat, n: nat): (v: nat)
    ensures v < Pow2(n)
    decreases n
  {
    if n == 0 then 0 else Bit(s, p) + 2 * Lsb(s, p + 1, n - 1)
  }

  /** The n bits from position p, the first one most significant. */
  function Msb(s: Stream, p: nat, n: nat): (v: nat)
    ensures v < Pow2(n)
  {
    if n == 0 then 0 else 2 * Msb(s, p, n - 1) + Bit(s, p + n - 1)
  }

  /** The low n bits of v in the opposite order. */
  function Reverse(v: nat, n: nat): (r: nat)
    ensures r < Pow2(n)
  {
    if n == 0 then 0 else v % 2 * Pow2(n - 1) + Reverse(v / 2, n - 1)
  }

  lemma {:induction false} Pow2Add(m: nat, n: nat)
    ensures Pow2(m + n) == Pow2(m) * Pow2(n)
  {
    if m == 0 {
      assert Pow2(0 + n) == 1 * Pow2(n);
    } else {
      Pow2Add(m - 1, n);
      calc {
        Pow2(m + n);
        2 * (Pow2(m - 1) * Pow2(n));
        (2 * Pow2(m - 1)) * Pow2(n);
      }
    }
  }

  lemma {:induction false} Pow2Monotone(m: nat, n: nat)
    requires m <= n
    ensures Pow2(m) <= Pow2(n)
  {
    if m < n { Pow2Monotone(m, n - 1); }
  }

  lemma Pow2Values()
    ensures Pow2(1) == 2 && Pow2(2) == 4 && Pow2(3) == 8 && Pow2(4) == 16 && Pow2(5) == 32
    ensures Pow2(6) == 64 && Pow2(7) == 128 && Pow2(8) == 256 && Pow2(9) == 512
    ensures Pow2(15) == 32768 && Pow2(16) == 65536 && Pow2(32) == 0x1_0000_0000
  {
    Pow2Add(8, 8);
    Pow2Add(16, 16);
  }

  /** Where item i of a table of n-byte items starts. */
  function Ix(i: nat, n: nat): (r: nat) {
    MulPositive(i, n);
    i * n
  }

  lemma IxStep(i: nat, n: nat)
    ensures Ix(i + 1, n) == Ix(i, n) + n
    ensures Ix(0, n) == 0 && Ix(1, n) == n
  {
    Distribute(i, 1, n);
  }

  lemma {:induction false} IxMonotone(i: nat, j: nat, n: nat)
    requires i <= j
    ensures Ix(i, n) <= Ix(j, n)
    ensures i < j ==> Ix(i, n) + n <= Ix(j, n)
  {
    if i < j {
      IxStep(j - 1, n);
      IxMonotone(i, j - 1, n);
    }
  }

  lemma Commute(a: int, b: int)
    ensures a * b == b * a
  {
  }

  lemma Assoc(a: int, b: int, c: int)
    ensures a * (b * c) == (a * b) * c
  {
  }

  lemma Distribute(a: int, b: int, c: int)
    ensures (a + b) * c == a * c + b * c
  {
  }

  lemma MulAtLeast(k: int, d: nat)
    requires k >= 1
    ensures k * d >= d
  {
    Distribute(k - 1, 1, d);
  }

  /** The one fact about division every use below reduces to. */
  lemma DivModUnique(q: nat, d: nat, r: nat)
    requires r < d
    ensures (q * d + r) / d == q
    ensures (q * d + r) % d == r
  {
    var x := q * d + r;
    var k := x / d;
    assert x == d * k + x % d;
    Distribute(q, -k, d);
    assert (q - k) * d == x % d - r;
    if q > k {
      MulAtLeast(q - k, d);
    } else if q < k {
      MulAtLeast(k - q, d);
      Distribute(k - q, q - k, d);
    }
  }

  lemma Digits(x: nat, d: nat, q: nat, r: nat)
    requires r < d && x == r + d * q
    ensures x / d == q && x % d == r
  {
    Commute(d, q);
    DivModUnique(q, d, r);
  }

  lemma ModPlus(a: nat, i: nat, n: nat)
    requires n > 0
    ensures (a + i) % n == (a % n + i) % n
  {
    var q, r := a / n, a % n;
    assert a == n * q + r;
    Commute(n, q);
    ModSkip(q, r + i, n);
  }

  lemma ModSkip(q: nat, x: nat, n: nat)
    requires n > 0
    ensures (q * n + x) % n == x % n
  {
    var k, s := x / n, x % n;
    assert x == n * k + s;
    Commute(n, k);
    Distribute(q, k, n);
    DivModUnique(q + k, n, s);
  }

  /** Even numbers halved, and halved again. */
  lemma Halves(n: nat)
    ensures n % 2 == 0 <==> n % 4 == 0 || n % 4 == 2
    ensures n % 4 == 0 <==> n % 8 == 0 || n % 8 == 4
  {
    var q, r := n / 8, n % 8;
    DivModUnique(2 * q + r / 4, 4, r % 4);
    DivModUnique(4 * q + r / 2, 2, r % 2);
  }

  /** v << n. */
  function Shl(v: nat, n: nat): (r: nat) {
    MulPositive(v, Pow2(n));
    v * Pow2(n)
  }

  /** v >> n. */
  function Shr(v: nat, n: nat): (r: nat) {
    DivPositive(v, Pow2(n));
    v / Pow2(n)
  }

  /** v & ((1 << n) - 1). */
  function Low(v: nat, n: nat): (r: nat)
    ensures r < Pow2(n)
  {
    v % Pow2(n)
  }

  lemma LowOfSmall(v: nat, n: nat)
    requires v < Pow2(n)
    ensures Low(v, n) == v
  {
    Digits(v, Pow2(n), 0, v);
  }

  lemma MulPositive(k: nat, d: nat)
    ensures k * d >= 0
  {
  }

  lemma DivPositive(v: nat, d: nat)
    requires d > 0
    ensures v / d >= 0
  {
  }

  lemma {:induction false} LsbSplit(s: Stream, p: nat, m: nat, n: nat)
    ensures Lsb(s, p, m + n) == Lsb(s, p, m) + Shl(Lsb(s, p + m, n), m)
    decreases m
  {
    if m > 0 {
      LsbSplit(s, p + 1, m - 1, n);
      Assoc(2, Pow2(m - 1), Lsb(s, p + m, n));
      Commute(Pow2(m), Lsb(s, p + m, n));
      Commute(Pow2(m - 1), Lsb(s, p + m, n));
    }
  }

  /** Taking m bits out of a buffer of n: the mask gives the value, the shift the rest. */
  lemma LsbTake(s: Stream, p: nat, m: nat, n: nat)
    requires m <= n
    ensures Low(Lsb(s, p, n), m) == Lsb(s, p, m)
    ensures Shr(Lsb(s, p, n), m) == Lsb(s, p + m, n - m)
  {
    LsbSplit(s, p, m, n - m);
    Commute(Pow2(m), Lsb(s, p + m, n - m));
    Digits(Lsb(s, p, n), Pow2(m), Lsb(s, p + m, n - m), Lsb(s, p, m));
  }

  lemma HalfMod(j: nat, n: nat)
    requires n > 0
    ensures Low(j, n) == j % 2 + 2 * Low(j / 2, n - 1)
  {
    var d := Pow2(n - 1);
    var q, r := j / 2 / d, j / 2 % d;
    assert j / 2 == d * q + r;
    Assoc(2, d, q);
    Digits(j, Pow2(n), q, j % 2 + 2 * r);
  }

  lemma {:induction false} LsbPastEnd(s: Stream, p: nat, n: nat)
    requires p >= |s|
    ensures Lsb(s, p, n) == 0
    decreases n
  {
    if n > 0 { LsbPastEnd(s, p + 1, n - 1); }
  }

  lemma {:induction false} MsbFront(s: Stream, p: nat, n: nat)
    requires n > 0
    ensures Msb(s, p, n) == Bit(s, p) * Pow2(n - 1) + Msb(s, p + 1, n - 1)
  {
    if n > 1 { MsbFront(s, p, n - 1); }
  }

  /** Reversing a number read one way gives the number read the other way. */
  lemma {:induction false} ReverseLsb(s: Stream, p: nat, n: nat)
    ensures Reverse(Lsb(s, p, n), n) == Msb(s, p, n)
    decreases n
  {
    if n > 0 {
      MsbFront(s, p, n);
      ReverseLsb(s, p + 1, n - 1);
      DivModUnique(Lsb(s, p + 1, n - 1), 2, Bit(s, p));
    }
  }

  lemma {:induction false} ReverseMsb(s: Stream, p: nat, n: nat)
    ensures Reverse(Msb(s, p, n), n) == Lsb(s, p, n)
  {
    if n > 0 {
      LsbSplit(s, p, n - 1, 1);
      assert Lsb(s, p + n - 1, 1) == Bit(s, p + n - 1) + 2 * Lsb(s, p + n, 0);
      ReverseMsb(s, p, n - 1);
      DivModUnique(Msb(s, p, n - 1), 2, Bit(s, p + n - 1));
    }
  }

  lemma {:induction false} MsbSplit(s: Stream, p: nat, m: nat, n: nat)
    ensures Msb(s, p, m + n) == Shl(Msb(s, p, m), n) + Msb(s, p + m, n)
  {
    if n > 0 {
      MsbSplit(s, p, m, n - 1);
      Assoc(Msb(s, p, m), 2, Pow2(n - 1));
      Assoc(2, Msb(s, p, m), Pow2(n - 1));
    }
  }

  lemma MsbShift(s: Stream, p: nat, m: nat, n: nat)
    requires m <= n
    ensures Shr(Msb(s, p, n), n - m) == Msb(s, p, m)
  {
    MsbSplit(s, p, m, n - m);
    DivModUnique(Msb(s, p, m), Pow2(n - m), Msb(s, p + m, n - m));
  }

  lemma PreshiftedCompare(s: Stream, p: nat, l: nat, w: nat, last: nat)
    requires l <= w
    ensures Msb(s, p, w) < Shl(last, w - l) <==> Msb(s, p, l) < last
  {
    hide Msb, Pow2;
    var d, a := Pow2(w - l), Msb(s, p, l);
    MsbSplit(s, p, l, w - l);
    if a < last {
      Distribute(last - a - 1, a + 1, d);
      Distribute(a, 1, d);
      MulPositive(last - a - 1, d);
    } else {
      Distribute(a - last, last, d);
      MulPositive(a - last, d);
    }
  }

  /** Reversing m low bits is reversing n and dropping n - m: how one 16-bit reversal serves
      every shorter width. */
  lemma {:induction false} ReverseShift(v: nat, m: nat, n: nat)
    requires m <= n && v < Pow2(m)
    ensures Shr(Reverse(v, n), n - m) == Reverse(v, m)
  {
    ReverseWiden(v, m, n);
    DivModUnique(Reverse(v, m), Pow2(n - m), 0);
  }

  lemma {:induction false} ReverseWiden(v: nat, m: nat, n: nat)
    requires m <= n && v < Pow2(m)
    ensures Reverse(v, n) == Shl(Reverse(v, m), n - m)
  {
    if m == 0 {
      ReverseZero(n);
    } else {
      ReverseWiden(v / 2, m - 1, n - 1);
      Pow2Add(m - 1, n - m);
      var b, t := v % 2, Reverse(v / 2, m - 1);
      Distribute(b * Pow2(m - 1), t, Pow2(n - m));
      Assoc(b, Pow2(m - 1), Pow2(n - m));
    }
  }

  lemma {:induction false} ReverseZero(n: nat)
    ensures Reverse(0, n) == 0
  {
    if n > 0 { ReverseZero(n - 1); }
  }

  /** Bit j of a byte. */
  predicate BitOf(b: byte, j: nat) {
    b / Pow2(j) % 2 == 1
  }

  function ToBits(data: seq<byte>): (s: Stream)
    ensures |s| == 8 * |data|
  {
    seq(8 * |data|, p requires 0 <= p < 8 * |data| => BitOf(data[p / 8], p % 8))
  }

  /** Byte i of the input, zero past its end. */
  function ByteAt(data: seq<byte>, i: nat): byte {
    if i < |data| then data[i] else 0
  }

  lemma ToBitsByte(data: seq<byte>, i: nat)
    ensures Lsb(ToBits(data), 8 * i, 8) == ByteAt(data, i)
  {
    hide Lsb, Bit, ToBits, BitOf, Pow2;
    var s := ToBits(data);
    LsbEight(s, 8 * i);
    ByteDigits(ByteAt(data, i));
    Pow2Zero();
    Pow2Values();
    ToBitsBit(data, i, 0);
    ToBitsBit(data, i, 1);
    ToBitsBit(data, i, 2);
    ToBitsBit(data, i, 3);
    ToBitsBit(data, i, 4);
    ToBitsBit(data, i, 5);
    ToBitsBit(data, i, 6);
    ToBitsBit(data, i, 7);
  }

  /** One more byte above the n bits of a buffer that starts at position p. */
  lemma FillStep(data: seq<byte>, p: nat, n: nat, at: nat)
    requires p + n == 8 * at
    ensures Lsb(ToBits(data), p, n + 8) == Lsb(ToBits(data), p, n) + Shl(ByteAt(data, at), n)
  {
    hide Lsb, Shl, ToBits;
    ToBitsByte(data, at);
    AppendDigits(ToBits(data), p, n, 8, ByteAt(data, at));
  }

  lemma AppendDigits(s: Stream, p: nat, n: nat, w: nat, b: nat)
    requires b == Lsb(s, p + n, w)
    ensures Lsb(s, p, n + w) == Lsb(s, p, n) + Shl(b, n)
  {
    LsbSplit(s, p, n, w);
  }

  lemma ToBitsBit(data: seq<byte>, i: nat, j: nat)
    requires j < 8
    ensures Bit(ToBits(data), 8 * i + j) == ByteAt(data, i) / Pow2(j) % 2
  {
    hide Pow2, BitOf;
    DivModUnique(i, 8, j);
    BitOfNumber(ByteAt(data, i), j);
    if i >= |data| { DivModUnique(0, Pow2(j), 0); }
  }

  lemma BitOfNumber(b: byte, j: nat)
    ensures b / Pow2(j) % 2 == if BitOf(b, j) then 1 else 0
  {
  }

  lemma Pow2Zero()
    ensures Pow2(0) == 1
  {
  }

  lemma ByteDigits(b: byte)
    ensures b == b % 2 + 2 * (b / 2 % 2) + 4 * (b / 4 % 2) + 8 * (b / 8 % 2)
             + 16 * (b / 16 % 2) + 32 * (b / 32 % 2) + 64 * (b / 64 % 2) + 128 * (b / 128 % 2)
  {
    var b1, b2, b3, b4 := b / 2, b / 4, b / 8, b / 16;
    var b5, b6, b7 := b / 32, b / 64, b / 128;
    assert b1 / 2 == b2 && b2 / 2 == b3 && b3 / 2 == b4;
    assert b4 / 2 == b5 && b5 / 2 == b6 && b6 / 2 == b7 && b7 / 2 == 0;
  }

  /** Two w-bit numbers side by side. */
  lemma TwoBytes(s: Stream, p: nat, w: nat)
    ensures Lsb(s, p, w + w) == Lsb(s, p, w) + Shl(Lsb(s, p + w, w), w)
  {
    LsbSplit(s, p, w, w);
  }

  lemma LsbEight(s: Stream, p: nat)
    ensures Lsb(s, p, 8) == Bit(s, p) + 2 * Bit(s, p + 1) + 4 * Bit(s, p + 2) + 8 * Bit(s, p + 3)
                          + 16 * Bit(s, p + 4) + 32 * Bit(s, p + 5) + 64 * Bit(s, p + 6) + 128 * Bit(s, p + 7)
  {
    assert Lsb(s, p, 8) == Bit(s, p) + 2 * Lsb(s, p + 1, 7);
    assert Lsb(s, p + 1, 7) == Bit(s, p + 1) + 2 * Lsb(s, p + 2, 6);
    assert Lsb(s, p + 2, 6) == Bit(s, p + 2) + 2 * Lsb(s, p + 3, 5);
    assert Lsb(s, p + 3, 5) == Bit(s, p + 3) + 2 * Lsb(s, p + 4, 4);
    assert Lsb(s, p + 4, 4) == Bit(s, p + 4) + 2 * Lsb(s, p + 5, 3);
    assert Lsb(s, p + 5, 3) == Bit(s, p + 5) + 2 * Lsb(s, p + 6, 2);
    assert Lsb(s, p + 6, 2) == Bit(s, p + 6) + 2 * Lsb(s, p + 7, 1);
  }

  // ---------------------------------------------------------------------------
  // Writing numbers into a stream

  /** The bits c stand at position p. */
  ghost predicate At(s: Stream, p: nat, c: Stream) {
    forall i :: 0 <= i < |c| ==> (Bit(s, p + i) == 1) == c[i]
  }

  lemma AtSplit(s: Stream, p: nat, a: Stream, b: Stream)
    ensures At(s, p, a + b) <==> At(s, p, a) && At(s, p + |a|, b)
  {
    var c := a + b;
    if At(s, p, c) {
      forall i | 0 <= i < |a| ensures (Bit(s, p + i) == 1) == a[i] { assert c[i] == a[i]; }
      forall i | 0 <= i < |b| ensures (Bit(s, p + |a| + i) == 1) == b[i] { assert c[|a| + i] == b[i]; }
    }
    if At(s, p, a) && At(s, p + |a|, b) {
      forall i | 0 <= i < |c|
        ensures (Bit(s, p + i) == 1) == c[i]
      {
        if i >= |a| { assert c[i] == b[i - |a|]; }
      }
    }
  }

  /** n bits of v, least significant first: how DEFLATE writes everything but Huffman codes. */
  function LittleEndian(v: nat, n: nat): (c: Stream)
    ensures |c| == n
    decreases n
  {
    if n == 0 then [] else [v % 2 == 1] + LittleEndian(v / 2, n - 1)
  }

  /** n bits of v, most significant first: how Huffman codes are written. */
  function BigEndian(v: nat, n: nat): (c: Stream)
    ensures |c| == n
    decreases n
  {
    if n == 0 then [] else BigEndian(v / 2, n - 1) + [v % 2 == 1]
  }

  /** Bit i of each. */
  lemma {:induction false} LittleEndianBit(v: nat, n: nat, i: nat)
    requires i < n
    ensures LittleEndian(v, n)[i] <==> v / Pow2(i) % 2 == 1
  {
    if i > 0 {
      LittleEndianBit(v / 2, n - 1, i - 1);
      HalfFirst(v, Pow2(i - 1));
    }
  }

  lemma {:induction false} BigEndianBit(v: nat, n: nat, i: nat)
    requires i < n
    ensures BigEndian(v, n)[i] <==> v / Pow2(n - 1 - i) % 2 == 1
  {
    if i < n - 1 {
      BigEndianBit(v / 2, n - 1, i);
      HalfFirst(v, Pow2(n - 2 - i));
    }
  }

  lemma HalfFirst(v: nat, d: nat)
    requires d > 0
    ensures v / 2 / d == v / (2 * d)
  {
    var h, q, r := v / 2, v / 2 / d, v / 2 % d;
    assert h == d * q + r;
    Commute(d, q);
    assert v == 2 * h + v % 2;
    Assoc(q, 2, d);
    Assoc(2, q, d);
    DivModUnique(q, 2 * d, 2 * r + v % 2);
  }

  lemma {:induction false} LsbOfLittleEndian(s: Stream, p: nat, v: nat, n: nat)
    requires v < Pow2(n)
    ensures At(s, p, LittleEndian(v, n)) <==> Lsb(s, p, n) == v
    decreases n
  {
    if n > 0 {
      AtSplit(s, p, [v % 2 == 1], LittleEndian(v / 2, n - 1));
      LsbOfLittleEndian(s, p + 1, v / 2, n - 1);
      AtOne(s, p, v % 2 == 1);
    }
  }

  lemma {:induction false} MsbOfBigEndian(s: Stream, p: nat, v: nat, n: nat)
    requires v < Pow2(n)
    ensures At(s, p, BigEndian(v, n)) <==> Msb(s, p, n) == v
    decreases n
  {
    if n > 0 {
      AtSplit(s, p, BigEndian(v / 2, n - 1), [v % 2 == 1]);
      MsbOfBigEndian(s, p, v / 2, n - 1);
      AtOne(s, p + n - 1, v % 2 == 1);
    }
  }

  lemma AtOne(s: Stream, p: nat, b: bool)
    ensures At(s, p, [b]) <==> (Bit(s, p) == 1) == b
  {
    if At(s, p, [b]) { assert [b][0] == b; }
  }

  /** The bits c stand in the data from bit p on, the lowest bit of every byte first. */
  ghost predicate Carries(data: seq<byte>, p: nat, c: Stream) {
    p + |c| <= 8 * |data| && forall i: nat :: i < |c| ==> (CarriesOne(data, p + i) <==> c[i])
  }

  ghost predicate CarriesOne(data: seq<byte>, p: nat) {
    p / 8 < |data| && data[p / 8] / Pow2(p % 8) % 2 == 1
  }

  lemma CarriedStands(data: seq<byte>, p: nat, c: Stream)
    requires Carries(data, p, c)
    ensures At(ToBits(data), p, c)
  {
    hide Pow2;
    forall i | 0 <= i < |c|
      ensures (Bit(ToBits(data), p + i) == 1) == c[i]
    {
      assert CarriesOne(data, p + i) <==> c[i];
    }
  }
}
