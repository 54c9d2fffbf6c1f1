/** The entropy-coded bytes of a JPEG scan as a stream of bits, most significant bit of each byte first
    (ITU-T T.81 F.2.2.5): stuffed zeros are left out, and from the first marker on every bit is zero. */
module JpegStream {
  import opened Bits

  /** The first position from p on that does not hold a fill byte. */
  function AfterFill(data: seq<byte>, p: nat): (q: nat)
    ensures q >= p
    decreases if p < |data| then |data| - p else 0
  {
    if p < |data| && data[p] == 0xFF then AfterFill(data, p + 1) else p
  }

  /** The bytes from p on, up to a marker or the end of the data. */
  function Entropy(data: seq<byte>, p: nat): seq<byte>
    decreases if p < |data| then |data| - p else 0
  {
    if p >= |data| then []
    else if data[p] != 0xFF then [data[p]] + Entropy(data, p + 1)
    else
      var q := AfterFill(data, p + 1);
      if ByteAt(data, q) == 0 then [0xFF] + Entropy(data, q + 1) else []
  }

  /** The ways the bytes from p on can go on. */
  lemma EntropyStep(data: seq<byte>, p: nat)
    ensures p >= |data| ==> Entropy(data, p) == []
    ensures p < |data| && data[p] != 0xFF ==> Entropy(data, p) == [data[p]] + Entropy(data, p + 1)
    ensures p < |data| && data[p] == 0xFF && ByteAt(data, AfterFill(data, p + 1)) != 0 ==> Entropy(data, p) == []
  {
    hide AfterFill;
  }

  /** A stuffed 0xFF is one byte of the stream, also at the very end of the data. */
  lemma StuffedZero(data: seq<byte>, p: nat)
    requires p < |data| && data[p] == 0xFF && ByteAt(data, AfterFill(data, p + 1)) == 0
    ensures var q := AfterFill(data, p + 1);
      Entropy(data, p) == [0xFF] + Entropy(data, if q < |data| then q + 1 else q)
  {
    hide AfterFill;
  }

  /** Byte stuffing: a zero behind every 0xFF. */
  function Stuff(bytes: seq<byte>): (s: seq<byte>) {
    if bytes == [] then [] else Stuffed(bytes[0]) + Stuff(bytes[1..])
  }

  function Stuffed(b: byte): (s: seq<byte>)
    ensures s != []
  {
    if b == 0xFF then [0xFF, 0] else [b]
  }

  /** These bytes stand in the data at p. */
  ghost predicate StandsAt(data: seq<byte>, p: nat, s: seq<byte>) {
    p + |s| <= |data| && data[p..p + |s|] == s
  }

  /** A marker: 0xFF, any number of fill bytes, and a byte that is not zero. */
  ghost predicate MarkerAt(data: seq<byte>, p: nat) {
    p < |data| && data[p] == 0xFF && ByteAt(data, AfterFill(data, p + 1)) != 0
  }

  lemma StandsAtSplit(data: seq<byte>, p: nat, a: seq<byte>, b: seq<byte>)
    requires StandsAt(data, p, a + b)
    ensures StandsAt(data, p, a) && StandsAt(data, p + |a|, b)
  {
    var t := data[p..p + |a + b|];
    assert data[p..p + |a|] == t[..|a|];
    assert data[p + |a|..p + |a + b|] == t[|a|..];
  }

  lemma ByteComesBack(data: seq<byte>, p: nat, b: byte)
    requires StandsAt(data, p, Stuffed(b))
    ensures Entropy(data, p) == [b] + Entropy(data, p + |Stuffed(b)|)
  {
    hide Entropy;
    var s := data[p..p + |Stuffed(b)|];
    assert data[p] == s[0];
    EntropyStep(data, p);
    if b == 0xFF {
      assert data[p + 1] == s[1] == 0;
      StuffedZero(data, p);
    }
  }

  /** What was stuffed comes back, whatever precedes it, up to a marker with any number of fill bytes. */
  lemma {:induction false} StuffedComesBack(data: seq<byte>, p: nat, bytes: seq<byte>)
    requires StandsAt(data, p, Stuff(bytes)) && MarkerAt(data, p + |Stuff(bytes)|)
    ensures Entropy(data, p) == bytes
    decreases |bytes|
  {
    hide Entropy, AfterFill, Stuffed, StandsAt, ByteAt;
    if bytes == [] {
      EntropyStep(data, p);
    } else {
      StandsAtSplit(data, p, Stuffed(bytes[0]), Stuff(bytes[1..]));
      ByteComesBack(data, p, bytes[0]);
      StuffedComesBack(data, p + |Stuffed(bytes[0])|, bytes[1..]);
    }
  }

  function BitsOf(bytes: seq<byte>): (s: Stream)
    ensures |s| == 8 * |bytes|
  {
    if bytes == [] then [] else BigEndian(bytes[0], 8) + BitsOf(bytes[1..])
  }

  /** Bit j of byte i, the most significant one first. */
  lemma {:induction false} BitsOfBit(bytes: seq<byte>, i: nat, j: nat)
    requires i < |bytes| && j < 8
    ensures BitsOf(bytes)[8 * i + j] <==> bytes[i] / Pow2(7 - j) % 2 == 1
  {
    hide BigEndian;
    if i == 0 {
      BigEndianBit(bytes[0], 8, j);
    } else {
      BitsOfBit(bytes[1..], i - 1, j);
      assert BitsOf(bytes)[8 * i + j] == BitsOf(bytes[1..])[8 * (i - 1) + j];
    }
  }

  lemma {:induction false} BitsOfSplit(a: seq<byte>, b: seq<byte>)
    ensures BitsOf(a + b) == BitsOf(a) + BitsOf(b)
  {
    hide BigEndian;
    if a == [] {
      assert a + b == b;
    } else {
      BitsOfSplit(a[1..], b);
      assert (a + b)[1..] == a[1..] + b;
    }
  }

  /** The first n bits, and zeros behind them. */
  function Known(s: Stream, n: nat): Stream {
    if n <= |s| then s[..n] else s
  }

  // ---------------------------------------------------------------------------
  // Numbers read from a stream

  /** Two streams that agree on the n bits from p on give the same numbers there. */
  lemma {:induction false} MsbAgrees(s: Stream, t: Stream, p: nat, n: nat)
    requires forall i :: p <= i < p + n ==> Bit(s, i) == Bit(t, i)
    ensures Msb(s, p, n) == Msb(t, p, n)
  {
    if n > 0 { MsbAgrees(s, t, p, n - 1); }
  }

  lemma KnownAgrees(s: Stream, n: nat, p: nat, k: nat)
    requires p + k <= n || n >= |s|
    ensures Msb(Known(s, n), p, k) == Msb(s, p, k)
  {
    MsbAgrees(Known(s, n), s, p, k);
  }

  lemma {:induction false} MsbBeyond(s: Stream, p: nat, n: nat)
    requires p >= |s|
    ensures Msb(s, p, n) == 0
  {
    if n > 0 { MsbBeyond(s, p, n - 1); }
  }

  /** Shifting the first n bits out of a word of w bits that holds all there is. */
  lemma DropTop(s: Stream, p: nat, n: nat, w: nat)
    requires |s| <= p + w
    ensures Low(Shl(Msb(s, p, w), n), w) == Msb(s, p + n, w)
  {
    MsbSplit(s, p, w, n);
    MsbBeyond(s, p + w, n);
    MsbSplit(s, p, n, w);
    DivModUnique(Msb(s, p, n), Pow2(w), Msb(s, p + n, w));
  }

  /** The bits of a number are the same in any stream that shows the number. */
  lemma PartAgrees(s: Stream, p: nat, t: Stream, q: nat, n: nat, a: nat, b: nat)
    requires Msb(s, p, n) == Msb(t, q, n) && a + b <= n
    ensures Msb(s, p + a, b) == Msb(t, q + a, b)
  {
    PartOf(s, p, n, a, b);
    PartOf(t, q, n, a, b);
  }

  lemma PartOf(s: Stream, p: nat, n: nat, a: nat, b: nat)
    requires a + b <= n
    ensures Msb(s, p + a, b) == Low(Shr(Msb(s, p, n), n - (a + b)), b)
  {
    hide Msb, Pow2;
    MsbShift(s, p, a + b, n);
    MsbSplit(s, p, a, b);
    DivModUnique(Msb(s, p, a), Pow2(b), Msb(s, p + a, b));
  }

  /** One more byte at the end of the known bits: where it goes in a word of w bits that starts at p. */
  lemma PushByte(s: Stream, p: nat, n: nat, w: nat)
    requires n + 8 <= w
    ensures Msb(Known(s, p + n + 8), p, w) == Msb(Known(s, p + n), p, w) + Shl(Msb(s, p + n, 8), w - 8 - n)
  {
    hide Msb, Known, Shl;
    var u, v := Known(s, p + n + 8), Known(s, p + n);
    MsbSplit(u, p, n, w - n);
    MsbSplit(v, p, n, w - n);
    KnownAgrees(s, p + n + 8, p, n);
    KnownAgrees(s, p + n, p, n);
    KnownAgrees(s, p + n + 8, p + n, 8);
    MsbSplit(u, p + n, 8, w - n - 8);
    KnownEnds(s, p + n + 8);
    KnownEnds(s, p + n);
    if |s| <= p + n {
      MsbBeyond(s, p + n, 8);
      MsbBeyond(u, p + n + 8, w - n - 8);
    } else {
      MsbBeyond(u, p + n + 8, w - n - 8);
    }
    MsbBeyond(v, p + n, w - n);
  }

  lemma KnownEnds(s: Stream, n: nat)
    ensures |Known(s, n)| <= n || Known(s, n) == s
    ensures |Known(s, n)| <= n
  {
  }

  /** Byte i of the stream. */
  lemma {:induction false} ByteOfBits(bytes: seq<byte>, i: nat)
    ensures Msb(BitsOf(bytes), 8 * i, 8) == ByteAt(bytes, i)
  {
    hide Msb, BitsOf;
    var s := BitsOf(bytes);
    if i >= |bytes| {
      MsbBeyond(s, 8 * i, 8);
    } else {
      var a, b := bytes[..i], bytes[i + 1..];
      assert bytes == a + ([bytes[i]] + b);
      BitsOfSplit(a, [bytes[i]] + b);
      BitsOfSplit([bytes[i]], b);
      BitsOfOne(bytes[i]);
      StandsIn(BitsOf(a), BigEndian(bytes[i], 8), BitsOf(b));
      assert BitsOf(a) + (BigEndian(bytes[i], 8) + BitsOf(b)) == BitsOf(a) + BigEndian(bytes[i], 8) + BitsOf(b);
      Pow2Values();
      MsbOfBigEndian(s, 8 * i, bytes[i], 8);
    }
  }

  lemma BitsOfOne(b: byte)
    ensures BitsOf([b]) == BigEndian(b, 8)
  {
    assert [b][1..] == [];
  }

  lemma StandsIn(a: Stream, c: Stream, b: Stream)
    ensures At(a + c + b, |a|, c)
  {
    forall i | 0 <= i < |c|
      ensures (Bit(a + c + b, |a| + i) == 1) == c[i]
    {
      assert (a + c + b)[|a| + i] == c[i];
    }
  }
}
