/** PNG row filters (RFC 2083 section 6): the reference definitions, and the proof that unfiltering
    undoes filtering. */
module Filters {
  import opened Bits

  /** The filter types of the format, then the two stand-ins the decoder uses on the first row. */
  datatype Filter = FNone | FSub | FUp | FAvg | FPaeth | FAvgFirst | FPaethFirst

  function Abs(n: int): (r: nat)
    ensures r == n || r == -n
  {
    if n < 0 then -n else n
  }

  /** stbi__paeth. */
  function Paeth(a: int, b: int, c: int): (r: int)
    ensures r == a || r == b || r == c
  {
    var p := a + b - c;
    var pa, pb, pc := Abs(p - a), Abs(p - b), Abs(p - c);
    if pa <= pb && pa <= pc then a else if pb <= pc then b else c
  }

  /** The predictor chosen by the format: whichever of a, b, c is nearest to a + b - c, in that order of preference. */
  lemma PaethIsNearest(a: int, b: int, c: int, q: int)
    requires q == a || q == b || q == c
    ensures Abs(a + b - c - Paeth(a, b, c)) <= Abs(a + b - c - q)
    ensures Abs(a + b - c - Paeth(a, b, c)) == Abs(a + b - c - a) ==> Paeth(a, b, c) == a
    ensures Paeth(a, b, c) != a && Abs(a + b - c - Paeth(a, b, c)) == Abs(a + b - c - b) ==> Paeth(a, b, c) == b
  {
  }

  /** The predicted byte for a filter type of the format, from the bytes to the left, above, and above left. */
  function Predict(kind: nat, a: byte, b: byte, c: byte): (p: int)
    requires kind <= 4
    ensures 0 <= p < 256
  {
    if kind == 0 then 0
    else if kind == 1 then a
    else if kind == 2 then b
    else if kind == 3 then (a as int + b as int) / 2
    else Paeth(a, b, c)
  }

  // ---------------------------------------------------------------------------
  // Rows

  function Left(row: seq<byte>, bpp: nat, k: nat): byte
    requires 0 < bpp && k < |row| + bpp
  {
    if k < bpp then 0 else row[k - bpp]
  }

  /** The encoder's side: what is stored for a row. */
  function FilterRow(kind: nat, row: seq<byte>, prior: seq<byte>, bpp: nat): (f: seq<byte>)
    requires kind <= 4 && |prior| == |row| && bpp > 0
    ensures |f| == |row|
  {
    seq<byte>(|row|, k requires 0 <= k < |row| =>
      (row[k] as int - Predict(kind, Left(row, bpp, k), prior[k], Left(prior, bpp, k))) % 256)
  }

  /** The first n bytes of the row that was stored as raw below prior. */
  function Unfilter(kind: nat, raw: seq<byte>, prior: seq<byte>, bpp: nat, n: nat): (row: seq<byte>)
    requires kind <= 4 && |prior| == |raw| && n <= |raw| && bpp > 0
    ensures |row| == n
  {
    if n == 0 then []
    else
      var row := Unfilter(kind, raw, prior, bpp, n - 1);
      row + [Restore(kind, raw[n - 1], Left(row, bpp, n - 1), prior[n - 1], Left(prior, bpp, n - 1))]
  }

  function Restore(kind: nat, r: byte, a: byte, b: byte, c: byte): byte
    requires kind <= 4
  {
    (r as int + Predict(kind, a, b, c)) % 256
  }

  lemma {:induction false} UnfilterPrefix(kind: nat, raw: seq<byte>, prior: seq<byte>, bpp: nat, k: nat, n: nat)
    requires kind <= 4 && |prior| == |raw| && k <= n <= |raw| && bpp > 0
    ensures Unfilter(kind, raw, prior, bpp, n)[..k] == Unfilter(kind, raw, prior, bpp, k)
  {
    if k < n { UnfilterPrefix(kind, raw, prior, bpp, k, n - 1); }
  }

  /** Each byte of an unfiltered row follows from the bytes before it. */
  lemma UnfilterAt(kind: nat, raw: seq<byte>, prior: seq<byte>, bpp: nat, n: nat, k: nat)
    requires kind <= 4 && |prior| == |raw| && k < n <= |raw| && bpp > 0
    ensures var row := Unfilter(kind, raw, prior, bpp, n);
      row[k] == Restore(kind, raw[k], Left(row, bpp, k), prior[k], Left(prior, bpp, k))
      && Follows(kind, raw[k], if k < bpp then 0 else row[k - bpp], prior[k], if k < bpp then 0 else prior[k - bpp], row[k])
  {
    hide Follows, Restore;
    UnfilterPrefix(kind, raw, prior, bpp, k, n);
    UnfilterPrefix(kind, raw, prior, bpp, k + 1, n);
    var row := Unfilter(kind, raw, prior, bpp, n);
    assert row[k] == row[..k + 1][k];
    assert Left(row, bpp, k) == Left(row[..k], bpp, k);
    RestoreFollows(kind, raw[k], Left(row, bpp, k), prior[k], Left(prior, bpp, k), row[k]);
  }

  lemma RestoreUndoes(kind: nat, v: byte, a: byte, b: byte, c: byte)
    requires kind <= 4
    ensures Restore(kind, (v as int - Predict(kind, a, b, c)) % 256, a, b, c) == v
  {
    var p := Predict(kind, a, b, c);
    assert ((v as int - p) % 256 + p) % 256 == v;
  }

  lemma {:induction false} UnfilterInvertsFilterTo(kind: nat, row: seq<byte>, prior: seq<byte>, bpp: nat, n: nat)
    requires kind <= 4 && |prior| == |row| && n <= |row| && bpp > 0
    ensures Unfilter(kind, FilterRow(kind, row, prior, bpp), prior, bpp, n) == row[..n]
  {
    if n > 0 {
      UnfilterInvertsFilterTo(kind, row, prior, bpp, n - 1);
      assert Left(row[..n - 1], bpp, n - 1) == Left(row, bpp, n - 1);
      RestoreUndoes(kind, row[n - 1], Left(row, bpp, n - 1), prior[n - 1], Left(prior, bpp, n - 1));
    }
  }

  lemma FilterUndoes(kind: nat, r: byte, a: byte, b: byte, c: byte)
    requires kind <= 4
    ensures (Restore(kind, r, a, b, c) as int - Predict(kind, a, b, c)) % 256 == r
  {
    hide Predict;
  }

  /** Filtering undoes unfiltering: what is stored for a row is the filtering of the row it is decoded to. */
  lemma FilterInvertsUnfilter(kind: nat, raw: seq<byte>, prior: seq<byte>, bpp: nat)
    requires kind <= 4 && |prior| == |raw| && bpp > 0
    ensures FilterRow(kind, Unfilter(kind, raw, prior, bpp, |raw|), prior, bpp) == raw
  {
    hide Unfilter, Restore, Predict;
    var row := Unfilter(kind, raw, prior, bpp, |raw|);
    forall k | 0 <= k < |raw|
      ensures FilterRow(kind, row, prior, bpp)[k] == raw[k]
    {
      UnfilterAt(kind, raw, prior, bpp, |raw|, k);
      FilterUndoes(kind, raw[k], Left(row, bpp, k), prior[k], Left(prior, bpp, k));
    }
  }

  // ---------------------------------------------------------------------------
  // The decoder's filters

  function Of(kind: nat): Filter
    requires kind <= 4
  {
    if kind == 0 then FNone else if kind == 1 then FSub else if kind == 2 then FUp else if kind == 3 then FAvg else FPaeth
  }

  /** first_row_filter: stand-ins that do not read the row above. */
  function FirstRowFilter(kind: nat): Filter
    requires kind <= 4
  {
    if kind == 0 then FNone else if kind == 1 then FSub else if kind == 2 then FNone
    else if kind == 3 then FAvgFirst else FPaethFirst
  }

  /** One byte of output, as each case of the decoder's switch computes it. */
  function Recon(f: Filter, r: byte, a: byte, b: byte, c: byte): byte {
    match f
    case FNone => r
    case FSub => (r as int + a as int) % 256
    case FUp => (r as int + b as int) % 256
    case FAvg => (r as int + (b as int + a as int) / 2) % 256
    case FPaeth => (r as int + Paeth(a, b, c)) % 256
    case FAvgFirst => (r as int + a as int / 2) % 256
    case FPaethFirst => (r as int + Paeth(a, 0, 0)) % 256
  }

  /** The ordinary filters restore what the format defines; the first-row stand-ins, whatever lies
      above, restore what it defines over a row of zeros. */
  lemma ReconRestores(kind: nat, r: byte, a: byte, b: byte, c: byte)
    requires kind <= 4
    ensures Recon(Of(kind), r, a, b, c) == Restore(kind, r, a, b, c)
    ensures Recon(FirstRowFilter(kind), r, a, b, c) == Restore(kind, r, a, 0, 0)
    ensures Follows(kind, r, a, b, c, Recon(Of(kind), r, a, b, c))
    ensures Follows(kind, r, a, 0, 0, Recon(FirstRowFilter(kind), r, a, b, c))
  {
    hide Recon, Restore, Follows;
    OrdinaryRestores(kind, r, a, b, c);
    FirstRowRestores(kind, r, a, b, c);
    RestoreFollows(kind, r, a, b, c, Recon(Of(kind), r, a, b, c));
    RestoreFollows(kind, r, a, 0, 0, Recon(FirstRowFilter(kind), r, a, b, c));
  }

  lemma OrdinaryRestores(kind: nat, r: byte, a: byte, b: byte, c: byte)
    requires kind <= 4
    ensures Recon(Of(kind), r, a, b, c) == Restore(kind, r, a, b, c)
  {
    hide Paeth;
  }

  lemma FirstRowRestores(kind: nat, r: byte, a: byte, b: byte, c: byte)
    requires kind <= 4
    ensures Recon(FirstRowFilter(kind), r, a, b, c) == Restore(kind, r, a, 0, 0)
  {
    hide Paeth;
  }

  // ---------------------------------------------------------------------------
  // The filter types by what they do to a byte (RFC 2083 section 6)

  /** m is whichever of a, b and c is nearest to a + b - c, a before b before c. */
  ghost predicate Nearest(m: int, a: int, b: int, c: int) {
    var e := a + b - c;
    && (m == a || m == b || m == c)
    && Abs(e - m) <= Abs(e - a) && Abs(e - m) <= Abs(e - b) && Abs(e - m) <= Abs(e - c)
    && (Abs(e - m) == Abs(e - a) ==> m == a)
    && (m != a && Abs(e - m) == Abs(e - b) ==> m == b)
  }

  /** m is the mean of a and b, rounded down. */
  ghost predicate Mean(m: int, a: int, b: int) {
    2 * m <= a + b < 2 * m + 2
  }

  /** The byte v is what the stored byte r stands for, where a, b and c are the bytes to its left, above it
      and above left. */
  ghost predicate Follows(kind: nat, r: byte, a: byte, b: byte, c: byte, v: byte) {
    match kind
    case 0 => v == r
    case 1 => v == (r as int + a) % 256
    case 2 => v == (r as int + b) % 256
    case 3 => exists m: int :: Mean(m, a, b) && v == (r as int + m) % 256
    case 4 => exists m: int :: Nearest(m, a, b, c) && v == (r as int + m) % 256
    case _ => false
  }

  /** A byte is restored to the one that follows. */
  lemma RestoreFollows(kind: nat, r: byte, a: byte, b: byte, c: byte, v: byte)
    requires kind <= 4
    ensures Follows(kind, r, a, b, c, v) <==> v == Restore(kind, r, a, b, c)
  {
    hide Paeth, Nearest, Mean;
    if kind == 3 {
      var m := (a as int + b as int) / 2;
      MeanIs(a, b, m);
      forall n: int | Mean(n, a, b) ensures n == m { MeanIs(a, b, n); }
    } else if kind == 4 {
      NearestIs(a, b, c, Paeth(a, b, c));
      forall n: int | Nearest(n, a, b, c) ensures n == Paeth(a, b, c) { NearestIs(a, b, c, n); }
    }
  }

  lemma MeanIs(a: nat, b: nat, m: int)
    ensures Mean(m, a, b) <==> m == (a + b) / 2
  {
  }

  lemma NearestIs(a: int, b: int, c: int, m: int)
    ensures Nearest(m, a, b, c) <==> m == Paeth(a, b, c)
  {
  }

  // ---------------------------------------------------------------------------
  // Images: rows of w bytes, each stored behind its filter type

  function ZeroRow(w: nat): (z: seq<byte>)
    ensures |z| == w && forall i :: 0 <= i < w ==> z[i] == 0
  {
    seq<byte>(w, _ => 0)
  }

  /** Start of stored line j. */
  function LineAt(w: nat, j: nat): nat {
    Ix(j, w + 1)
  }

  lemma LineStep(w: nat, j: nat)
    ensures LineAt(w, j + 1) == LineAt(w, j) + w + 1
  {
    IxStep(j, w + 1);
  }

  lemma {:induction false} LineMonotone(w: nat, j: nat, y: nat)
    requires j <= y
    ensures LineAt(w, j) + (y - j) <= LineAt(w, y)
  {
    if j < y {
      LineStep(w, y - 1);
      LineMonotone(w, j, y - 1);
    }
  }

  ghost predicate WellFormed(raw: seq<byte>, w: nat, y: nat) {
    LineAt(w, y) <= |raw| && forall j: nat :: j < y ==> KindOk(raw, w, j)
  }

  ghost predicate KindOk(raw: seq<byte>, w: nat, j: nat) {
    LineAt(w, j) < |raw| && raw[LineAt(w, j)] <= 4
  }

  /** Row j of the image stored in raw. */
  ghost function Row(raw: seq<byte>, w: nat, bpp: nat, j: nat): (row: seq<byte>)
    requires bpp > 0 && WellFormed(raw, w, j + 1)
    ensures |row| == w
  {
    LineStep(w, j);
    assert KindOk(raw, w, j);
    var prior := if j == 0 then ZeroRow(w) else Row(raw, w, bpp, j - 1);
    var at := LineAt(w, j);
    Unfilter(raw[at], raw[at + 1..at + 1 + w], prior, bpp, w)
  }

  predicate Storable(rows: seq<seq<byte>>, kinds: seq<nat>, w: nat) {
    |kinds| == |rows| && forall i :: 0 <= i < |rows| ==> kinds[i] <= 4 && |rows[i]| == w
  }

  /** The encoder's side: rows below one another, each with its own choice of filter. */
  function Store(rows: seq<seq<byte>>, kinds: seq<nat>, w: nat, bpp: nat): (raw: seq<byte>)
    requires bpp > 0 && Storable(rows, kinds, w)
    ensures |raw| == LineAt(w, |rows|)
  {
    if rows == [] then []
    else
      var n := |rows| - 1;
      var prior := if n == 0 then ZeroRow(w) else rows[n - 1];
      LineStep(w, n);
      Store(rows[..n], kinds[..n], w, bpp) + [kinds[n]] + FilterRow(kinds[n], rows[n], prior, bpp)
  }

  lemma {:induction false} StorePrefix(rows: seq<seq<byte>>, kinds: seq<nat>, w: nat, bpp: nat, j: nat)
    requires bpp > 0 && Storable(rows, kinds, w)
    requires j <= |rows|
    ensures Store(rows[..j], kinds[..j], w, bpp) <= Store(rows, kinds, w, bpp)
    decreases |rows|
  {
    hide FilterRow, ZeroRow, LineAt, Store;
    var n := |rows|;
    if j == n {
      assert rows[..j] == rows && kinds[..j] == kinds;
    } else {
      StorePrefix(rows[..n - 1], kinds[..n - 1], w, bpp, j);
      assert rows[..n - 1][..j] == rows[..j] && kinds[..n - 1][..j] == kinds[..j];
      StoreLast(rows, kinds, w, bpp);
    }
  }

  lemma StoreLine(rows: seq<seq<byte>>, kinds: seq<nat>, w: nat, bpp: nat, j: nat)
    requires bpp > 0 && Storable(rows, kinds, w)
    requires j < |rows|
    ensures var raw, at := Store(rows, kinds, w, bpp), LineAt(w, j);
      && at + 1 + w <= |raw| && raw[at] == kinds[j]
      && raw[at + 1..at + 1 + w] == FilterRow(kinds[j], rows[j], if j == 0 then ZeroRow(w) else rows[j - 1], bpp)
  {
    hide LineAt, FilterRow, ZeroRow, Store;
    StorePrefix(rows, kinds, w, bpp, j + 1);
    LineStep(w, j);
    var part := Store(rows[..j + 1], kinds[..j + 1], w, bpp);
    assert rows[..j + 1][..j] == rows[..j] && kinds[..j + 1][..j] == kinds[..j];
    var head := Store(rows[..j], kinds[..j], w, bpp);
    var f := FilterRow(kinds[j], rows[j], if j == 0 then ZeroRow(w) else rows[j - 1], bpp);
    StoreLast(rows[..j + 1], kinds[..j + 1], w, bpp);
    PrefixSlices(head, kinds[j], f, Store(rows, kinds, w, bpp));
  }

  lemma StoreLast(rows: seq<seq<byte>>, kinds: seq<nat>, w: nat, bpp: nat)
    requires bpp > 0 && Storable(rows, kinds, w) && rows != []
    ensures var n := |rows| - 1;
      Store(rows, kinds, w, bpp) == Store(rows[..n], kinds[..n], w, bpp) + [kinds[n]]
        + FilterRow(kinds[n], rows[n], if n == 0 then ZeroRow(w) else rows[n - 1], bpp)
  {
  }

  lemma PrefixSlices(head: seq<byte>, kind: byte, f: seq<byte>, raw: seq<byte>)
    requires head + [kind] + f <= raw
    ensures raw[|head|] == kind && raw[|head| + 1..|head| + 1 + |f|] == f
  {
    var part := head + [kind] + f;
    assert raw[|head| + 1..|head| + 1 + |f|] == part[|head| + 1..];
  }

  /** Unfiltering undoes filtering, for every choice of filters and whatever follows the image data. */
  lemma {:induction false} UnfilterInvertsFilter(rows: seq<seq<byte>>, kinds: seq<nat>, w: nat, bpp: nat, extra: seq<byte>, j: nat)
    requires bpp > 0 && Storable(rows, kinds, w)
    requires j < |rows|
    ensures WellFormed(Store(rows, kinds, w, bpp) + extra, w, |rows|)
    ensures WellFormed(Store(rows, kinds, w, bpp) + extra, w, j + 1)
    ensures Row(Store(rows, kinds, w, bpp) + extra, w, bpp, j) == rows[j]
  {
    hide FilterRow, Unfilter, Store, LineAt, ZeroRow;
    var raw := Store(rows, kinds, w, bpp) + extra;
    forall i: nat | i < |rows|
      ensures KindOk(raw, w, i)
    {
      StoreLine(rows, kinds, w, bpp, i);
    }
    LineMonotone(w, j + 1, |rows|);
    assert WellFormed(raw, w, j + 1);
    StoreLine(rows, kinds, w, bpp, j);
    var at := LineAt(w, j);
    assert raw[at + 1..at + 1 + w] == Store(rows, kinds, w, bpp)[at + 1..at + 1 + w];
    if j > 0 { UnfilterInvertsFilter(rows, kinds, w, bpp, extra, j - 1); }
    var prior := if j == 0 then ZeroRow(w) else rows[j - 1];
    UnfilterInvertsFilterTo(kinds[j], rows[j], prior, bpp, w);
    assert rows[j][..w] == rows[j];
  }

  /** The rows an image decodes to, and the filters it names. */
  ghost function RowsOf(raw: seq<byte>, w: nat, bpp: nat, y: nat): (rows: seq<seq<byte>>)
    requires bpp > 0 && WellFormed(raw, w, y)
    ensures |rows| == y && forall j :: 0 <= j < y ==> |rows[j]| == w
  {
    if y == 0 then [] else (LineMonotone(w, y - 1, y); RowsOf(raw, w, bpp, y - 1) + [Row(raw, w, bpp, y - 1)])
  }

  ghost function KindsOf(raw: seq<byte>, w: nat, y: nat): (kinds: seq<nat>)
    requires WellFormed(raw, w, y)
    ensures |kinds| == y && forall j :: 0 <= j < y ==> kinds[j] <= 4
  {
    if y == 0 then [] else
      LineMonotone(w, y - 1, y);
      assert KindOk(raw, w, y - 1);
      KindsOf(raw, w, y - 1) + [raw[LineAt(w, y - 1)]]
  }

  /** Every image that can be decoded is the filtering of the rows it decodes to. */
  lemma {:induction false} FilterInvertsDecoding(raw: seq<byte>, w: nat, bpp: nat, y: nat)
    requires bpp > 0 && WellFormed(raw, w, y)
    ensures Store(RowsOf(raw, w, bpp, y), KindsOf(raw, w, y), w, bpp) == raw[..LineAt(w, y)]
  {
    hide FilterRow, Unfilter, Store, LineAt, ZeroRow;
    var rows, kinds := RowsOf(raw, w, bpp, y), KindsOf(raw, w, y);
    if y == 0 {
      StoreNothing(w, bpp);
    } else {
      var n, at := y - 1, LineAt(w, y - 1);
      LineStep(w, n);
      FilterInvertsDecoding(raw, w, bpp, n);
      assert KindOk(raw, w, n);
      StoreLast(rows, kinds, w, bpp);
      assert rows[..n] == RowsOf(raw, w, bpp, n) && kinds[..n] == KindsOf(raw, w, n);
      var prior := if n == 0 then ZeroRow(w) else rows[n - 1];
      FilterInvertsUnfilter(kinds[n], raw[at + 1..at + 1 + w], prior, bpp);
      assert raw[..at] + [raw[at]] + raw[at + 1..at + 1 + w] == raw[..LineAt(w, y)];
    }
  }

  lemma StoreNothing(w: nat, bpp: nat)
    requires bpp > 0
    ensures Store([], [], w, bpp) == [] && LineAt(w, 0) == 0
  {
  }

  /** Byte k of row j of an image follows from the bytes stored and from the bytes decoded before it. Left
      of the first pixel and above the first row everything is zero. */
  lemma RowFollows(raw: seq<byte>, w: nat, bpp: nat, j: nat, k: nat)
    requires bpp > 0 && WellFormed(raw, w, j + 1) && k < w
    ensures j > 0 ==> WellFormed(raw, w, j)
    ensures Ix(j, w + 1) + 1 + k < |raw|
    ensures var row := Row(raw, w, bpp, j);
      Follows(raw[Ix(j, w + 1)], raw[Ix(j, w + 1) + 1 + k],
        if k < bpp then 0 else row[k - bpp],
        if j == 0 then 0 else Row(raw, w, bpp, j - 1)[k],
        if j == 0 || k < bpp then 0 else Row(raw, w, bpp, j - 1)[k - bpp],
        row[k])
  {
    hide Ix, Unfilter, Follows, Restore;
    LineStep(w, j);
    assert KindOk(raw, w, j);
    var at := LineAt(w, j);
    var prior := if j == 0 then ZeroRow(w) else Row(raw, w, bpp, j - 1);
    var stored, row := raw[at + 1..at + 1 + w], Row(raw, w, bpp, j);
    UnfilterAt(raw[at], stored, prior, bpp, w, k);
    RestoreFollows(raw[at], stored[k], Left(row, bpp, k), prior[k], Left(prior, bpp, k), row[k]);
  }
}
