/** The codes of a GIF raster by their numbers (GIF89a Appendix F), without a dictionary: between two clear
    codes, code 2^m + 2 + e stands for what code number e of the run stood for, and the first letter of what
    the one after it stood for. */
module GifWelch {
  import opened Bits
  import opened GifLzw

  /** A code, and what it stands for. */
  datatype Item = Item(code: nat, text: seq<byte>)

  /** The codes between two clear codes. */
  type Run = seq<Item>

  ghost predicate Means(m: nat, r: Run, i: nat)
    requires i < |r|
  {
    var c := r[i].code;
    r[i].text != [] &&
    if c < Pow2(m) then r[i].text == [Letter(c)]
    else
      var e := c - (Pow2(m) + 2);
      0 <= e < i && r[e + 1].text != [] && r[i].text == r[e].text + [r[e + 1].text[0]]
  }

  /** The width of a code when i codes of the run have been read; the first of them adds nothing. */
  function WidthAfter(m: nat, i: nat): nat {
    WidthFor(m, Pow2(m) + 2 + if i == 0 then 0 else i - 1)
  }

  ghost predicate IsRun(m: nat, r: Run) {
    && Pow2(m) + 2 + |r| <= LIMIT
    && (forall i: nat :: i < |r| ==> r[i].code < Pow2(WidthAfter(m, i)))
    && forall i: nat :: i < |r| ==> Means(m, r, i)
  }

  ghost function RunBits(m: nat, r: Run, i: nat): Stream
    requires i <= |r|
    decreases |r| - i
  {
    if i == |r| then [] else LittleEndian(r[i].code, WidthAfter(m, i)) + RunBits(m, r, i + 1)
  }

  /** Every run behind a clear code, 2^m, and the end code, 2^m + 1, behind the last. */
  ghost function RasterBits(m: nat, runs: seq<Run>, w: nat): Stream {
    if runs == [] then LittleEndian(Pow2(m) + 1, w)
    else LittleEndian(Pow2(m), w) + (RunBits(m, runs[0], 0) + RasterBits(m, runs[1..], WidthAfter(m, |runs[0]|)))
  }

  function TextFrom(r: Run, i: nat): seq<byte>
    requires i <= |r|
    decreases |r| - i
  {
    if i == |r| then [] else r[i].text + TextFrom(r, i + 1)
  }

  function TextOf(runs: seq<Run>): seq<byte> {
    if runs == [] then [] else TextFrom(runs[0], 0) + TextOf(runs[1..])
  }

  // ---------------------------------------------------------------------------
  // An encoder writes this

  ghost predicate Spelled(r: Run) {
    forall k :: 0 <= k < |r| ==> r[k].text != []
  }

  /** The dictionary when i codes of the run have been read. */
  ghost function DictAfter(m: nat, r: Run, i: nat): (d: Dict)
    requires i <= |r| && Spelled(r)
    ensures |d| == Pow2(m) + 2 + if i == 0 then 0 else i - 1
  {
    if i <= 1 then FreshDict(m) else DictAfter(m, r, i - 1) + [r[i - 2].text + [r[i - 1].text[0]]]
  }

  ghost function CoderAfter(m: nat, r: Run, i: nat): Coder
    requires i <= |r| && Spelled(r)
  {
    Coder(DictAfter(m, r, i), if i == 0 then [] else r[i - 1].text, true)
  }

  function Phrases(r: Run, i: nat): seq<Op>
    requires i <= |r|
    decreases |r| - i
  {
    if i == |r| then [] else [Phrase(r[i].code, r[i].text)] + Phrases(r, i + 1)
  }

  function Ops(runs: seq<Run>): seq<Op> {
    if runs == [] then [] else [Clear] + (Phrases(runs[0], 0) + Ops(runs[1..]))
  }

  lemma {:induction false} EntryAfter(m: nat, r: Run, i: nat, e: nat)
    requires i <= |r| && Spelled(r) && e + 1 < i
    ensures DictAfter(m, r, i)[Pow2(m) + 2 + e] == r[e].text + [r[e + 1].text[0]]
  {
    if e + 2 < i { EntryAfter(m, r, i - 1, e); }
  }

  lemma {:induction false} LetterAfter(m: nat, r: Run, i: nat, c: nat)
    requires i <= |r| && Spelled(r) && c < Pow2(m)
    ensures DictAfter(m, r, i)[c] == [Letter(c)]
  {
    if i > 1 { LetterAfter(m, r, i - 1, c); }
  }

  lemma RunSpelled(m: nat, r: Run)
    requires IsRun(m, r)
    ensures Spelled(r)
  {
    forall k: nat | k < |r| ensures r[k].text != [] { assert Means(m, r, k); }
  }

  /** The next code of the run is one that the encoder may write. */
  lemma CodeWritable(m: nat, r: Run, i: nat)
    requires IsRun(m, r) && Spelled(r) && i < |r|
    ensures var e, c, s := CoderAfter(m, r, i), r[i].code, r[i].text;
      var d := Learn(e.dict, e.last, s[0]);
      && c < Pow2(WidthFor(m, |e.dict|)) && WidthFor(m, |e.dict|) == WidthAfter(m, i)
      && |d| <= LIMIT && c < |d| && d[c] == s && d == DictAfter(m, r, i + 1)
  {
    hide DictAfter, Pow2, WidthFor, Spelled, Means, Learn;
    NextDict(m, r, i);
    assert Means(m, r, i);
    CodeMeans(m, r, i);
  }

  lemma NextDict(m: nat, r: Run, i: nat)
    requires Spelled(r) && i < |r|
    ensures r[i].text != [] && DictAfter(m, r, i + 1) == Learn(DictAfter(m, r, i), if i == 0 then [] else r[i - 1].text, r[i].text[0])
  {
    hide FreshDict, Pow2;
    TextThere(r, i);
    if i > 0 { TextThere(r, i - 1); }
  }

  lemma CodeMeans(m: nat, r: Run, i: nat)
    requires i < |r| && Means(m, r, i) && Spelled(r)
    ensures var c, d := r[i].code, DictAfter(m, r, i + 1); c < |d| && d[c] == r[i].text
  {
    hide Pow2, DictAfter, Spelled;
    var c := r[i].code;
    if c < Pow2(m) { LetterAfter(m, r, i + 1, c); } else { EntryAfter(m, r, i + 1, c - (Pow2(m) + 2)); }
  }

  /** What one phrase adds. */
  lemma PhraseFirst(c: nat, s: seq<byte>, rest: seq<Op>, m: nat, e: Coder)
    requires s != []
    ensures var ops, e' := [Phrase(c, s)] + rest, Coder(Learn(e.dict, e.last, s[0]), s, true);
      && Write(ops, m, e) == LittleEndian(c, WidthFor(m, |e.dict|)) + Write(rest, m, e')
      && LastWidth(ops, m, e) == LastWidth(rest, m, e') && Expand(ops) == s + Expand(rest)
      && (Writable(ops, m, e) <==>
            && e.cleared && c < Pow2(WidthFor(m, |e.dict|)) && |e'.dict| <= LIMIT && c < |e'.dict| && e'.dict[c] == s
            && Writable(rest, m, e'))
  {
    hide Learn, WidthFor, LittleEndian, Pow2;
    var ops := [Phrase(c, s)] + rest;
    assert ops[0] == Phrase(c, s) && ops[1..] == rest;
  }

  lemma ClearFirst(rest: seq<Op>, m: nat, e: Coder)
    ensures var ops, e' := [Clear] + rest, Coder(FreshDict(m), [], true);
      && Write(ops, m, e) == LittleEndian(Pow2(m), WidthFor(m, |e.dict|)) + Write(rest, m, e')
      && LastWidth(ops, m, e) == LastWidth(rest, m, e') && Expand(ops) == Expand(rest)
      && (Writable(ops, m, e) <==> Writable(rest, m, e'))
  {
    hide FreshDict, WidthFor, LittleEndian, Pow2;
    var ops := [Clear] + rest;
    assert ops[0] == Clear && ops[1..] == rest;
    assert [] + Expand(rest) == Expand(rest);
  }

  lemma {:induction false} RunWritten(m: nat, r: Run, i: nat, tail: seq<Op>)
    requires IsRun(m, r) && Spelled(r) && i <= |r| && Writable(tail, m, CoderAfter(m, r, |r|))
    ensures var ops, e, end := Phrases(r, i) + tail, CoderAfter(m, r, i), CoderAfter(m, r, |r|);
      && Writable(ops, m, e) && Write(ops, m, e) == RunBits(m, r, i) + Write(tail, m, end)
      && LastWidth(ops, m, e) == LastWidth(tail, m, end) && Expand(ops) == TextFrom(r, i) + Expand(tail)
    decreases |r| - i
  {
    hide DictAfter, WidthFor, Pow2, LittleEndian, IsRun, Writable, Write, LastWidth, Expand, Learn, Spelled, RunBits, TextFrom,
      Phrases;
    RunUnfolds(m, r, i);
    if i == |r| {
      assert [] + tail == tail;
    } else {
      CodeWritable(m, r, i);
      RunWritten(m, r, i + 1, tail);
      TextThere(r, i);
      PhraseFirst(r[i].code, r[i].text, Phrases(r, i + 1) + tail, m, CoderAfter(m, r, i));
      assert Phrases(r, i) + tail == [Phrase(r[i].code, r[i].text)] + (Phrases(r, i + 1) + tail);
    }
  }

  lemma RunUnfolds(m: nat, r: Run, i: nat)
    requires i <= |r|
    ensures if i == |r| then RunBits(m, r, i) == [] && TextFrom(r, i) == [] && Phrases(r, i) == []
      else
        && RunBits(m, r, i) == LittleEndian(r[i].code, WidthAfter(m, i)) + RunBits(m, r, i + 1)
        && TextFrom(r, i) == r[i].text + TextFrom(r, i + 1)
        && Phrases(r, i) == [Phrase(r[i].code, r[i].text)] + Phrases(r, i + 1)
  {
    hide LittleEndian, WidthFor, Pow2;
  }

  lemma NoOps(m: nat, e: Coder)
    ensures Writable([], m, e) && Write([], m, e) == [] && LastWidth([], m, e) == WidthFor(m, |e.dict|) && Expand([]) == []
  {
  }

  lemma TextThere(r: Run, i: nat)
    requires Spelled(r) && i < |r|
    ensures r[i].text != []
  {
  }

  /** From any state of the encoder: the runs are written so, and stand for their texts. */
  lemma {:induction false} RunsWritten(m: nat, runs: seq<Run>, e: Coder)
    requires forall k :: 0 <= k < |runs| ==> IsRun(m, runs[k])
    ensures Writable(Ops(runs), m, e) && Expand(Ops(runs)) == TextOf(runs)
    ensures Write(Ops(runs), m, e) + LittleEndian(Pow2(m) + 1, LastWidth(Ops(runs), m, e))
         == RasterBits(m, runs, WidthFor(m, |e.dict|))
    decreases |runs|
  {
    hide IsRun, WidthFor, Pow2, LittleEndian, FreshDict, DictAfter, RunBits, Phrases, TextFrom, Spelled,
      Writable, Write, LastWidth, Expand;
    if runs == [] {
      NoOps(m, e);
    } else {
      var r := runs[0];
      RunSpelled(m, r);
      RunsWritten(m, runs[1..], CoderAfter(m, r, |r|));
      RunWritten(m, r, 0, Ops(runs[1..]));
      ClearFirst(Phrases(r, 0) + Ops(runs[1..]), m, e);
      FirstCoder(m, r);
      var a, b := LittleEndian(Pow2(m), WidthFor(m, |e.dict|)), RunBits(m, r, 0);
      var c := Write(Ops(runs[1..]), m, CoderAfter(m, r, |r|));
      var end := LittleEndian(Pow2(m) + 1, LastWidth(Ops(runs), m, e));
      assert a + (b + c) + end == a + (b + (c + end));
    }
  }

  lemma FirstCoder(m: nat, r: Run)
    requires Spelled(r)
    ensures CoderAfter(m, r, 0) == Coder(FreshDict(m), [], true)
  {
  }

  /** Codes that stand in the bits of a raster are decoded to what they stand for. */
  lemma WelchDecodes(bits: Stream, m: nat, runs: seq<Run>)
    requires 2 <= m <= WIDEST && forall k :: 0 <= k < |runs| ==> IsRun(m, runs[k])
    requires Stands(bits, 0, RasterBits(m, runs, m + 1))
    ensures Encodes(Ops(runs), bits, 0, m, NewCoder(m)) && Expand(Ops(runs)) == TextOf(runs)
  {
    hide IsRun, Pow2, LittleEndian, RasterBits, Writable, Write, LastWidth, Expand, FreshDict, Stands, WidthFor;
    var e := NewCoder(m);
    WidenAtStart(m);
    RunsWritten(m, runs, e);
    StandsSplit(bits, 0, Write(Ops(runs), m, e), LittleEndian(Pow2(m) + 1, LastWidth(Ops(runs), m, e)));
  }
}
