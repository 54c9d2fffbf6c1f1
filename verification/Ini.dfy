/** INIReader and the string trimming it uses. The reader takes a text apart line by line; it is proved
    against a line-by-line specification, and that against a printer. */
module Ini {
  import opened Wrappers

  /** std::isspace in the "C" locale. */
  predicate IsSpace(c: char) {
    c == ' ' || c == '\t' || c == '\n' || c == '\r' || c as int == 11 || c as int == 12
  }

  // ---------------------------------------------------------------------------
  // Trimming

  ghost predicate Blank(s: string) {
    forall i :: 0 <= i < |s| ==> IsSpace(s[i])
  }

  /** No white space at either end. */
  ghost predicate Trimmed(s: string) {
    s == "" || (!IsSpace(s[0]) && !IsSpace(s[|s| - 1]))
  }

  function LeftTrimmed(s: string): (t: string)
    ensures t == "" || !IsSpace(t[0])
  {
    if s != "" && IsSpace(s[0]) then LeftTrimmed(s[1..]) else s
  }

  function RightTrimmed(s: string): (t: string)
    ensures t == "" || !IsSpace(t[|t| - 1])
    ensures t <= s
  {
    if s != "" && IsSpace(s[|s| - 1]) then RightTrimmed(s[..|s| - 1]) else s
  }

  function Trim(s: string): (t: string)
    ensures Trimmed(t)
  {
    RightTrimmed(LeftTrimmed(s))
  }

  lemma {:induction false} LeftPart(s: string)
    ensures |LeftTrimmed(s)| <= |s| && s[|s| - |LeftTrimmed(s)|..] == LeftTrimmed(s)
    ensures Blank(s[..|s| - |LeftTrimmed(s)|])
  {
    if s != "" && IsSpace(s[0]) {
      LeftPart(s[1..]);
      var n := |s| - |LeftTrimmed(s)|;
      assert s[1..][n - 1..] == s[n..];
      assert s[..n] == [s[0]] + s[1..][..n - 1];
    }
  }

  lemma {:induction false} RightPart(s: string)
    ensures Blank(s[|RightTrimmed(s)|..])
  {
    if s != "" && IsSpace(s[|s| - 1]) {
      RightPart(s[..|s| - 1]);
      assert s[|RightTrimmed(s)|..] == s[..|s| - 1][|RightTrimmed(s)|..] + [s[|s| - 1]];
    }
  }

  lemma {:induction false} LeftSkips(a: string, s: string)
    requires Blank(a)
    ensures LeftTrimmed(a + s) == LeftTrimmed(s)
  {
    if a == "" {
      assert a + s == s;
    } else {
      LeftSkips(a[1..], s);
      assert (a + s)[1..] == a[1..] + s;
    }
  }

  lemma {:induction false} RightSkips(s: string, b: string)
    requires Blank(b)
    ensures RightTrimmed(s + b) == RightTrimmed(s)
    decreases |b|
  {
    hide IsSpace;
    if b == "" {
      assert s + b == s;
    } else {
      var n := |s + b| - 1;
      RightSkips(s, b[..|b| - 1]);
      assert (s + b)[..n] == s + b[..|b| - 1];
      assert (s + b)[n] == b[|b| - 1] && IsSpace((s + b)[n]);
    }
  }

  /** White space around a trimmed text goes away. */
  lemma TrimOf(a: string, t: string, b: string)
    requires Blank(a) && Blank(b) && Trimmed(t)
    ensures Trim(a + t + b) == t
  {
    assert a + t + b == a + (t + b);
    LeftSkips(a, t + b);
    if t == "" {
      LeftSkips(b, "");
      assert b + "" == b == t + b;
    } else {
      RightSkips(t, b);
    }
  }

  /** t is Trim(s) exactly if t is trimmed and s is t between white space. */
  lemma TrimIff(s: string, t: string)
    ensures t == Trim(s) <==> Trimmed(t) && exists a, b :: Around(s, a, t, b)
  {
    hide LeftTrimmed, RightTrimmed, Blank, Trim;
    var a, b := TrimAround(s);
    if Trimmed(t) && exists a, b :: Around(s, a, t, b) {
      var a', b' :| Around(s, a', t, b');
      TrimOf(a', t, b');
    }
  }

  lemma TrimAround(s: string) returns (a: string, b: string)
    ensures Around(s, a, Trim(s), b)
  {
    hide LeftTrimmed, RightTrimmed, Blank;
    var l := LeftTrimmed(s);
    LeftPart(s);
    RightPart(l);
    a, b := s[..|s| - |l|], l[|Trim(s)|..];
    assert l == Trim(s) + b;
    assert s == a + l;
    assert a + (Trim(s) + b) == a + Trim(s) + b;
  }

  ghost predicate Around(s: string, a: string, t: string, b: string) {
    Blank(a) && Blank(b) && s == a + t + b
  }

  /** strings::left_trim */
  method LeftTrim(str: string) returns (r: string)
    ensures r == LeftTrimmed(str)
  {
    var i := 0;
    while i < |str| && IsSpace(str[i])
      invariant 0 <= i <= |str| && LeftTrimmed(str[i..]) == LeftTrimmed(str)
    {
      assert str[i..][1..] == str[i + 1..];
      i := i + 1;
    }
    r := str[i..];
  }

  /** strings::right_trim */
  method RightTrim(str: string) returns (r: string)
    ensures r == RightTrimmed(str)
  {
    var n := |str|;
    assert str[..n] == str;
    while n > 0 && IsSpace(str[n - 1])
      invariant 0 <= n <= |str| && RightTrimmed(str[..n]) == RightTrimmed(str)
    {
      assert str[..n][..n - 1] == str[..n - 1];
      n := n - 1;
    }
    r := str[..n];
  }

  /** strings::trim */
  method TrimString(str: string) returns (r: string)
    ensures r == Trim(str)
  {
    r := LeftTrim(str);
    r := RightTrim(r);
  }

  // ---------------------------------------------------------------------------
  // Lines

  /** Where c stands first, or the length. */
  function Index(s: string, c: char): (i: nat)
    ensures i <= |s| && (i < |s| ==> s[i] == c) && forall j :: 0 <= j < i ==> s[j] != c
  {
    if s == "" || s[0] == c then 0 else 1 + Index(s[1..], c)
  }

  /** The stream is made from a C string: it ends at the first NUL. */
  function CString(s: string): string {
    s[..Index(s, '\0')]
  }

  /** std::getline until there is nothing left: a newline at the very end starts no line. */
  function Lines(s: string): seq<string> {
    if s == "" then []
    else
      var i := Index(s, '\n');
      if i < |s| then [s[..i]] + Lines(s[i + 1..]) else [s]
  }

  datatype Line = Nothing | Header(section: string) | Entry(key: string, value: string) | NoBracket | Invalid

  function ParseLine(raw: string): Line {
    var line := Trim(raw);
    if line == "" || line[0] == ';' then Nothing
    else if line[0] == '[' then
      if line[|line| - 1] == ']' then Header(line[1..|line| - 1]) else NoBracket
    else
      var i := Index(line, '=');
      if i < |line| then Entry(Trim(line[..i]), Trim(line[i + 1..])) else Invalid
  }

  type ValueMap = map<string, string>
  type SectionMap = map<string, ValueMap>

  /** An error message names the line, counted from 1. */
  datatype Error = DoesNotEnd(line: nat) | InvalidLine(line: nat) | NoFile

  datatype State = State(section: string, sections: SectionMap, errors: seq<Error>)

  function Put(m: SectionMap, section: string, key: string, value: string): SectionMap {
    m[section := ValuesOf(m, section)[key := value]]
  }

  function Step(st: State, raw: string, index: nat): State {
    match ParseLine(raw)
    case Nothing => st
    case Header(section) => st.(section := section)
    case Entry(key, value) => st.(sections := Put(st.sections, st.section, key, value))
    case NoBracket => st.(errors := st.errors + [DoesNotEnd(index)])
    case Invalid => st.(errors := st.errors + [InvalidLine(index)])
  }

  function Run(st: State, lines: seq<string>, index: nat): State
    decreases |lines|
  {
    if lines == [] then st else Run(Step(st, lines[0], index + 1), lines[1..], index + 1)
  }

  function ParseText(content: string): State {
    Run(State("", map[], []), Lines(CString(content)), 0)
  }

  // ---------------------------------------------------------------------------

  class INIReader {
    var sectionMap: SectionMap
    var errors: seq<Error>

    constructor ()
      ensures sectionMap == map[] && errors == []
    {
      sectionMap, errors := map[], [];
    }

    /** INIReader::parse; content is None when the file cannot be read. */
    method Parse(content: Option<string>)
      modifies this
      ensures if content.None? then sectionMap == map[] && errors == [NoFile]
        else sectionMap == ParseText(content.value).sections && errors == ParseText(content.value).errors
    {
      sectionMap := map[];
      errors := [];
      if content.None? {
        errors := [NoFile];
        return;
      }
      ParseContent(content.value);
    }

    method ParseContent(content: string)
      modifies this
      ensures var st := Run(State("", old(sectionMap), old(errors)), Lines(CString(content)), 0);
        sectionMap == st.sections && errors == st.errors
    {
      hide ParseLine, Trim;
      var lineIndex, section := 0, "";
      var rest := content[..Index(content, '\0')];
      ghost var goal := Run(State("", sectionMap, errors), Lines(rest), 0);
      while rest != ""
        invariant Run(State(section, sectionMap, errors), Lines(rest), lineIndex) == goal
        decreases |rest|
      {
        var i := Index(rest, '\n');
        var line := rest[..i];
        ghost var lines := Lines(rest);
        assert lines[0] == line;
        rest := if i < |rest| then rest[i + 1..] else "";
        assert lines[1..] == Lines(rest);
        lineIndex := lineIndex + 1;
        section := ParseOne(line, section, lineIndex);
      }
    }

    /** One line. */
    method ParseOne(raw: string, section: string, lineIndex: nat) returns (section': string)
      modifies this
      ensures State(section', sectionMap, errors) == Step(State(section, old(sectionMap), old(errors)), raw, lineIndex)
    {
      hide Trim, IsSpace;
      section' := section;
      var line := TrimString(raw);
      if line == "" || line[0] == ';' {
        return;
      }
      if line[0] == '[' {
        if line[|line| - 1] != ']' {
          errors := errors + [DoesNotEnd(lineIndex)];
          return;
        }
        section' := line[1..|line| - 1];
        return;
      }
      var delimiterIndex := Index(line, '=');
      if delimiterIndex < |line| {
        var key := TrimString(line[..delimiterIndex]);
        var value := TrimString(line[delimiterIndex + 1..]);
        if section !in sectionMap {
          sectionMap := sectionMap[section := map[]];
        }
        sectionMap := sectionMap[section := sectionMap[section][key := value]];
        return;
      }
      errors := errors + [InvalidLine(lineIndex)];
    }

    /** Every section once, in the order of the hash table. */
    method GetSections() returns (sections: seq<string>)
      ensures Lists(sections, sectionMap.Keys)
    {
      sections := ListOf(sectionMap.Keys);
    }

    method GetKeys(section: string) returns (keys: Option<seq<string>>)
      ensures if section in sectionMap then keys.Some? && Lists(keys.value, sectionMap[section].Keys) else keys.None?
    {
      if section !in sectionMap {
        return None;
      }
      var list := ListOf(sectionMap[section].Keys);
      keys := Some(list);
    }

    method GetValue(section: string, key: string) returns (value: Option<string>)
      ensures value == if section in sectionMap && key in sectionMap[section] then Some(sectionMap[section][key]) else None
    {
      if section !in sectionMap {
        return None;
      }
      if key !in sectionMap[section] {
        return None;
      }
      value := Some(sectionMap[section][key]);
    }
  }

  /** Exactly these strings, each once, in any order. */
  ghost predicate Lists(list: seq<string>, all: set<string>) {
    (forall x :: x in list <==> x in all) && forall i, j :: 0 <= i < j < |list| ==> list[i] != list[j]
  }

  method ListOf(all: set<string>) returns (list: seq<string>)
    ensures Lists(list, all)
  {
    list := [];
    var rest := all;
    while rest != {}
      invariant rest <= all && Lists(list, all - rest)
      decreases rest
    {
      var x :| x in rest;
      list := list + [x];
      rest := rest - {x};
    }
  }

  // ---------------------------------------------------------------------------
  // Printing

  datatype Pair = Pair(key: string, value: string)
  datatype Section = Section(name: string, pairs: seq<Pair>)

  /** One section after the other, in any order the printer likes. */
  type Document = seq<Section>

  function PrintPairs(pairs: seq<Pair>): (lines: seq<string>) {
    if pairs == [] then [] else [pairs[0].key + "=" + pairs[0].value] + PrintPairs(pairs[1..])
  }

  function PrintLines(doc: Document): (lines: seq<string>) {
    if doc == [] then [] else ["[" + doc[0].name + "]"] + PrintPairs(doc[0].pairs) + PrintLines(doc[1..])
  }

  function Unlines(lines: seq<string>): string {
    if lines == [] then "" else lines[0] + "\n" + Unlines(lines[1..])
  }

  function Print(doc: Document): string {
    Unlines(PrintLines(doc))
  }

  /** A line of the text: neither newline nor NUL. */
  ghost predicate Plain(s: string) {
    forall i :: 0 <= i < |s| ==> s[i] != '\n' && s[i] != '\0'
  }

  /** What a line can give back as its key, and as its value. */
  ghost predicate KeyText(k: string) {
    Trimmed(k) && (k != "" ==> k[0] != '[' && k[0] != ';') && forall i :: 0 <= i < |k| ==> k[i] != '='
  }

  ghost predicate Printable(doc: Document) {
    && (forall i :: 0 <= i < |doc| ==> Plain(doc[i].name))
    && forall i, j :: 0 <= i < |doc| && 0 <= j < |doc[i].pairs| ==> PairPrintable(doc[i].pairs[j])
  }

  ghost predicate PairPrintable(p: Pair) {
    Plain(p.key) && Plain(p.value) && KeyText(p.key) && Trimmed(p.value)
  }

  /** The map a list of pairs stands for, later ones first. */
  function WithPairs(m: SectionMap, name: string, pairs: seq<Pair>): SectionMap
    decreases |pairs|
  {
    if pairs == [] then m else WithPairs(Put(m, name, pairs[0].key, pairs[0].value), name, pairs[1..])
  }

  function WithSections(m: SectionMap, doc: Document): SectionMap
    decreases |doc|
  {
    if doc == [] then m else WithSections(WithPairs(m, doc[0].name, doc[0].pairs), doc[1..])
  }

  // ---------------------------------------------------------------------------
  // Lines come back

  lemma {:induction false} IndexOf(a: string, c: char, b: string)
    requires forall i :: 0 <= i < |a| ==> a[i] != c
    ensures Index(a + [c] + b, c) == |a| && Index(a, c) == |a|
  {
    var s := a + [c] + b;
    if a != "" {
      IndexOf(a[1..], c, b);
      assert s[1..] == a[1..] + [c] + b;
    }
  }

  /** A line printed for key and value is read as this entry exactly if the key is trimmed, has no '=' and
      does not look like a header or a comment, and the value is trimmed. */
  lemma EntryBackIff(k: string, v: string)
    ensures ParseLine(k + "=" + v) == Entry(k, v) <==> KeyText(k) && Trimmed(v)
  {
    var raw := k + "=" + v;
    var line := Trim(raw);
    if KeyText(k) && Trimmed(v) {
      TrimmedLine(k, v);
      IndexOf(k, '=', v);
      assert line[..|k|] == k && line[|k| + 1..] == v;
      TrimSelf(k);
      TrimSelf(v);
    }
    if ParseLine(raw) == Entry(k, v) {
      EntryKey(k, v);
    }
  }

  lemma TrimSelf(t: string)
    requires Trimmed(t)
    ensures Trim(t) == t
  {
    TrimOf("", t, "");
    assert "" + t + "" == t;
  }

  lemma TrimmedLine(k: string, v: string)
    requires KeyText(k) && Trimmed(v)
    ensures Trim(k + "=" + v) == k + "=" + v
    ensures (k + "=" + v)[0] != ';' && (k + "=" + v)[0] != '['
  {
    TrimSelf(k + "=" + v);
  }

  /** What is left of the first '=' of a line is its key. */
  lemma EntryKey(k: string, v: string)
    requires ParseLine(k + "=" + v) == Entry(k, v)
    ensures KeyText(k) && Trimmed(v)
  {
    hide LeftTrimmed, RightTrimmed, Index, IsSpace;
    var raw := k + "=" + v;
    FrontKept(k, v);
    TrimShorter(Trim(raw)[..Index(Trim(raw), '=')]);
    KeyOfPrefix(k, v, Trim(raw), Index(Trim(raw), '='));
  }

  lemma TrimShorter(s: string)
    ensures |Trim(s)| <= |s|
  {
    LeftPart(s);
  }

  /** If the part in front of the first '=' is no shorter than k, it is k. */
  lemma KeyOfPrefix(k: string, v: string, line: string, i: nat)
    requires line <= k + "=" + v && line != "" && i < |line| && |k| <= i
    requires forall j :: 0 <= j < i ==> line[j] != '='
    ensures forall j :: 0 <= j < |k| ==> k[j] != '='
    ensures k != "" ==> line[0] == k[0]
  {
    var raw := k + "=" + v;
    forall j | 0 <= j < |k| ensures k[j] != '=' { assert raw[j] == k[j] == line[j]; }
    if k != "" { assert raw[0] == k[0]; }
  }

  lemma FrontKept(k: string, v: string)
    requires Trimmed(k)
    ensures Trim(k + "=" + v) <= k + "=" + v
  {
    var raw := k + "=" + v;
    assert !IsSpace(raw[0]);
    assert LeftTrimmed(raw) == raw;
  }

  lemma HeaderBack(name: string)
    ensures ParseLine("[" + name + "]") == Header(name)
  {
    var raw := "[" + name + "]";
    assert raw[|raw| - 1] == ']';
    TrimSelf(raw);
    assert raw[1..|raw| - 1] == name;
  }

  /** A line in front. */
  lemma LineBack(line: string, rest: string)
    requires Plain(line)
    ensures Lines(line + "\n" + rest) == [line] + Lines(rest)
  {
    hide Lines;
    var s := line + "\n" + rest;
    IndexOf(line, '\n', rest);
    assert s == line + ['\n'] + rest;
    assert s[..|line|] == line && s[|line| + 1..] == rest;
    LinesStep(s);
  }

  lemma LinesStep(s: string)
    requires Index(s, '\n') < |s|
    ensures Lines(s) == [s[..Index(s, '\n')]] + Lines(s[Index(s, '\n') + 1..])
  {
    hide Index;
  }

  /** Lines without newlines are what reading their text gives. */
  lemma {:induction false} LinesBack(lines: seq<string>)
    requires forall i :: 0 <= i < |lines| ==> Plain(lines[i])
    ensures Lines(Unlines(lines)) == lines && NulFree(Unlines(lines))
  {
    hide Plain, Lines, NulFree;
    if lines == [] {
      NothingBack();
    } else {
      var rest := Unlines(lines[1..]);
      LinesBack(lines[1..]);
      LineBack(lines[0], rest);
      NulFreeLine(lines[0], rest);
      assert [lines[0]] + lines[1..] == lines;
    }
  }

  ghost predicate NulFree(s: string) {
    forall i :: 0 <= i < |s| ==> s[i] != '\0'
  }

  lemma NothingBack()
    ensures Lines("") == [] && NulFree("")
  {
  }

  lemma NulFreeLine(line: string, rest: string)
    requires Plain(line) && NulFree(rest)
    ensures NulFree(line + "\n" + rest)
  {
  }

  lemma NoNul(s: string)
    requires NulFree(s)
    ensures CString(s) == s
  {
    IndexOf(s, '\0', "");
  }

  lemma {:induction false} RunJoin(st: State, a: seq<string>, b: seq<string>, index: nat)
    ensures Run(st, a + b, index) == Run(Run(st, a, index), b, index + |a|)
    decreases |a|
  {
    hide Step;
    if a == [] {
      assert a + b == b;
    } else {
      RunJoin(Step(st, a[0], index + 1), a[1..], b, index + 1);
      assert (a + b)[1..] == a[1..] + b;
    }
  }

  lemma {:induction false} PairsRead(st: State, pairs: seq<Pair>, index: nat)
    requires forall j :: 0 <= j < |pairs| ==> PairPrintable(pairs[j])
    ensures Run(st, PrintPairs(pairs), index) == st.(sections := WithPairs(st.sections, st.section, pairs))
    ensures forall i :: 0 <= i < |PrintPairs(pairs)| ==> Plain(PrintPairs(pairs)[i])
    decreases |pairs|
  {
    hide ParseLine, KeyText, Trimmed;
    if pairs != [] {
      var p := pairs[0];
      assert PairPrintable(p);
      EntryBackIff(p.key, p.value);
      PairsRead(Step(st, p.key + "=" + p.value, index + 1), pairs[1..], index + 1);
      assert PrintPairs(pairs)[1..] == PrintPairs(pairs[1..]);
    }
  }

  lemma {:induction false} SectionsRead(st: State, doc: Document, index: nat)
    requires Printable(doc)
    ensures Run(st, PrintLines(doc), index).sections == WithSections(st.sections, doc)
    ensures Run(st, PrintLines(doc), index).errors == st.errors
    ensures forall i :: 0 <= i < |PrintLines(doc)| ==> Plain(PrintLines(doc)[i])
    decreases |doc|
  {
    hide ParseLine, WithPairs, PrintPairs;
    if doc != [] {
      var d := doc[0];
      var head, body, tail := "[" + d.name + "]", PrintPairs(d.pairs), PrintLines(doc[1..]);
      HeaderBack(d.name);
      var st1 := st.(section := d.name);
      PairsRead(st1, d.pairs, index + 1);
      var st2 := st1.(sections := WithPairs(st.sections, d.name, d.pairs));
      SectionsRead(st2, doc[1..], index + 1 + |body|);
      assert PrintLines(doc) == [head] + (body + tail);
      assert PrintLines(doc)[1..] == body + tail;
      RunJoin(st1, body, tail, index + 1);
    }
  }

  /** Printing and parsing: the text of a document is read as the map it stands for, without errors. */
  lemma ParseInvertsPrint(doc: Document)
    requires Printable(doc)
    ensures ParseText(Print(doc)).sections == WithSections(map[], doc)
    ensures ParseText(Print(doc)).errors == []
  {
    var st := State("", map[], []);
    SectionsRead(st, doc, 0);
    LinesBack(PrintLines(doc));
    NoNul(Print(doc));
  }

  // ---------------------------------------------------------------------------
  // Every map can be printed

  function Merge<K, V>(a: map<K, V>, b: map<K, V>): map<K, V> {
    a + b
  }

  function Without<K, V>(b: map<K, V>, k: K): (r: map<K, V>)
    ensures r.Keys == b.Keys - {k} && forall x :: x in r ==> r[x] == b[x]
  {
    b - {k}
  }

  lemma TakeOne<K, V>(a: map<K, V>, b: map<K, V>, k: K)
    requires k in b
    ensures Merge(a[k := b[k]], Without(b, k)) == Merge(a, b)
  {
    var l, r := Merge(a[k := b[k]], Without(b, k)), Merge(a, b);
    assert l.Keys == r.Keys;
    forall x | x in l ensures l[x] == r[x] {}
  }

  lemma SmallerWithout<K, V>(b: map<K, V>, k: K)
    requires k in b
    ensures |Without(b, k)| < |b|
  {
    assert |Without(b, k)| == |Without(b, k).Keys|;
    assert |b| == |b.Keys|;
  }

  lemma MergeEmpty<K, V>(a: map<K, V>)
    ensures Merge(a, map[]) == a && Merge(map[], a) == a
  {
  }

  function ValuesOf(m: SectionMap, name: string): ValueMap {
    if name in m then m[name] else map[]
  }

  lemma {:induction false} PairsOf(m: SectionMap, name: string, values: ValueMap) returns (pairs: seq<Pair>)
    requires forall k :: k in values ==> PairPrintable(Pair(k, values[k]))
    ensures forall j :: 0 <= j < |pairs| ==> PairPrintable(pairs[j])
    ensures WithPairs(m, name, pairs) == if values == map[] then m else m[name := Merge(ValuesOf(m, name), values)]
    decreases |values|
  {
    hide PairPrintable, WithPairs, Merge, Without;
    pairs := [];
    if values == map[] {
      NoPairs(m, name);
    } else {
      var k :| k in values;
      TakeOne(ValuesOf(m, name), values, k);
      SmallerWithout(values, k);
      MergeEmpty(ValuesOf(m, name)[k := values[k]]);
      var n := Put(m, name, k, values[k]);
      var more := PairsOf(n, name, Without(values, k));
      pairs := [Pair(k, values[k])] + more;
      OnePair(m, name, Pair(k, values[k]), more);
    }
  }

  lemma NoPairs(m: SectionMap, name: string)
    ensures WithPairs(m, name, []) == m
  {
  }

  lemma OnePair(m: SectionMap, name: string, p: Pair, more: seq<Pair>)
    ensures WithPairs(m, name, [p] + more) == WithPairs(Put(m, name, p.key, p.value), name, more)
  {
    assert ([p] + more)[1..] == more;
  }

  /** Every map whose sections are not empty and whose texts a line can hold has a document. */
  lemma {:induction false} DocumentOf(base: SectionMap, m: SectionMap) returns (doc: Document)
    requires base.Keys !! m.Keys && MapPrintable(m)
    ensures Printable(doc) && WithSections(base, doc) == Merge(base, m)
    decreases |m|
  {
    hide PairPrintable, WithPairs, Plain, WithSections, Merge, Without, Printable, MapPrintable;
    doc := [];
    if m == map[] {
      MergeEmpty(base);
      NoSections(base);
    } else {
      var name :| name in m;
      TakeOne(base, m, name);
      SmallerWithout(m, name);
      SectionPrintable(m, name);
      var pairs := PairsOf(base, name, m[name]);
      MergeEmpty(m[name]);
      var more := DocumentOf(base[name := m[name]], Without(m, name));
      doc := [Section(name, pairs)] + more;
      OneSection(base, Section(name, pairs), more);
      SectionIsPrintable(Section(name, pairs));
    }
  }

  lemma SectionPrintable(m: SectionMap, name: string)
    requires MapPrintable(m) && name in m
    ensures Plain(name) && m[name] != map[] && forall k :: k in m[name] ==> PairPrintable(Pair(k, m[name][k]))
    ensures MapPrintable(Without(m, name))
  {
    hide PairPrintable, Plain;
  }

  lemma SectionIsPrintable(d: Section)
    requires Plain(d.name) && forall j :: 0 <= j < |d.pairs| ==> PairPrintable(d.pairs[j])
    ensures Printable([d])
  {
  }

  lemma NoSections(m: SectionMap)
    ensures WithSections(m, []) == m && Printable([])
  {
  }

  lemma OneSection(m: SectionMap, d: Section, more: Document)
    ensures WithSections(m, [d] + more) == WithSections(WithPairs(m, d.name, d.pairs), more)
    ensures Printable([d] + more) <==> Printable([d]) && Printable(more)
  {
    var all := [d] + more;
    assert all[1..] == more;
    if Printable(all) {
      assert all[0] == d;
      forall i, j | 0 <= i < |more| && 0 <= j < |more[i].pairs| ensures PairPrintable(more[i].pairs[j]) {
        assert all[i + 1] == more[i];
      }
      forall i | 0 <= i < |more| ensures Plain(more[i].name) { assert all[i + 1] == more[i]; }
    }
    if Printable([d]) && Printable(more) {
      forall i, j | 0 <= i < |all| && 0 <= j < |all[i].pairs| ensures PairPrintable(all[i].pairs[j]) {
        if i == 0 { assert [d][0].pairs[j] == all[0].pairs[j]; }
      }
      forall i | 0 <= i < |all| ensures Plain(all[i].name) { if i == 0 { assert [d][0] == all[0]; } }
    }
  }

  ghost predicate MapPrintable(m: SectionMap) {
    forall s :: s in m ==> Plain(s) && m[s] != map[] && forall k :: k in m[s] ==> PairPrintable(Pair(k, m[s][k]))
  }

  /** Printing and parsing is the identity on maps. */
  lemma MapComesBack(m: SectionMap) returns (doc: Document)
    requires MapPrintable(m)
    ensures Printable(doc) && ParseText(Print(doc)).sections == m && ParseText(Print(doc)).errors == []
  {
    doc := DocumentOf(map[], m);
    MergeEmpty(m);
    ParseInvertsPrint(doc);
  }

  // ---------------------------------------------------------------------------
  // Only such maps are parsed

  lemma TrimPlain(s: string)
    requires Plain(s)
    ensures Plain(Trim(s))
  {
    hide LeftTrimmed, RightTrimmed, Trim, Blank;
    var a, b := TrimAround(s);
    var t := Trim(s);
    forall i | 0 <= i < |t| ensures t[i] != '\n' && t[i] != '\0' { assert s[|a| + i] == t[i]; }
  }

  /** What is left of the '=' of a line that is neither a header nor a comment. */
  lemma TrimKey(s: string)
    requires s == "" || (!IsSpace(s[0]) && s[0] != '[' && s[0] != ';')
    requires forall i :: 0 <= i < |s| ==> s[i] != '='
    ensures KeyText(Trim(s))
  {
    assert LeftTrimmed(s) == s && Trim(s) <= s;
  }

  lemma {:induction false} LinesPlain(s: string)
    requires NulFree(s)
    ensures forall i :: 0 <= i < |Lines(s)| ==> Plain(Lines(s)[i])
    decreases |s|
  {
    if s != "" && Index(s, '\n') < |s| { LinesPlain(s[Index(s, '\n') + 1..]); }
  }

  ghost predicate StatePrintable(st: State) {
    Plain(st.section) && MapPrintable(st.sections)
  }

  lemma PutPrintable(m: SectionMap, section: string, key: string, value: string)
    requires MapPrintable(m) && Plain(section) && PairPrintable(Pair(key, value))
    ensures MapPrintable(Put(m, section, key, value))
  {
    hide PairPrintable, Plain;
    var n := Put(m, section, key, value);
    assert key in n[section];
  }

  lemma StepPrintable(st: State, raw: string, index: nat)
    requires StatePrintable(st) && Plain(raw)
    ensures StatePrintable(Step(st, raw, index))
  {
    hide MapPrintable, Trim, Put, KeyText;
    var line := Trim(raw);
    TrimPlain(raw);
    match ParseLine(raw)
    case Entry(key, value) =>
      var i := Index(line, '=');
      TrimPlain(line[..i]);
      TrimPlain(line[i + 1..]);
      TrimKey(line[..i]);
      PutPrintable(st.sections, st.section, key, value);
    case _ =>
  }

  lemma {:induction false} RunPrintable(st: State, lines: seq<string>, index: nat)
    requires StatePrintable(st) && forall i :: 0 <= i < |lines| ==> Plain(lines[i])
    ensures StatePrintable(Run(st, lines, index))
    decreases |lines|
  {
    hide StatePrintable, Plain, Step;
    if lines != [] {
      StepPrintable(st, lines[0], index + 1);
      RunPrintable(Step(st, lines[0], index + 1), lines[1..], index + 1);
    }
  }

  /** The maps that some text is parsed to are exactly those without empty sections whose names are lines,
      and whose keys and values a line can hold. */
  lemma ParsedIff(m: SectionMap)
    ensures (exists text :: ParseText(text).sections == m) <==> MapPrintable(m)
  {
    hide Lines, Run;
    if text :| ParseText(text).sections == m {
      LinesPlain(CString(text));
      RunPrintable(State("", map[], []), Lines(CString(text)), 0);
    }
    if MapPrintable(m) {
      var doc := MapComesBack(m);
    }
  }

  // ---------------------------------------------------------------------------
  // What one line does, wherever it stands

  /** The white space of the "C" locale: blank, and the codes 9 to 13. */
  lemma IsSpaceIff(c: char)
    ensures IsSpace(c) <==> c as int == 32 || 9 <= c as int <= 13
  {
  }

  /** Whole lines without NUL. */
  ghost predicate WholeLines(text: string) {
    NulFree(text) && (text == "" || text[|text| - 1] == '\n')
  }

  /** The number of the line that follows. */
  ghost function NextLine(text: string): nat {
    multiset(text)['\n'] + 1
  }

  /** What is behind a NUL is not read. */
  lemma NulEnds(text: string, rest: string)
    requires NulFree(text)
    ensures ParseText(text + "\0" + rest) == ParseText(text)
  {
    hide Lines, Run, Index;
    NoNul(text);
    assert text + "\0" + rest == text + ("\0" + rest);
    IndexBehind(text, '\0', "\0" + rest);
    NulFirst(rest);
  }

  lemma NulFirst(rest: string)
    ensures Index("\0" + rest, '\0') == 0
  {
  }

  lemma {:induction false} LinesJoin(text: string, rest: string)
    requires WholeLines(text)
    ensures Lines(text + rest) == Lines(text) + Lines(rest) && |Lines(text)| == multiset(text)['\n']
    decreases |text|
  {
    hide Lines, Index;
    if text == "" {
      NothingBack();
      assert text + rest == rest;
    } else {
      var line, more := FirstLine(text);
      LinesJoin(more, rest);
      LineBack(line, more);
      LineBack(line, more + rest);
      assert line + "\n" + (more + rest) == text + rest;
      NoNewline(line);
    }
  }

  lemma FirstLine(text: string) returns (line: string, more: string)
    requires WholeLines(text) && text != ""
    ensures text == line + "\n" + more && Plain(line) && WholeLines(more)
  {
    var i := Index(text, '\n');
    assert text[|text| - 1] == '\n';
    line, more := text[..i], text[i + 1..];
    assert text == line + "\n" + more;
  }

  lemma {:induction false} NoNewline(line: string)
    requires Plain(line)
    ensures multiset(line)['\n'] == 0
  {
    assert '\n' !in line;
  }

  lemma CStringJoin(text: string, rest: string)
    requires NulFree(text)
    ensures CString(text + rest) == text + CString(rest)
  {
    hide Index;
    IndexBehind(text, '\0', rest);
  }

  lemma {:induction false} IndexBehind(a: string, c: char, b: string)
    requires forall i :: 0 <= i < |a| ==> a[i] != c
    ensures Index(a + b, c) == |a| + Index(b, c)
  {
    if a == "" {
      assert a + b == b;
    } else {
      IndexBehind(a[1..], c, b);
      assert (a + b)[1..] == a[1..] + b;
    }
  }

  /** Reading goes on with the state that the lines before have left. */
  lemma ParseGoesOn(text: string, rest: string)
    requires WholeLines(text)
    ensures ParseText(text + rest) == Run(ParseText(text), Lines(CString(rest)), multiset(text)['\n'])
  {
    hide Lines, Run, CString;
    CStringJoin(text, rest);
    NoNul(text);
    LinesJoin(text, CString(rest));
    RunJoin(State("", map[], []), Lines(text), Lines(CString(rest)), 0);
  }

  /** One more line. */
  lemma ParseLineNext(text: string, line: string, rest: string)
    requires WholeLines(text) && Plain(line)
    ensures WholeLines(text + line + "\n") && multiset(text + line + "\n")['\n'] == multiset(text)['\n'] + 1
    ensures ParseText(text + line + "\n") == Step(ParseText(text), line, NextLine(text))
  {
    hide Lines, ParseLine, CString, Plain;
    assert text + line + "\n" == text + (line + "\n" + "");
    ParseGoesOn(text, line + "\n" + "");
    NothingBack();
    NulFreeLine(line, "");
    NoNul(line + "\n" + "");
    LineBack(line, "");
    NulFreeJoin(text, line + "\n" + "");
    NoNewline(line);
    assert [line][1..] == [];
  }

  lemma NulFreeJoin(a: string, b: string)
    ensures NulFree(a + b) <==> NulFree(a) && NulFree(b)
  {
    if NulFree(a + b) {
      forall i | 0 <= i < |a| ensures a[i] != '\0' { assert (a + b)[i] == a[i]; }
      forall i | 0 <= i < |b| ensures b[i] != '\0' { assert (a + b)[|a| + i] == b[i]; }
    }
  }

  /** A line of white space, or with a semicolon behind it. */
  ghost predicate IsRemark(line: string) {
    exists k :: 0 <= k <= |line| && Blank(line[..k]) && (k == |line| || line[k] == ';')
  }

  /** The text between the white space at the ends of a line. */
  ghost predicate Bears(line: string, body: string) {
    Trimmed(body) && exists a, b :: Around(line, a, body, b)
  }

  lemma RemarkIsNothing(line: string)
    requires IsRemark(line)
    ensures ParseLine(line) == Nothing
  {
    hide IsSpace, LeftTrimmed;
    var k :| 0 <= k <= |line| && Blank(line[..k]) && (k == |line| || line[k] == ';');
    assert line == line[..k] + line[k..];
    LeftSkips(line[..k], line[k..]);
    SemicolonStays(line[k..]);
  }

  lemma SemicolonStays(s: string)
    requires s == "" || s[0] == ';'
    ensures LeftTrimmed(s) == s && RightTrimmed(s) <= s && (s != "" ==> RightTrimmed(s) != "")
  {
    if s != "" && RightTrimmed(s) == "" { RightPart(s); }
  }

  /** A remark changes nothing. */
  lemma RemarkSkipped(text: string, line: string)
    requires WholeLines(text) && Plain(line) && IsRemark(line)
    ensures ParseText(text + line + "\n") == ParseText(text)
  {
    hide Lines, Run, ParseLine, CString, IsRemark;
    ParseLineNext(text, line, "");
    RemarkIsNothing(line);
  }

  /** A line in brackets opens its section. */
  lemma HeaderOpens(text: string, line: string, name: string)
    requires WholeLines(text) && Plain(line) && Bears(line, "[" + name + "]")
    ensures ParseText(text + line + "\n") == ParseText(text).(section := name)
  {
    hide Lines, Run, CString, Trim, Trimmed;
    ParseLineNext(text, line, "");
    TrimIff(line, "[" + name + "]");
    assert ("[" + name + "]")[1..|name| + 1] == name;
  }

  /** A line with a bracket that does not end is an error with its number, and nothing else. */
  lemma BracketReported(text: string, line: string, body: string)
    requires WholeLines(text) && Plain(line) && Bears(line, body)
    requires body != "" && body[0] == '[' && body[|body| - 1] != ']'
    ensures var st := ParseText(text);
      ParseText(text + line + "\n") == st.(errors := st.errors + [DoesNotEnd(NextLine(text))])
  {
    hide Lines, Run, CString, Trim, Trimmed;
    ParseLineNext(text, line, "");
    TrimIff(line, body);
  }

  /** A line that is nothing of all this is an error with its number, and nothing else. */
  lemma InvalidReported(text: string, line: string, body: string)
    requires WholeLines(text) && Plain(line) && Bears(line, body)
    requires body != "" && body[0] != '[' && body[0] != ';' && forall i :: 0 <= i < |body| ==> body[i] != '='
    ensures var st := ParseText(text);
      ParseText(text + line + "\n") == st.(errors := st.errors + [InvalidLine(NextLine(text))])
  {
    hide Lines, Run, CString, Trim, Trimmed;
    ParseLineNext(text, line, "");
    TrimIff(line, body);
  }

  /** A line with an equals sign sets a key of the current section, which is added if it is new, and
      touches no other key. */
  lemma EntrySets(text: string, line: string, key: string, value: string, a: string, b: string)
    requires WholeLines(text) && Plain(line) && KeyText(key) && Trimmed(value) && Blank(a) && Blank(b)
    requires Bears(line, key + a + "=" + b + value)
    ensures var st, st' := ParseText(text), ParseText(text + line + "\n");
      && st'.section == st.section && st'.errors == st.errors
      && st'.sections.Keys == st.sections.Keys + {st.section}
      && (forall s :: s in st.sections && s != st.section ==> st'.sections[s] == st.sections[s])
      && st'.sections[st.section] == (if st.section in st.sections then st.sections[st.section] else map[])[key := value]
  {
    hide Lines, Run, CString, ParseLine, KeyText, Trimmed, Blank, Bears;
    ParseLineNext(text, line, "");
    EntryIs(line, key, value, a, b);
  }

  lemma EntryIs(line: string, key: string, value: string, a: string, b: string)
    requires KeyText(key) && Trimmed(value) && Blank(a) && Blank(b) && Bears(line, key + a + "=" + b + value)
    ensures ParseLine(line) == Entry(key, value)
  {
    hide Trim, Trimmed, Blank, KeyText, Index;
    TrimIff(line, key + a + "=" + b + value);
    EntryParts(key, a, b, value);
  }

  lemma EntryParts(key: string, a: string, b: string, value: string)
    requires KeyText(key) && Trimmed(value) && Blank(a) && Blank(b) && Trimmed(key + a + "=" + b + value)
    ensures var body := key + a + "=" + b + value; var i := Index(body, '=');
      && body != "" && body[0] != '[' && body[0] != ';' && i < |body|
      && Trim(body[..i]) == key && Trim(body[i + 1..]) == value
  {
    hide Index, Trim;
    var body, left := key + a + "=" + b + value, key + a;
    NoEquals(key, a);
    assert body == left + ['='] + (b + value);
    IndexOf(left, '=', b + value);
    assert body[..|left|] == left == "" + key + a && body[|left| + 1..] == b + value == b + value + "";
    TrimOf("", key, a);
    TrimOf(b, value, "");
    if key == "" { BlankFirst(a, "=" + b + value, body); }
  }

  lemma NoEquals(key: string, a: string)
    requires KeyText(key) && Blank(a)
    ensures forall i :: 0 <= i < |key + a| ==> (key + a)[i] != '='
  {
    forall i | 0 <= i < |key + a| ensures (key + a)[i] != '=' { if i >= |key| { assert IsSpace(a[i - |key|]); } }
  }

  lemma BlankFirst(a: string, b: string, body: string)
    requires Blank(a) && b != "" && b[0] == '=' && body == a + b
    ensures body[0] != '[' && body[0] != ';'
  {
    if a != "" { assert IsSpace(a[0]); }
  }

  // ---------------------------------------------------------------------------
  // A line in the middle

  function Later(errors: seq<Error>): (r: seq<Error>)
    ensures |r| == |errors|
  {
    seq(|errors|, i requires 0 <= i < |errors| =>
      match errors[i] case DoesNotEnd(n) => DoesNotEnd(n + 1) case InvalidLine(n) => InvalidLine(n + 1) case NoFile => NoFile)
  }

  /** A remark put between two lines changes no section, and of the errors only the numbers of the lines
      behind it. */
  lemma RemarkInserted(text: string, line: string, rest: string) returns (errors: seq<Error>)
    requires WholeLines(text) && Plain(line) && IsRemark(line)
    ensures ParseText(text + line + "\n" + rest).sections == ParseText(text + rest).sections
    ensures ParseText(text + rest).errors == ParseText(text).errors + errors
    ensures ParseText(text + line + "\n" + rest).errors == ParseText(text).errors + Later(errors)
  {
    hide ParseText, IsRemark, Later;
    RemarkSkipped(text, line);
    errors := LineInserted(text, line, rest, []);
    assert ParseText(text).errors + [] + Later(errors) == ParseText(text).errors + Later(errors);
  }

  /** A line that is an error, put between two lines, changes no section, and is reported between the errors
      before and those behind it. */
  lemma ErrorInserted(text: string, line: string, body: string, rest: string) returns (errors: seq<Error>)
    requires WholeLines(text) && Plain(line) && Bears(line, body) && body != ""
    requires if body[0] == '[' then body[|body| - 1] != ']' else body[0] != ';' && forall i :: 0 <= i < |body| ==> body[i] != '='
    ensures ParseText(text + line + "\n" + rest).sections == ParseText(text + rest).sections
    ensures ParseText(text + rest).errors == ParseText(text).errors + errors
    ensures ParseText(text + line + "\n" + rest).errors == ParseText(text).errors
      + [if body[0] == '[' then DoesNotEnd(NextLine(text)) else InvalidLine(NextLine(text))] + Later(errors)
  {
    hide ParseText, Later;
    if body[0] == '[' {
      BracketReported(text, line, body);
      errors := LineInserted(text, line, rest, [DoesNotEnd(NextLine(text))]);
    } else {
      InvalidReported(text, line, body);
      errors := LineInserted(text, line, rest, [InvalidLine(NextLine(text))]);
    }
  }

  /** A line that only reports errors, put between two lines. */
  lemma LineInserted(text: string, line: string, rest: string, reported: seq<Error>) returns (errors: seq<Error>)
    requires WholeLines(text) && Plain(line)
    requires ParseText(text + line + "\n") == ParseText(text).(errors := ParseText(text).errors + reported)
    ensures ParseText(text + line + "\n" + rest).sections == ParseText(text + rest).sections
    ensures ParseText(text + rest).errors == ParseText(text).errors + errors
    ensures ParseText(text + line + "\n" + rest).errors == ParseText(text).errors + reported + Later(errors)
  {
    hide Lines, ParseLine, CString, Later, Run;
    ParseLineNext(text, line, rest);
    ParseGoesOn(text, rest);
    ParseGoesOn(text + line + "\n", rest);
    var st, st', lines, n := ParseText(text), ParseText(text + line + "\n"), Lines(CString(rest)), multiset(text)['\n'];
    errors := ErrorsFrom(lines, n);
    RunErrors(st, lines, n);
    RunErrors(st', lines, n + 1);
    ErrorsLater(lines, n);
    RunSame(st, st', lines, n, n + 1);
  }

  /** The errors of these lines. */
  ghost function ErrorsFrom(lines: seq<string>, index: nat): (errors: seq<Error>) {
    if lines == [] then [] else ErrorOf(lines[0], index + 1) + ErrorsFrom(lines[1..], index + 1)
  }

  ghost function ErrorOf(line: string, index: nat): (errors: seq<Error>)
    ensures |errors| <= 1 && forall e :: e in errors ==> e == DoesNotEnd(index) || e == InvalidLine(index)
  {
    match ParseLine(line)
    case NoBracket => [DoesNotEnd(index)]
    case Invalid => [InvalidLine(index)]
    case _ => []
  }

  lemma {:induction false} RunErrors(st: State, lines: seq<string>, index: nat)
    ensures Run(st, lines, index).errors == st.errors + ErrorsFrom(lines, index)
    decreases |lines|
  {
    hide ParseLine;
    if lines != [] { RunErrors(Step(st, lines[0], index + 1), lines[1..], index + 1); }
  }

  lemma {:induction false} RunSame(st: State, st': State, lines: seq<string>, index: nat, index': nat)
    requires st.section == st'.section && st.sections == st'.sections
    ensures Run(st, lines, index).section == Run(st', lines, index').section
    ensures Run(st, lines, index).sections == Run(st', lines, index').sections
    decreases |lines|
  {
    hide ParseLine, Put;
    if lines != [] {
      RunSame(Step(st, lines[0], index + 1), Step(st', lines[0], index' + 1), lines[1..], index + 1, index' + 1);
    }
  }

  lemma LaterJoin(a: seq<Error>, b: seq<Error>)
    ensures Later(a + b) == Later(a) + Later(b)
  {
  }

  lemma {:induction false} ErrorsLater(lines: seq<string>, index: nat)
    ensures ErrorsFrom(lines, index + 1) == Later(ErrorsFrom(lines, index))
    decreases |lines|
  {
    hide ParseLine;
    if lines != [] {
      ErrorsLater(lines[1..], index + 1);
      LaterJoin(ErrorOf(lines[0], index + 1), ErrorsFrom(lines[1..], index + 1));
    }
  }
}
