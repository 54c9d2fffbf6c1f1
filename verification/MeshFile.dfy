/** The binary form of a static mesh: export_static_mesh_optimised and import_static_mesh_optimised.
    Floats are the four bytes they occupy; all numbers are little-endian, as the machine stores them. */
module MeshFile {
  import opened Wrappers
  import opened Bits

  type Word = w: int | 0 <= w < 0x1_0000_0000

  datatype Vec3 = Vec3(x: Word, y: Word, z: Word)
  datatype Vec2 = Vec2(x: Word, y: Word)
  datatype Submesh = Submesh(indexOffset: Word, indexCount: Word)

  datatype StaticMesh = StaticMesh(positions: seq<Vec3>, normals: seq<Vec3>, texCoords: seq<Vec2>,
                                   triangles: seq<Word>, submeshes: seq<Submesh>)

  // ---------------------------------------------------------------------------
  // Numbers

  function Bytes(v: nat, n: nat): (b: seq<byte>)
    ensures |b| == n
    decreases n
  {
    if n == 0 then [] else [v % 256] + Bytes(v / 256, n - 1)
  }

  /** Bytes past the end of the file leave zeros. */
  function NumberAt(data: seq<byte>, p: nat, n: nat): (v: nat)
    decreases n
  {
    if n == 0 then 0 else ByteAt(data, p) + 256 * NumberAt(data, p + 1, n - 1)
  }

  function Range(n: nat): (r: nat)
    ensures r > 0
  {
    if n == 0 then 1 else 256 * Range(n - 1)
  }

  lemma {:induction false} NumberRange(data: seq<byte>, p: nat, n: nat)
    ensures NumberAt(data, p, n) < Range(n)
    decreases n
  {
    if n > 0 { NumberRange(data, p + 1, n - 1); }
  }

  /** The bytes s stand in the file at p. */
  ghost predicate Holds(data: seq<byte>, p: nat, s: seq<byte>) {
    p + |s| <= |data| && data[p..p + |s|] == s
  }

  lemma HoldsSplit(data: seq<byte>, p: nat, a: seq<byte>, b: seq<byte>)
    ensures Holds(data, p, a + b) <==> Holds(data, p, a) && Holds(data, p + |a|, b)
  {
    var c := a + b;
    if Holds(data, p, c) {
      assert data[p..p + |a|] == data[p..p + |c|][..|a|] == c[..|a|] == a;
      assert data[p + |a|..p + |c|] == data[p..p + |c|][|a|..] == c[|a|..] == b;
    }
    if Holds(data, p, a) && Holds(data, p + |a|, b) {
      assert data[p..p + |c|] == data[p..p + |a|] + data[p + |a|..p + |c|];
    }
  }

  lemma {:induction false} NumberBack(data: seq<byte>, p: nat, v: nat, n: nat)
    requires v < Range(n) && Holds(data, p, Bytes(v, n))
    ensures NumberAt(data, p, n) == v
    decreases n
  {
    if n > 0 {
      HoldsSplit(data, p, [v % 256], Bytes(v / 256, n - 1));
      NumberBack(data, p + 1, v / 256, n - 1);
      assert data[p..p + 1] == [v % 256];
    }
  }

  lemma Ranges()
    ensures Range(1) == 256 && Range(4) == 0x1_0000_0000 && Range(8) == 0x1_0000_0000_0000_0000
  {
    assert Range(2) == 65536 && Range(3) == 16777216;
    assert Range(5) == 256 * Range(4) && Range(6) == 256 * Range(5) && Range(7) == 256 * Range(6);
  }

  function WordAt(data: seq<byte>, p: nat): Word {
    NumberRange(data, p, 4);
    Ranges();
    NumberAt(data, p, 4)
  }

  function Vec3Bytes(v: Vec3): seq<byte> { Bytes(v.x, 4) + Bytes(v.y, 4) + Bytes(v.z, 4) }
  function Vec2Bytes(v: Vec2): seq<byte> { Bytes(v.x, 4) + Bytes(v.y, 4) }
  function WordBytes(v: Word): seq<byte> { Bytes(v, 4) }
  function SubmeshBytes(v: Submesh): seq<byte> { Bytes(v.indexOffset, 4) + Bytes(v.indexCount, 4) }

  function Vec3At(data: seq<byte>, p: nat): Vec3 { Vec3(WordAt(data, p), WordAt(data, p + 4), WordAt(data, p + 8)) }
  function Vec2At(data: seq<byte>, p: nat): Vec2 { Vec2(WordAt(data, p), WordAt(data, p + 4)) }
  function SubmeshAt(data: seq<byte>, p: nat): Submesh { Submesh(WordAt(data, p), WordAt(data, p + 4)) }

  // ---------------------------------------------------------------------------
  // Vectors

  function All<T>(bytes: T -> seq<byte>, s: seq<T>): seq<byte> {
    if s == [] then [] else All(bytes, s[..|s| - 1]) + bytes(s[|s| - 1])
  }

  function AllAt<T>(at: (seq<byte>, nat) -> T, size: nat, data: seq<byte>, p: nat, n: nat): (s: seq<T>)
    ensures |s| == n
  {
    if n == 0 then [] else AllAt(at, size, data, p, n - 1) + [at(data, p + Ix(n - 1, size))]
  }

  /** `at` reads what `bytes` writes, in `size` bytes. */
  ghost predicate Inverse<T(!new)>(bytes: T -> seq<byte>, at: (seq<byte>, nat) -> T, size: nat) {
    forall t :: ReadsBack(bytes, at, size, t)
  }

  ghost predicate ReadsBack<T>(bytes: T -> seq<byte>, at: (seq<byte>, nat) -> T, size: nat, t: T) {
    && |bytes(t)| == size
    && forall data: seq<byte>, p: nat :: Holds(data, p, bytes(t)) ==> at(data, p) == t
  }

  lemma {:induction false} AllBack<T(!new)>(bytes: T -> seq<byte>, at: (seq<byte>, nat) -> T, size: nat, s: seq<T>, data: seq<byte>, p: nat)
    requires Inverse(bytes, at, size)
    ensures |All(bytes, s)| == Ix(|s|, size)
    ensures Holds(data, p, All(bytes, s)) ==> AllAt(at, size, data, p, |s|) == s
    decreases |s|
  {
    hide Ix;
    IxStep(0, size);
    if s != [] {
      var n := |s| - 1;
      assert ReadsBack(bytes, at, size, s[n]);
      AllBack(bytes, at, size, s[..n], data, p);
      HoldsSplit(data, p, All(bytes, s[..n]), bytes(s[n]));
      IxStep(n, size);
    }
  }

  lemma Inverses()
    ensures Inverse(Vec3Bytes, Vec3At, 12) && Inverse(Vec2Bytes, Vec2At, 8)
    ensures Inverse(WordBytes, WordAt, 4) && Inverse(SubmeshBytes, SubmeshAt, 8)
  {
    hide Bytes, WordAt, Holds;
    forall v: Word ensures ReadsBack(WordBytes, WordAt, 4, v) {
      forall data: seq<byte>, p: nat | Holds(data, p, WordBytes(v)) ensures WordAt(data, p) == v {
        WordBack(v, data, p);
      }
    }
    forall v: Vec3 ensures ReadsBack(Vec3Bytes, Vec3At, 12, v) {
      forall data: seq<byte>, p: nat | Holds(data, p, Vec3Bytes(v)) ensures Vec3At(data, p) == v {
        HoldsSplit(data, p, Bytes(v.x, 4) + Bytes(v.y, 4), Bytes(v.z, 4));
        TwoWordsBack(v.x, v.y, data, p);
        WordBack(v.z, data, p + 8);
      }
    }
    forall v: Vec2 ensures ReadsBack(Vec2Bytes, Vec2At, 8, v) {
      forall data: seq<byte>, p: nat | Holds(data, p, Vec2Bytes(v)) ensures Vec2At(data, p) == v {
        TwoWordsBack(v.x, v.y, data, p);
      }
    }
    forall v: Submesh ensures ReadsBack(SubmeshBytes, SubmeshAt, 8, v) {
      forall data: seq<byte>, p: nat | Holds(data, p, SubmeshBytes(v)) ensures SubmeshAt(data, p) == v {
        TwoWordsBack(v.indexOffset, v.indexCount, data, p);
      }
    }
  }

  lemma TwoWordsBack(v: Word, w: Word, data: seq<byte>, p: nat)
    requires Holds(data, p, Bytes(v, 4) + Bytes(w, 4))
    ensures WordAt(data, p) == v && WordAt(data, p + 4) == w
  {
    HoldsSplit(data, p, Bytes(v, 4), Bytes(w, 4));
    WordBack(v, data, p);
    WordBack(w, data, p + 4);
  }

  lemma WordBack(v: Word, data: seq<byte>, p: nat)
    ensures Holds(data, p, Bytes(v, 4)) ==> WordAt(data, p) == v
  {
    Ranges();
    if Holds(data, p, Bytes(v, 4)) { NumberBack(data, p, v, 4); }
  }

  // ---------------------------------------------------------------------------
  // The file

  /** A count of `width` bytes, cut off to what fits there, and all the elements. */
  function Section<T>(bytes: T -> seq<byte>, s: seq<T>, width: nat): seq<byte> {
    Bytes(|s| % Range(width), width) + All(bytes, s)
  }

  /** Lengths are 64-bit numbers, but the number of submeshes is one byte. */
  function Encode(m: StaticMesh): seq<byte> {
    Section(Vec3Bytes, m.positions, 8) + Section(Vec3Bytes, m.normals, 8) + Section(Vec2Bytes, m.texCoords, 8)
    + Section(WordBytes, m.triangles, 8) + Section(SubmeshBytes, m.submeshes, 1)
  }

  datatype Part<T> = Part(items: seq<T>, next: nat)

  function PartAt<T>(at: (seq<byte>, nat) -> T, size: nat, data: seq<byte>, p: nat, width: nat): Part<T> {
    var n := NumberAt(data, p, width);
    Part(AllAt(at, size, data, p + width, n), p + width + Ix(n, size))
  }

  /** The mesh in the file at p, and where it ends. The importer counts with 32 bits: a longer vector is
      not read, its loop would not end. */
  function Decode(data: seq<byte>, p: nat): Option<(StaticMesh, nat)> {
    var a := PartAt(Vec3At, 12, data, p, 8);
    if |a.items| >= 0x1_0000_0000 then None else
    var b := PartAt(Vec3At, 12, data, a.next, 8);
    if |b.items| >= 0x1_0000_0000 then None else
    var c := PartAt(Vec2At, 8, data, b.next, 8);
    if |c.items| >= 0x1_0000_0000 then None else
    var d := PartAt(WordAt, 4, data, c.next, 8);
    if |d.items| >= 0x1_0000_0000 then None else
    var e := PartAt(SubmeshAt, 8, data, d.next, 1);
    Some((StaticMesh(a.items, b.items, c.items, d.items, e.items), e.next))
  }

  /** Vectors as the importer can count them. */
  ghost predicate Countable(m: StaticMesh) {
    && |m.positions| < 0x1_0000_0000 && |m.normals| < 0x1_0000_0000
    && |m.texCoords| < 0x1_0000_0000 && |m.triangles| < 0x1_0000_0000
  }

  /** A section comes back as far as its count goes. */
  lemma SectionBack<T(!new)>(bytes: T -> seq<byte>, at: (seq<byte>, nat) -> T, size: nat, s: seq<T>, width: nat, data: seq<byte>, p: nat)
    requires Inverse(bytes, at, size) && Holds(data, p, Section(bytes, s, width))
    ensures var n := |s| % Range(width);
      n <= |s| && |Section(bytes, s, width)| == width + Ix(|s|, size)
      && PartAt(at, size, data, p, width) == Part(s[..n], p + width + Ix(n, size))
  {
    hide Ix, All, AllAt, Bytes, Holds, Inverse, Range, NumberAt;
    var n := |s| % Range(width);
    CountFits(|s|, Range(width));
    HoldsSplit(data, p, Bytes(n, width), All(bytes, s));
    NumberBack(data, p, n, width);
    AllBack(bytes, at, size, s, data, p + width);
    AllBack(bytes, at, size, s[..n], data, p + width);
    AllPrefix(bytes, s, n);
    HoldsSplit(data, p + width, All(bytes, s[..n]), All(bytes, s)[|All(bytes, s[..n])|..]);
    assert All(bytes, s) == All(bytes, s[..n]) + All(bytes, s)[|All(bytes, s[..n])|..];
  }

  lemma CountFits(n: nat, r: nat)
    requires r > 0
    ensures n % r <= n && n % r < r && (n % r == n <==> n < r)
  {
    if n < r { DivModUnique(0, r, n); }
  }

  lemma {:induction false} AllPrefix<T>(bytes: T -> seq<byte>, s: seq<T>, n: nat)
    requires n <= |s|
    ensures All(bytes, s[..n]) <= All(bytes, s)
    decreases |s|
  {
    if n == |s| {
      assert s[..n] == s;
    } else {
      AllPrefix(bytes, s[..|s| - 1], n);
      assert s[..|s| - 1][..n] == s[..n];
    }
  }

  /** What the exporter wrote is what the importer reads, from any place of a file; only submeshes from
      number 256 on are not all counted. */
  lemma ImportInvertsExport(m: StaticMesh, data: seq<byte>, p: nat)
    requires Countable(m) && Holds(data, p, Encode(m))
    ensures var n := |m.submeshes| % 256;
      n <= |m.submeshes|
      && Decode(data, p) == Some((m.(submeshes := m.submeshes[..n]), p + |Encode(m)| - Ix(|m.submeshes| - n, 8)))
  {
    hide Section, PartAt, Inverse, Ix, Holds;
    Inverses();
    Ranges();
    var s1, s2 := Section(Vec3Bytes, m.positions, 8), Section(Vec3Bytes, m.normals, 8);
    var s3, s4, s5 := Section(Vec2Bytes, m.texCoords, 8), Section(WordBytes, m.triangles, 8), Section(SubmeshBytes, m.submeshes, 1);
    HoldsSplit(data, p, s1 + s2 + s3 + s4, s5);
    HoldsSplit(data, p, s1 + s2 + s3, s4);
    HoldsSplit(data, p, s1 + s2, s3);
    HoldsSplit(data, p, s1, s2);
    CountFits(|m.positions|, Range(8));
    CountFits(|m.normals|, Range(8));
    CountFits(|m.texCoords|, Range(8));
    CountFits(|m.triangles|, Range(8));
    SectionBack(Vec3Bytes, Vec3At, 12, m.positions, 8, data, p);
    SectionBack(Vec3Bytes, Vec3At, 12, m.normals, 8, data, p + |s1|);
    SectionBack(Vec2Bytes, Vec2At, 8, m.texCoords, 8, data, p + |s1| + |s2|);
    SectionBack(WordBytes, WordAt, 4, m.triangles, 8, data, p + |s1| + |s2| + |s3|);
    SectionBack(SubmeshBytes, SubmeshAt, 8, m.submeshes, 1, data, p + |s1| + |s2| + |s3| + |s4|);
    IxSplit(|m.submeshes|, |m.submeshes| % 256, 8);
    Whole(m);
  }

  lemma Whole(m: StaticMesh)
    ensures m.positions[..|m.positions|] == m.positions && m.normals[..|m.normals|] == m.normals
    ensures m.texCoords[..|m.texCoords|] == m.texCoords && m.triangles[..|m.triangles|] == m.triangles
  {
  }

  lemma IxSplit(n: nat, k: nat, size: nat)
    requires k <= n
    ensures Ix(n, size) == Ix(k, size) + Ix(n - k, size)
  {
    Distribute(k, n - k, size);
  }

  /** Exactly meshes of at most 255 submeshes come back, and exactly they are read to their end. */
  lemma RoundTripIff(m: StaticMesh, data: seq<byte>, p: nat)
    requires Countable(m) && Holds(data, p, Encode(m))
    ensures Decode(data, p) == Some((m, p + |Encode(m)|)) <==> |m.submeshes| <= 255
    ensures Decode(data, p).Some? && (Decode(data, p).value.1 == p + |Encode(m)| <==> |m.submeshes| <= 255)
  {
    hide Encode, Decode, Countable, Holds;
    ImportInvertsExport(m, data, p);
    CountFits(|m.submeshes|, 256);
    if |m.submeshes| <= 255 {
      assert m.submeshes[..|m.submeshes|] == m.submeshes;
      IxStep(0, 8);
    } else {
      IxStep(|m.submeshes| - |m.submeshes| % 256 - 1, 8);
    }
  }

  // ---------------------------------------------------------------------------
  // The layout, byte by byte

  ghost predicate WordIs(data: seq<byte>, p: nat, v: nat) {
    p + 4 <= |data| && v == data[p] as int + 0x100 * (data[p + 1] as int) + 0x1_0000 * (data[p + 2] as int) + 0x100_0000 * (data[p + 3] as int)
  }

  /** A count of 64 bits: its low word, then its high one. */
  ghost predicate CountIs(data: seq<byte>, p: nat, v: nat) {
    WordIs(data, p, v % 0x1_0000_0000) && WordIs(data, p + 4, v / 0x1_0000_0000 % 0x1_0000_0000)
  }

  ghost predicate Vec3Is(data: seq<byte>, p: nat, v: Vec3) {
    WordIs(data, p, v.x) && WordIs(data, p + 4, v.y) && WordIs(data, p + 8, v.z)
  }

  ghost predicate Vec2Is(data: seq<byte>, p: nat, v: Vec2) {
    WordIs(data, p, v.x) && WordIs(data, p + 4, v.y)
  }

  ghost predicate SubmeshIs(data: seq<byte>, p: nat, v: Submesh) {
    WordIs(data, p, v.indexOffset) && WordIs(data, p + 4, v.indexCount)
  }

  ghost predicate Vec3sAre(data: seq<byte>, p: nat, s: seq<Vec3>) {
    CountIs(data, p, |s|) && forall k: nat :: k < |s| ==> Vec3Is(data, p + 8 + 12 * k, s[k])
  }

  ghost predicate Vec2sAre(data: seq<byte>, p: nat, s: seq<Vec2>) {
    CountIs(data, p, |s|) && forall k: nat :: k < |s| ==> Vec2Is(data, p + 8 + 8 * k, s[k])
  }

  ghost predicate WordsAre(data: seq<byte>, p: nat, s: seq<Word>) {
    CountIs(data, p, |s|) && forall k: nat :: k < |s| ==> WordIs(data, p + 8 + 4 * k, s[k])
  }

  /** Their count is one byte. */
  ghost predicate SubmeshesAre(data: seq<byte>, p: nat, s: seq<Submesh>) {
    p < |data| && data[p] == |s| % 256 && forall k: nat :: k < |s| ==> SubmeshIs(data, p + 1 + 8 * k, s[k])
  }

  /** Positions, normals, texture coordinates, triangles and submeshes, one behind the other. */
  lemma Layout(m: StaticMesh, data: seq<byte>, p: nat)
    requires Holds(data, p, Encode(m))
    ensures var b := p + 8 + 12 * |m.positions|; var c := b + 8 + 12 * |m.normals|;
      var d := c + 8 + 8 * |m.texCoords|; var e := d + 8 + 4 * |m.triangles|;
      && Vec3sAre(data, p, m.positions) && Vec3sAre(data, b, m.normals) && Vec2sAre(data, c, m.texCoords)
      && WordsAre(data, d, m.triangles) && SubmeshesAre(data, e, m.submeshes)
      && p + |Encode(m)| == e + 1 + 8 * |m.submeshes|
  {
    hide Section, Holds, Vec3sAre, Vec2sAre, WordsAre, SubmeshesAre;
    var s1, s2 := Section(Vec3Bytes, m.positions, 8), Section(Vec3Bytes, m.normals, 8);
    var s3, s4, s5 := Section(Vec2Bytes, m.texCoords, 8), Section(WordBytes, m.triangles, 8), Section(SubmeshBytes, m.submeshes, 1);
    HoldsSplit(data, p, s1 + s2 + s3 + s4, s5);
    HoldsSplit(data, p, s1 + s2 + s3, s4);
    HoldsSplit(data, p, s1 + s2, s3);
    HoldsSplit(data, p, s1, s2);
    Vec3sLaid(m.positions, data, p);
    Vec3sLaid(m.normals, data, p + |s1|);
    Vec2sLaid(m.texCoords, data, p + |s1| + |s2|);
    WordsLaid(m.triangles, data, p + |s1| + |s2| + |s3|);
    SubmeshesLaid(m.submeshes, data, p + |s1| + |s2| + |s3| + |s4|);
  }

  lemma Vec3sLaid(s: seq<Vec3>, data: seq<byte>, p: nat)
    requires Holds(data, p, Section(Vec3Bytes, s, 8))
    ensures Vec3sAre(data, p, s) && |Section(Vec3Bytes, s, 8)| == 8 + 12 * |s|
  {
    hide Section, Inverse, Holds, CountIs, Bytes, WordIs;
    Inverses();
    CountLaid(Vec3Bytes, Vec3At, 12, s, data, p);
    forall k: nat | k < |s|
      ensures Vec3Is(data, p + 8 + 12 * k, s[k])
    {
      ElementLaid(Vec3Bytes, Vec3At, 12, s, 8, data, p, k);
      var v, q := s[k], p + 8 + 12 * k;
      HoldsSplit(data, q, Bytes(v.x, 4) + Bytes(v.y, 4), Bytes(v.z, 4));
      HoldsSplit(data, q, Bytes(v.x, 4), Bytes(v.y, 4));
      WordLaid(v.x, data, q);
      WordLaid(v.y, data, q + 4);
      WordLaid(v.z, data, q + 8);
    }
  }

  lemma Vec2sLaid(s: seq<Vec2>, data: seq<byte>, p: nat)
    requires Holds(data, p, Section(Vec2Bytes, s, 8))
    ensures Vec2sAre(data, p, s) && |Section(Vec2Bytes, s, 8)| == 8 + 8 * |s|
  {
    hide Section, Inverse, Holds, CountIs, Bytes, WordIs;
    Inverses();
    CountLaid(Vec2Bytes, Vec2At, 8, s, data, p);
    forall k: nat | k < |s|
      ensures Vec2Is(data, p + 8 + 8 * k, s[k])
    {
      ElementLaid(Vec2Bytes, Vec2At, 8, s, 8, data, p, k);
      HoldsSplit(data, p + 8 + 8 * k, Bytes(s[k].x, 4), Bytes(s[k].y, 4));
      WordLaid(s[k].x, data, p + 8 + 8 * k);
      WordLaid(s[k].y, data, p + 12 + 8 * k);
    }
  }

  lemma WordsLaid(s: seq<Word>, data: seq<byte>, p: nat)
    requires Holds(data, p, Section(WordBytes, s, 8))
    ensures WordsAre(data, p, s) && |Section(WordBytes, s, 8)| == 8 + 4 * |s|
  {
    hide Section, Inverse, Holds, CountIs, Bytes, WordIs;
    Inverses();
    CountLaid(WordBytes, WordAt, 4, s, data, p);
    forall k: nat | k < |s|
      ensures WordIs(data, p + 8 + 4 * k, s[k])
    {
      ElementLaid(WordBytes, WordAt, 4, s, 8, data, p, k);
      WordLaid(s[k], data, p + 8 + 4 * k);
    }
  }

  lemma SubmeshesLaid(s: seq<Submesh>, data: seq<byte>, p: nat)
    requires Holds(data, p, Section(SubmeshBytes, s, 1))
    ensures SubmeshesAre(data, p, s) && |Section(SubmeshBytes, s, 1)| == 1 + 8 * |s|
  {
    hide Section, Inverse, Holds, Bytes, WordIs;
    Inverses();
    SmallCountLaid(SubmeshBytes, SubmeshAt, 8, s, data, p);
    forall k: nat | k < |s|
      ensures SubmeshIs(data, p + 1 + 8 * k, s[k])
    {
      ElementLaid(SubmeshBytes, SubmeshAt, 8, s, 1, data, p, k);
      HoldsSplit(data, p + 1 + 8 * k, Bytes(s[k].indexOffset, 4), Bytes(s[k].indexCount, 4));
      WordLaid(s[k].indexOffset, data, p + 1 + 8 * k);
      WordLaid(s[k].indexCount, data, p + 5 + 8 * k);
    }
  }

  lemma WordLaid(v: Word, data: seq<byte>, p: nat)
    requires Holds(data, p, Bytes(v, 4))
    ensures WordIs(data, p, v)
  {
    hide Bytes, Range;
    Ranges();
    NumberBack(data, p, v, 4);
    FourBytes(data, p);
  }

  lemma FourBytes(data: seq<byte>, p: nat)
    ensures NumberAt(data, p, 4) == ByteAt(data, p) as int + 0x100 * (ByteAt(data, p + 1) as int)
      + 0x1_0000 * (ByteAt(data, p + 2) as int) + 0x100_0000 * (ByteAt(data, p + 3) as int)
  {
    assert NumberAt(data, p + 2, 2) == ByteAt(data, p + 2) as int + 256 * NumberAt(data, p + 3, 1);
  }

  lemma EightBytes(data: seq<byte>, p: nat)
    ensures NumberAt(data, p, 8) == NumberAt(data, p, 4) + 0x1_0000_0000 * NumberAt(data, p + 4, 4)
  {
    assert NumberAt(data, p + 2, 6) == ByteAt(data, p + 2) as int + 256 * NumberAt(data, p + 3, 5);
    assert NumberAt(data, p + 2, 2) == ByteAt(data, p + 2) as int + 256 * NumberAt(data, p + 3, 1);
  }

  lemma CountLaid<T(!new)>(bytes: T -> seq<byte>, at: (seq<byte>, nat) -> T, size: nat, s: seq<T>, data: seq<byte>, p: nat)
    requires Inverse(bytes, at, size) && Holds(data, p, Section(bytes, s, 8))
    ensures CountIs(data, p, |s|) && |Section(bytes, s, 8)| == 8 + Ix(|s|, size)
  {
    hide Inverse, All, Bytes, Range, NumberAt, Ix;
    Ranges();
    var n := |s| % Range(8);
    HoldsSplit(data, p, Bytes(n, 8), All(bytes, s));
    NumberBack(data, p, n, 8);
    EightBytes(data, p);
    NumberWord(data, p);
    NumberWord(data, p + 4);
    TwoWords(|s|, n, NumberAt(data, p, 4), NumberAt(data, p + 4, 4));
    AllBack(bytes, at, size, s, data, p + 8);
  }

  lemma NumberWord(data: seq<byte>, p: nat)
    ensures NumberAt(data, p, 4) < 0x1_0000_0000 && (p + 4 <= |data| ==> WordIs(data, p, NumberAt(data, p, 4)))
  {
    hide NumberAt, Range;
    Ranges();
    NumberRange(data, p, 4);
    FourBytes(data, p);
  }

  lemma TwoWords(v: nat, n: nat, low: nat, high: nat)
    requires n == v % 0x1_0000_0000_0000_0000 == low + 0x1_0000_0000 * high && low < 0x1_0000_0000 && high < 0x1_0000_0000
    ensures low == v % 0x1_0000_0000 && high == v / 0x1_0000_0000 % 0x1_0000_0000
  {
    var q := v / 0x1_0000_0000_0000_0000;
    DivModUnique(0x1_0000_0000 * q + high, 0x1_0000_0000, low);
    DivModUnique(q, 0x1_0000_0000, high);
  }

  lemma SmallCountLaid<T(!new)>(bytes: T -> seq<byte>, at: (seq<byte>, nat) -> T, size: nat, s: seq<T>, data: seq<byte>, p: nat)
    requires Inverse(bytes, at, size) && Holds(data, p, Section(bytes, s, 1))
    ensures p < |data| && data[p] == |s| % 256 && |Section(bytes, s, 1)| == 1 + Ix(|s|, size)
  {
    hide Inverse, All, Ix, Range, Bytes;
    Ranges();
    HoldsSplit(data, p, Bytes(|s| % 256, 1), All(bytes, s));
    NumberBack(data, p, |s| % 256, 1);
    AllBack(bytes, at, size, s, data, p + 1);
  }

  /** Element k, at its place behind the count. */
  lemma ElementLaid<T(!new)>(bytes: T -> seq<byte>, at: (seq<byte>, nat) -> T, size: nat, s: seq<T>, width: nat, data: seq<byte>, p: nat, k: nat)
    requires Inverse(bytes, at, size) && Holds(data, p, Section(bytes, s, width)) && k < |s|
    ensures Holds(data, p + width + Ix(k, size), bytes(s[k])) && Ix(k, size) == size * k
  {
    hide Inverse, All, Holds, Bytes, Range;
    HoldsSplit(data, p, Bytes(|s| % Range(width), width), All(bytes, s));
    AllPrefix(bytes, s, k + 1);
    var upto := All(bytes, s[..k + 1]);
    assert All(bytes, s) == upto + All(bytes, s)[|upto|..];
    HoldsSplit(data, p + width, upto, All(bytes, s)[|upto|..]);
    AllLast(bytes, s, k);
    HoldsSplit(data, p + width, All(bytes, s[..k]), bytes(s[k]));
    AllBack(bytes, at, size, s[..k], data, p + width);
  }

  lemma AllLast<T>(bytes: T -> seq<byte>, s: seq<T>, k: nat)
    requires k < |s|
    ensures All(bytes, s[..k + 1]) == All(bytes, s[..k]) + bytes(s[k])
  {
    assert s[..k + 1][..k] == s[..k];
  }

  // ---------------------------------------------------------------------------
  // What is read was written

  lemma {:induction false} NumberForth(data: seq<byte>, p: nat, n: nat)
    requires p + n <= |data|
    ensures Holds(data, p, Bytes(NumberAt(data, p, n), n))
    decreases n
  {
    if n > 0 {
      var b, rest := data[p], NumberAt(data, p + 1, n - 1);
      NumberForth(data, p + 1, n - 1);
      DivModUnique(rest, 256, b);
      assert Bytes(NumberAt(data, p, n), n) == [b] + Bytes(rest, n - 1);
      HoldsSplit(data, p, [b], Bytes(rest, n - 1));
    }
  }

  lemma WordForth(data: seq<byte>, p: nat)
    requires p + 4 <= |data|
    ensures Holds(data, p, Bytes(WordAt(data, p), 4))
  {
    NumberForth(data, p, 4);
  }

  /** `bytes` writes what `at` has read, if it was all there. */
  ghost predicate Converse<T>(bytes: T -> seq<byte>, at: (seq<byte>, nat) -> T, size: nat) {
    forall data: seq<byte>, p: nat :: WritesBack(bytes, at, size, data, p)
  }

  ghost predicate WritesBack<T>(bytes: T -> seq<byte>, at: (seq<byte>, nat) -> T, size: nat, data: seq<byte>, p: nat) {
    p + size <= |data| ==> Holds(data, p, bytes(at(data, p)))
  }

  lemma Converses()
    ensures Converse(Vec3Bytes, Vec3At, 12) && Converse(Vec2Bytes, Vec2At, 8)
    ensures Converse(WordBytes, WordAt, 4) && Converse(SubmeshBytes, SubmeshAt, 8)
  {
    hide Bytes, WordAt, Holds;
    forall data: seq<byte>, p: nat ensures WritesBack(WordBytes, WordAt, 4, data, p) {
      if p + 4 <= |data| { WordForth(data, p); }
    }
    forall data: seq<byte>, p: nat ensures WritesBack(Vec3Bytes, Vec3At, 12, data, p) {
      if p + 12 <= |data| {
        var v := Vec3At(data, p);
        TwoWordsForth(data, p);
        WordForth(data, p + 8);
        HoldsSplit(data, p, Bytes(v.x, 4) + Bytes(v.y, 4), Bytes(v.z, 4));
      }
    }
    forall data: seq<byte>, p: nat ensures WritesBack(Vec2Bytes, Vec2At, 8, data, p) {
      if p + 8 <= |data| { TwoWordsForth(data, p); }
    }
    forall data: seq<byte>, p: nat ensures WritesBack(SubmeshBytes, SubmeshAt, 8, data, p) {
      if p + 8 <= |data| { TwoWordsForth(data, p); }
    }
  }

  lemma TwoWordsForth(data: seq<byte>, p: nat)
    requires p + 8 <= |data|
    ensures Holds(data, p, Bytes(WordAt(data, p), 4) + Bytes(WordAt(data, p + 4), 4))
  {
    hide WordAt, Bytes, Holds;
    WordForth(data, p);
    WordForth(data, p + 4);
    HoldsSplit(data, p, Bytes(WordAt(data, p), 4), Bytes(WordAt(data, p + 4), 4));
  }

  lemma {:induction false} AllForth<T(!new)>(bytes: T -> seq<byte>, at: (seq<byte>, nat) -> T, size: nat, data: seq<byte>, p: nat, n: nat)
    requires Inverse(bytes, at, size) && Converse(bytes, at, size) && p + Ix(n, size) <= |data|
    ensures Holds(data, p, All(bytes, AllAt(at, size, data, p, n)))
    decreases n
  {
    hide Ix, Inverse;
    if n > 0 {
      IxStep(n - 1, size);
      var s, last := AllAt(at, size, data, p, n - 1), at(data, p + Ix(n - 1, size));
      AllForth(bytes, at, size, data, p, n - 1);
      AllBack(bytes, at, size, s, data, p);
      assert WritesBack(bytes, at, size, data, p + Ix(n - 1, size));
      HoldsSplit(data, p, All(bytes, s), bytes(last));
      assert (s + [last])[..n - 1] == s;
    }
  }

  /** A section that was read inside the file had been written there. */
  lemma SectionForth<T(!new)>(bytes: T -> seq<byte>, at: (seq<byte>, nat) -> T, size: nat, s: seq<T>, width: nat, data: seq<byte>, p: nat, q: nat)
    requires Inverse(bytes, at, size) && Converse(bytes, at, size)
    requires PartAt(at, size, data, p, width) == Part(s, q) && q <= |data|
    ensures |s| < Range(width) && Holds(data, p, Section(bytes, s, width)) && q == p + |Section(bytes, s, width)|
  {
    hide Ix, Inverse, Converse, AllAt, All, Holds;
    var n := |s|;
    NumberRange(data, p, width);
    NumberForth(data, p, width);
    AllForth(bytes, at, size, data, p + width, n);
    AllBack(bytes, at, size, s, data, p + width);
    DivModUnique(0, Range(width), n);
    HoldsSplit(data, p, Bytes(n, width), All(bytes, s));
  }

  /** A mesh is read inside the file exactly if it was written there, with at most 255 submeshes. */
  lemma ReadIffWritten(m: StaticMesh, data: seq<byte>, p: nat, q: nat)
    ensures Decode(data, p) == Some((m, q)) && q <= |data| <==>
      Countable(m) && |m.submeshes| <= 255 && Holds(data, p, Encode(m)) && q == p + |Encode(m)|
  {
    hide Encode, Decode, Countable;
    if Decode(data, p) == Some((m, q)) && q <= |data| { MeshForth(m, data, p, q); }
    if Countable(m) && |m.submeshes| <= 255 && Holds(data, p, Encode(m)) { RoundTripIff(m, data, p); }
  }

  lemma MeshForth(m: StaticMesh, data: seq<byte>, p: nat, q: nat)
    requires Decode(data, p) == Some((m, q)) && q <= |data|
    ensures Countable(m) && |m.submeshes| <= 255 && Holds(data, p, Encode(m)) && q == p + |Encode(m)|
  {
    hide Section, Inverse, Converse, Holds, PartAt, Decode, Range;
    Inverses();
    Converses();
    Ranges();
    var p1, p2, p3, p4 := SectionsRead(m, data, p, q);
    var s1, s2 := Section(Vec3Bytes, m.positions, 8), Section(Vec3Bytes, m.normals, 8);
    var s3, s4, s5 := Section(Vec2Bytes, m.texCoords, 8), Section(WordBytes, m.triangles, 8), Section(SubmeshBytes, m.submeshes, 1);
    SectionForth(SubmeshBytes, SubmeshAt, 8, m.submeshes, 1, data, p4, q);
    SectionForth(WordBytes, WordAt, 4, m.triangles, 8, data, p3, p4);
    SectionForth(Vec2Bytes, Vec2At, 8, m.texCoords, 8, data, p2, p3);
    SectionForth(Vec3Bytes, Vec3At, 12, m.normals, 8, data, p1, p2);
    SectionForth(Vec3Bytes, Vec3At, 12, m.positions, 8, data, p, p1);
    HoldsSplit(data, p, s1, s2);
    HoldsSplit(data, p, s1 + s2, s3);
    HoldsSplit(data, p, s1 + s2 + s3, s4);
    HoldsSplit(data, p, s1 + s2 + s3 + s4, s5);
  }

  /** Where the sections end. */
  lemma SectionsRead(m: StaticMesh, data: seq<byte>, p: nat, q: nat) returns (p1: nat, p2: nat, p3: nat, p4: nat)
    requires Decode(data, p) == Some((m, q))
    ensures PartAt(Vec3At, 12, data, p, 8) == Part(m.positions, p1) && PartAt(Vec3At, 12, data, p1, 8) == Part(m.normals, p2)
    ensures PartAt(Vec2At, 8, data, p2, 8) == Part(m.texCoords, p3) && PartAt(WordAt, 4, data, p3, 8) == Part(m.triangles, p4)
    ensures PartAt(SubmeshAt, 8, data, p4, 1) == Part(m.submeshes, q) && Countable(m)
  {
    hide PartAt;
    p1 := PartAt(Vec3At, 12, data, p, 8).next;
    p2 := PartAt(Vec3At, 12, data, p1, 8).next;
    p3 := PartAt(Vec2At, 8, data, p2, 8).next;
    p4 := PartAt(WordAt, 4, data, p3, 8).next;
  }

  // ---------------------------------------------------------------------------
  // Several meshes in one file

  function EncodeAll(ms: seq<StaticMesh>): seq<byte> {
    if ms == [] then [] else Encode(ms[0]) + EncodeAll(ms[1..])
  }

  function DecodeAll(data: seq<byte>, p: nat, n: nat): Option<(seq<StaticMesh>, nat)>
    decreases n
  {
    if n == 0 then Some(([], p))
    else
      match Decode(data, p)
      case None => None
      case Some((m, q)) =>
        match DecodeAll(data, q, n - 1)
        case None => None
        case Some((ms, r)) => Some(([m] + ms, r))
  }

  /** Meshes written back to back are read back in order. */
  lemma {:induction false} BackToBack(ms: seq<StaticMesh>, data: seq<byte>, p: nat)
    requires forall i :: 0 <= i < |ms| ==> Countable(ms[i]) && |ms[i].submeshes| <= 255
    requires Holds(data, p, EncodeAll(ms))
    ensures DecodeAll(data, p, |ms|) == Some((ms, p + |EncodeAll(ms)|))
    decreases |ms|
  {
    hide Encode, Decode, Countable, Holds;
    if ms != [] {
      HoldsSplit(data, p, Encode(ms[0]), EncodeAll(ms[1..]));
      RoundTripIff(ms[0], data, p);
      BackToBack(ms[1..], data, p + |Encode(ms[0])|);
      assert [ms[0]] + ms[1..] == ms;
    }
  }

  lemma {:induction false} DecodesForward(data: seq<byte>, p: nat, n: nat)
    ensures DecodeAll(data, p, n).Some? ==> p <= DecodeAll(data, p, n).value.1
    decreases n
  {
    hide Decode;
    if n > 0 && Decode(data, p).Some? {
      var (m, q) := Decode(data, p).value;
      if q >= p { DecodesForward(data, q, n - 1); } else { SectionsForward(m, data, p, q); }
    }
  }

  lemma SectionsForward(m: StaticMesh, data: seq<byte>, p: nat, q: nat)
    requires Decode(data, p) == Some((m, q))
    ensures p <= q
  {
    hide Decode, Ix, AllAt, NumberAt;
    var p1, p2, p3, p4 := SectionsRead(m, data, p, q);
  }

  ghost predicate AllWritten(ms: seq<StaticMesh>, data: seq<byte>, p: nat) {
    (forall i :: 0 <= i < |ms| ==> Countable(ms[i]) && |ms[i].submeshes| <= 255) && Holds(data, p, EncodeAll(ms))
  }

  /** Meshes are read one after the other inside the file exactly if they were written so. */
  lemma AllReadIffWritten(ms: seq<StaticMesh>, data: seq<byte>, p: nat, q: nat)
    ensures DecodeAll(data, p, |ms|) == Some((ms, q)) && q <= |data| <==> AllWritten(ms, data, p) && q == p + |EncodeAll(ms)|
  {
    hide DecodeAll, EncodeAll;
    if DecodeAll(data, p, |ms|) == Some((ms, q)) && q <= |data| { MeshesForth(ms, data, p, q); }
    if AllWritten(ms, data, p) { BackToBack(ms, data, p); }
  }

  lemma {:induction false} MeshesForth(ms: seq<StaticMesh>, data: seq<byte>, p: nat, q: nat)
    requires DecodeAll(data, p, |ms|) == Some((ms, q)) && q <= |data|
    ensures AllWritten(ms, data, p) && q == p + |EncodeAll(ms)|
    decreases |ms|
  {
    hide Encode, Decode, Countable, Holds;
    if ms == [] {
      HoldsNothing(data, p);
    } else {
      var (m, p1) := Decode(data, p).value;
      DecodesForward(data, p1, |ms| - 1);
      MeshesForth(ms[1..], data, p1, q);
      ReadIffWritten(m, data, p, p1);
      HoldsSplit(data, p, Encode(ms[0]), EncodeAll(ms[1..]));
    }
  }

  lemma HoldsNothing(data: seq<byte>, p: nat)
    ensures Holds(data, p, []) <==> p <= |data|
  {
  }

  // ---------------------------------------------------------------------------
  // Streams

  class OutStream {
    var data: seq<byte>

    constructor ()
      ensures data == []
    {
      data := [];
    }

    method Write(v: nat, n: nat)
      modifies this
      ensures data == old(data) + Bytes(v, n)
    {
      data := data + Bytes(v, n);
    }
  }

  class InStream {
    const data: seq<byte>
    var pos: nat

    constructor (data: seq<byte>)
      ensures this.data == data && pos == 0
    {
      this.data := data;
      pos := 0;
    }

    method Read(n: nat) returns (v: nat)
      modifies this
      ensures v == NumberAt(data, old(pos), n) && pos == old(pos) + n
    {
      v := NumberAt(data, pos, n);
      pos := pos + n;
    }

    method ReadWord() returns (w: Word)
      modifies this
      ensures w == WordAt(data, old(pos)) && pos == old(pos) + 4
    {
      w := WordAt(data, pos);
      pos := pos + 4;
    }
  }

  /** export_static_mesh_optimised. */
  method Export(stream: OutStream, mesh: StaticMesh)
    modifies stream
    ensures stream.data == old(stream.data) + Encode(mesh)
  {
    hide Section;
    WriteVec3s(stream, mesh.positions);
    WriteVec3s(stream, mesh.normals);
    WriteVec2s(stream, mesh.texCoords);
    WriteWords(stream, mesh.triangles);
    WriteSubmeshes(stream, mesh.submeshes);
  }

  method WriteVec3s(stream: OutStream, s: seq<Vec3>)
    modifies stream
    ensures stream.data == old(stream.data) + Section(Vec3Bytes, s, 8)
  {
    hide Bytes, Range;
    stream.Write(|s| % Range(8), 8);
    ghost var count := Bytes(|s| % Range(8), 8);
    var i := 0;
    while i < |s|
      invariant 0 <= i <= |s| && stream.data == old(stream.data) + (count + All(Vec3Bytes, s[..i]))
    {
      stream.Write(s[i].x, 4);
      stream.Write(s[i].y, 4);
      stream.Write(s[i].z, 4);
      i := i + 1;
      assert s[..i][..i - 1] == s[..i - 1];
    }
    assert s[..i] == s;
  }

  method WriteVec2s(stream: OutStream, s: seq<Vec2>)
    modifies stream
    ensures stream.data == old(stream.data) + Section(Vec2Bytes, s, 8)
  {
    hide Bytes, Range;
    stream.Write(|s| % Range(8), 8);
    ghost var count := Bytes(|s| % Range(8), 8);
    var i := 0;
    while i < |s|
      invariant 0 <= i <= |s| && stream.data == old(stream.data) + (count + All(Vec2Bytes, s[..i]))
    {
      stream.Write(s[i].x, 4);
      stream.Write(s[i].y, 4);
      i := i + 1;
      assert s[..i][..i - 1] == s[..i - 1];
    }
    assert s[..i] == s;
  }

  method WriteWords(stream: OutStream, s: seq<Word>)
    modifies stream
    ensures stream.data == old(stream.data) + Section(WordBytes, s, 8)
  {
    hide Bytes, Range;
    stream.Write(|s| % Range(8), 8);
    ghost var count := Bytes(|s| % Range(8), 8);
    var i := 0;
    while i < |s|
      invariant 0 <= i <= |s| && stream.data == old(stream.data) + (count + All(WordBytes, s[..i]))
    {
      stream.Write(s[i], 4);
      i := i + 1;
      assert s[..i][..i - 1] == s[..i - 1];
    }
    assert s[..i] == s;
  }

  method WriteSubmeshes(stream: OutStream, s: seq<Submesh>)
    modifies stream
    ensures stream.data == old(stream.data) + Section(SubmeshBytes, s, 1)
  {
    hide Bytes, Range;
    stream.Write(|s| % Range(1), 1);
    ghost var count := Bytes(|s| % Range(1), 1);
    var i := 0;
    while i < |s|
      invariant 0 <= i <= |s| && stream.data == old(stream.data) + (count + All(SubmeshBytes, s[..i]))
    {
      stream.Write(s[i].indexOffset, 4);
      stream.Write(s[i].indexCount, 4);
      i := i + 1;
      assert s[..i][..i - 1] == s[..i - 1];
    }
    assert s[..i] == s;
  }

  /** import_static_mesh_optimised; false when a count does not fit the 32-bit loop counter. */
  method Import(stream: InStream) returns (ok: bool, mesh: StaticMesh)
    modifies stream
    ensures var d := Decode(stream.data, old(stream.pos));
      if ok then d == Some((mesh, stream.pos)) else d.None?
  {
    hide PartAt;
    ok, mesh := false, StaticMesh([], [], [], [], []);
    var positions := ReadVec3s(stream);
    if positions.None? { return; }
    var normals := ReadVec3s(stream);
    if normals.None? { return; }
    var texCoords := ReadVec2s(stream);
    if texCoords.None? { return; }
    var triangles := ReadWords(stream);
    if triangles.None? { return; }
    var submeshes := ReadSubmeshes(stream);
    ok := true;
    mesh := StaticMesh(positions.value, normals.value, texCoords.value, triangles.value, submeshes);
  }

  /** The first i elements have been read. */
  ghost predicate ReadSoFar<T>(at: (seq<byte>, nat) -> T, size: nat, data: seq<byte>, p: nat, s: seq<T>, i: nat, pos: nat) {
    i <= |s| && s[..i] == AllAt(at, size, data, p, i) && pos == p + Ix(i, size)
  }

  lemma ReadStart<T>(at: (seq<byte>, nat) -> T, size: nat, data: seq<byte>, p: nat, s: seq<T>)
    ensures ReadSoFar(at, size, data, p, s, 0, p)
  {
    IxStep(0, size);
  }

  lemma ReadNext<T>(at: (seq<byte>, nat) -> T, size: nat, data: seq<byte>, p: nat, s: seq<T>, i: nat, pos: nat)
    requires ReadSoFar(at, size, data, p, s, i, pos) && i < |s|
    ensures ReadSoFar(at, size, data, p, s[i := at(data, pos)], i + 1, pos + size)
  {
    IxStep(i, size);
    var t := s[i := at(data, pos)];
    assert t[..i + 1] == s[..i] + [at(data, pos)];
  }

  method ReadVec3s(stream: InStream) returns (r: Option<seq<Vec3>>)
    modifies stream
    ensures var part := PartAt(Vec3At, 12, stream.data, old(stream.pos), 8);
      if |part.items| >= 0x1_0000_0000 then r.None? else r == Some(part.items) && stream.pos == part.next
  {
    hide AllAt, Ix, WordAt, NumberAt;
    var n := stream.Read(8);
    if n >= 0x1_0000_0000 {
      return None;
    }
    var s: seq<Vec3> := seq(n, _ => Vec3(0, 0, 0));
    ghost var p := stream.pos;
    ReadStart(Vec3At, 12, stream.data, p, s);
    var i := 0;
    while i < n
      invariant 0 <= i <= n == |s| && ReadSoFar(Vec3At, 12, stream.data, p, s, i, stream.pos)
    {
      ReadNext(Vec3At, 12, stream.data, p, s, i, stream.pos);
      var x := stream.ReadWord();
      s := s[i := s[i].(x := x)];
      var y := stream.ReadWord();
      s := s[i := s[i].(y := y)];
      var z := stream.ReadWord();
      s := s[i := s[i].(z := z)];
      i := i + 1;
    }
    assert s[..n] == s;
    r := Some(s);
  }

  method ReadVec2s(stream: InStream) returns (r: Option<seq<Vec2>>)
    modifies stream
    ensures var part := PartAt(Vec2At, 8, stream.data, old(stream.pos), 8);
      if |part.items| >= 0x1_0000_0000 then r.None? else r == Some(part.items) && stream.pos == part.next
  {
    hide AllAt, Ix, WordAt, NumberAt;
    var n := stream.Read(8);
    if n >= 0x1_0000_0000 {
      return None;
    }
    var s: seq<Vec2> := seq(n, _ => Vec2(0, 0));
    ghost var p := stream.pos;
    ReadStart(Vec2At, 8, stream.data, p, s);
    var i := 0;
    while i < n
      invariant 0 <= i <= n == |s| && ReadSoFar(Vec2At, 8, stream.data, p, s, i, stream.pos)
    {
      ReadNext(Vec2At, 8, stream.data, p, s, i, stream.pos);
      var x := stream.ReadWord();
      s := s[i := s[i].(x := x)];
      var y := stream.ReadWord();
      s := s[i := s[i].(y := y)];
      i := i + 1;
    }
    assert s[..n] == s;
    r := Some(s);
  }

  method ReadWords(stream: InStream) returns (r: Option<seq<Word>>)
    modifies stream
    ensures var part := PartAt(WordAt, 4, stream.data, old(stream.pos), 8);
      if |part.items| >= 0x1_0000_0000 then r.None? else r == Some(part.items) && stream.pos == part.next
  {
    hide AllAt, Ix, WordAt, NumberAt;
    var n := stream.Read(8);
    if n >= 0x1_0000_0000 {
      return None;
    }
    var s: seq<Word> := seq(n, _ => 0);
    ghost var p := stream.pos;
    ReadStart(WordAt, 4, stream.data, p, s);
    var i := 0;
    while i < n
      invariant 0 <= i <= n == |s| && ReadSoFar(WordAt, 4, stream.data, p, s, i, stream.pos)
    {
      ReadNext(WordAt, 4, stream.data, p, s, i, stream.pos);
      var w := stream.ReadWord();
      s := s[i := w];
      i := i + 1;
    }
    assert s[..n] == s;
    r := Some(s);
  }

  method ReadSubmeshes(stream: InStream) returns (s: seq<Submesh>)
    modifies stream
    ensures Part(s, stream.pos) == PartAt(SubmeshAt, 8, stream.data, old(stream.pos), 1)
  {
    hide AllAt, Ix, WordAt, NumberAt;
    var n := stream.Read(1);
    s := seq(n, _ => Submesh(0, 0));
    ghost var p := stream.pos;
    ReadStart(SubmeshAt, 8, stream.data, p, s);
    var i := 0;
    while i < n
      invariant 0 <= i <= n == |s| && ReadSoFar(SubmeshAt, 8, stream.data, p, s, i, stream.pos)
    {
      ReadNext(SubmeshAt, 8, stream.data, p, s, i, stream.pos);
      var x := stream.ReadWord();
      s := s[i := s[i].(indexOffset := x)];
      var y := stream.ReadWord();
      s := s[i := s[i].(indexCount := y)];
      i := i + 1;
    }
    assert s[..n] == s;
  }

  /** Both ends together, with anything before and behind in the file. */
  method ExportThenImport(mesh: StaticMesh, before: seq<byte>, after: seq<byte>) returns (ok: bool, back: StaticMesh, consumed: int)
    requires Countable(mesh)
    ensures ok && (back == mesh <==> |mesh.submeshes| <= 255)
    ensures |mesh.submeshes| <= 255 ==> consumed == |Encode(mesh)|
  {
    hide Encode, Decode, Countable, Ix;
    var file := new OutStream();
    file.data := before;
    Export(file, mesh);
    var stream := new InStream(file.data + after);
    stream.pos := |before|;
    assert stream.data == before + Encode(mesh) + after;
    assert Holds(stream.data, |before|, Encode(mesh));
    RoundTripIff(mesh, stream.data, |before|);
    ImportInvertsExport(mesh, stream.data, |before|);
    ok, back := Import(stream);
    consumed := stream.pos - |before|;
  }
}
