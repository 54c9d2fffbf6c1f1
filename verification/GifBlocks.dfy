/** GIF data sub-blocks: a length byte and that many bytes, repeated until a length of zero. Past the
    end of the file every byte reads as zero, so a chain of sub-blocks always ends. */
module GifBlocks {
  import opened Bits

  function Bytes(data: seq<byte>, p: nat, n: nat): (s: seq<byte>)
    ensures |s| == n
    ensures forall i :: 0 <= i < n ==> s[i] == ByteAt(data, p + i)
  {
    seq<byte>(n, i requires 0 <= i => ByteAt(data, p + i))
  }

  /** The bytes of the sub-blocks from p on. */
  function Payload(data: seq<byte>, p: nat): seq<byte>
    decreases if p < |data| then |data| - p else 0
  {
    var n := ByteAt(data, p);
    if n == 0 then [] else Bytes(data, p + 1, n) + Payload(data, p + 1 + n)
  }

  /** Where the sub-blocks from p on are over. */
  function Past(data: seq<byte>, p: nat): (q: nat)
    ensures q > p
    decreases if p < |data| then |data| - p else 0
  {
    var n := ByteAt(data, p);
    if n == 0 then p + 1 else Past(data, p + 1 + n)
  }

  /** A place in the file, all places past the end being the same. */
  function Clip(data: seq<byte>, p: nat): nat {
    if p < |data| then p else |data|
  }

  /** The position after reading one byte: at the end of the file it stays where it is. */
  function After(data: seq<byte>, p: nat): nat {
    if p < |data| then p + 1 else p
  }

  /** What is still to be read with n bytes left in the current sub-block. */
  function Rest(data: seq<byte>, p: nat, n: nat): seq<byte> {
    Bytes(data, p, n) + Payload(data, p + n)
  }

  /** Entering the next sub-block. */
  lemma RestOpen(data: seq<byte>, p: nat)
    ensures var n, q := ByteAt(data, p), After(data, p);
      && Payload(data, p) == (if n == 0 then [] else Rest(data, q, n))
      && Clip(data, Past(data, p)) == Clip(data, if n == 0 then q else Past(data, q + n))
  {
    hide Bytes, Payload, Past;
    PayloadStep(data, p, ByteAt(data, p), p + 1 + ByteAt(data, p));
  }

  lemma PayloadStep(data: seq<byte>, p: nat, n: nat, q: nat)
    requires n == ByteAt(data, p) && q == p + 1 + n
    ensures Payload(data, p) == if n == 0 then [] else Bytes(data, p + 1, n) + Payload(data, q)
    ensures Past(data, p) == if n == 0 then p + 1 else Past(data, q)
  {
    hide Bytes;
  }

  /** Taking a byte out of the current one; beyond the end of the file the position does not move. */
  lemma RestTake(data: seq<byte>, p: nat, n: nat)
    requires n > 0
    ensures var q := After(data, p);
      && Rest(data, p, n) == [ByteAt(data, p)] + Rest(data, q, n - 1)
      && Clip(data, Past(data, p + n)) == Clip(data, Past(data, q + n - 1))
  {
    if p < |data| {
      assert Bytes(data, p, n) == [ByteAt(data, p)] + Bytes(data, p + 1, n - 1);
    } else {
      assert Bytes(data, p, n) == [ByteAt(data, p)] + Bytes(data, p, n - 1);
      assert Payload(data, p + n) == [] && Payload(data, p + n - 1) == [];
    }
  }

  function Concat(blocks: seq<seq<byte>>): seq<byte> {
    if blocks == [] then [] else blocks[0] + Concat(blocks[1..])
  }

  /** Sub-blocks as they are written: of any lengths from 1 to 255. */
  ghost predicate Blocks(blocks: seq<seq<byte>>) {
    forall i :: 0 <= i < |blocks| ==> 1 <= |blocks[i]| <= 255
  }

  function Chain(blocks: seq<seq<byte>>): (s: seq<byte>)
    requires Blocks(blocks)
  {
    if blocks == [] then [0] else [LengthByte(blocks[0])] + blocks[0] + Chain(blocks[1..])
  }

  function LengthByte(b: seq<byte>): byte
    requires |b| <= 255
  {
    |b|
  }

  /** These bytes stand in the data at p. */
  ghost predicate StandAt(data: seq<byte>, p: nat, s: seq<byte>) {
    p + |s| <= |data| && data[p..p + |s|] == s
  }

  /** However the bytes are cut into sub-blocks, reading the chain gives them back and ends behind it. */
  lemma {:induction false} ChainRead(blocks: seq<seq<byte>>, data: seq<byte>, p: nat)
    requires Blocks(blocks) && StandAt(data, p, Chain(blocks))
    ensures Payload(data, p) == Concat(blocks) && Past(data, p) == p + |Chain(blocks)|
    decreases |blocks|
  {
    hide Bytes, Payload, Past, Clip, StandAt;
    if blocks == [] {
      assert Chain(blocks) == [0] + [] + [];
      PartsRead(data, p, 0, [], []);
      PayloadStep(data, p, 0, p + 1);
    } else {
      var b := blocks[0];
      PartsRead(data, p, LengthByte(b), b, Chain(blocks[1..]));
      PayloadStep(data, p, |b|, p + 1 + |b|);
      ChainRead(blocks[1..], data, p + 1 + |b|);
    }
  }

  lemma PartsRead(data: seq<byte>, p: nat, l: byte, b: seq<byte>, t: seq<byte>)
    requires StandAt(data, p, [l] + b + t)
    ensures ByteAt(data, p) == l && Bytes(data, p + 1, |b|) == b && StandAt(data, p + 1 + |b|, t)
  {
    var c := [l] + b + t;
    assert data[p..p + |c|][0] == c[0];
    forall i | 0 <= i < |b|
      ensures Bytes(data, p + 1, |b|)[i] == b[i]
    {
      assert data[p..p + |c|][1 + i] == c[1 + i];
    }
    assert data[p + 1 + |b|..p + 1 + |b| + |t|] == data[p..p + |c|][1 + |b|..];
    assert c[1 + |b|..] == t;
  }
}
