/** The decoder's entry points: what a caller gets back. */
module ZlibDecode {
  import opened Bits
  import opened Deflate
  import opened Encoder
  import opened Inflater
  import opened Rfc1951

  /** stbi_zlib_decode_malloc_guesssize_headerflag with an expandable buffer, and stbi__do_zlib in
      general. A file that the encoder can write, with its checksum behind it, comes back as what it
      expands to, for every initial buffer that has room for one byte; and a result is always the
      expansion of blocks that the input encodes. A text that is stored, or spelled in the codes of RFC 1951
      section 3.2.6, comes back as itself. */
  method DoZlib(buffer: seq<byte>, initial: nat, expandable: bool, parseHeader: bool) returns (ok: bool, out: seq<byte>)
    requires 1 <= initial <= UINT_MAX
    ensures forall f: File :: IsInput(f, buffer, parseHeader) && |f.Expansion()| <= Capacity(initial, expandable)
              ==> (ok && out == f.Expansion())
    ensures forall text :: IsStoredFile(buffer, parseHeader, text) && |text| <= Capacity(initial, expandable) ==> ok && out == text
    ensures forall text :: IsLiteralFile(buffer, parseHeader, text) && |text| <= Capacity(initial, expandable) ==> ok && out == text
    ensures forall tokens :: IsFixedFile(buffer, parseHeader, tokens) && TextOf(tokens, []).Some?
              && |TextOf(tokens, []).value| <= Capacity(initial, expandable)
              ==> ok && out == TextOf(tokens, []).value
    ensures ok ==> exists blocks :: Encodes(blocks, buffer, parseHeader) && out == ExpandBlocks(blocks, [])
    ensures var r := Inflate(buffer, parseHeader, Capacity(initial, expandable));
      if ok then r.Ok? && out == r.value else r.Ok? ==> 8 * |buffer| < r.pos + 16
  {
    var a := new ZBuf(buffer, initial, expandable);
    ok := a.ParseZlib(parseHeader);
    out := [];
    if ok {
      out := a.zoutStart[..a.zout];
      var blocks := InflateAcceptsOnlyDeflate(buffer, parseHeader, a.cap);
      assert Encodes(blocks, buffer, parseHeader);
    }
    forall f: File | IsInput(f, buffer, parseHeader) && |f.Expansion()| <= Capacity(initial, expandable)
      ensures ok && out == f.Expansion()
    {
      InflateInvertsDeflate(f, a.cap);
    }
    forall text | IsStoredFile(buffer, parseHeader, text) && |text| <= Capacity(initial, expandable)
      ensures ok && out == text
    {
      StoredFileInflates(buffer, parseHeader, text, a.cap);
    }
    forall text | IsLiteralFile(buffer, parseHeader, text) && |text| <= Capacity(initial, expandable)
      ensures ok && out == text
    {
      LiteralFileInflates(buffer, parseHeader, text, a.cap);
    }
    forall tokens | IsFixedFile(buffer, parseHeader, tokens) && TextOf(tokens, []).Some?
        && |TextOf(tokens, []).value| <= Capacity(initial, expandable)
      ensures ok && out == TextOf(tokens, []).value
    {
      FixedFileInflates(buffer, parseHeader, tokens, a.cap);
    }
  }

  ghost predicate IsInput(f: File, buffer: seq<byte>, parseHeader: bool) {
    f.Valid() && buffer == f.Bytes() && parseHeader == (f.header != [])
  }

  /** The stream begins, after its header, with the encoding of these blocks (reading as zeros past its end). */
  ghost predicate Encodes(blocks: seq<BlockData>, data: seq<byte>, header: bool) {
    && (header ==> ZlibHeader(data))
    && blocks != [] && ValidBlocks(blocks, [])
    && var p := if header then 16 else 0; At(ToBits(data), p, WriteBlocks(blocks, p, []))
  }
}
