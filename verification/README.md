# Rune: decoders, resources and rendering, verified

A Dafny model of the parts of the Rune engine in which a step can go wrong unnoticed. The image decoder
that the engine compiles in is modelled as it runs: cursors, tables and pixel buffers are fields and
arrays that loops update in place, and every such method is proved against a specification written
without them. The specifications in turn are proved to be what the formats promise, by an encoder on the
other side.

| files | what they model | main result |
|---|---|---|
| `Bits`, `Words`, `Canonical`, `Wrappers` | bit streams, machine words, canonical prefix codes, the bit-at-a-time decoder | Kraft's inequality decides; codes are prefix-free |
| `ZHuffman`, `Inflater`, `ZlibDecode` | the zlib inflater (RFC 1950, RFC 1951) | it refines the bit-at-a-time reading in `Deflate` |
| `Deflate`, `Encoder`, `Rfc1951` | the meaning of a DEFLATE stream, writing one, and files given by their bits | inflating inverts encoding, and accepts nothing else; every byte sequence has an encoding |
| `Filters`, `PngRows`, `PngExpand`, `Png`, `Adam7`, `PngPixels`, `PngDecode`, `PngEncoder` | PNG reconstruction (RFC 2083 sections 2.6 and 6) | every stored image comes back, interlaced or not, and only stored images are decoded |
| `GifOrder`, `GifLzw`, `GifWelch`, `GifBlocks`, `GifPaint`, `GifRaster`, `GifDecode` | LZW and the raster of GIF (GIF89a Appendices E and F) | decoding inverts encoding, and accepts nothing else; every pixel is drawn once |
| `JpegHuffman`, `JpegStream`, `JpegDecode`, `JpegAc`, `JpegZigzag`, `JpegBlock`, `JpegBlockEncoder` | the JPEG entropy decoder (ITU-T T.81 Annex C, F.1.2, F.2.2) | both fast tables agree with the canonical decoder; decoding a block inverts encoding |
| `Resources` | the resource loader | loads exactly what is needed, dependencies first |
| `Renderer` | draw call collection and the frames in flight | a command list lives for exactly two flushes |
| `Audio` | the stream ring | what is queued is the sound repeated |
| `MeshFile` | the binary mesh writer and reader | what is read was written, exactly up to 255 submeshes |
| `Ini`, `Config` | trimming, the INI reader and the flat configuration | printing then parsing is the identity on exactly the maps that can be parsed |
| `Plane` | the plane generator | a consistently wound grid |

Where the code does not do what one would expect, the exact condition is proved: a JPEG table with 256
codes whose last is short (`JpegDecode.UnnamedIff`), minimum LZW code sizes below 2
(`GifLzw.RoundTripIff`), more than 255 submeshes (`MeshFile.RoundTripIff`), colliding flat configuration
keys (`Config.LostIff`), missing factories (`Resources.LoadClosedIff`), a camera buffer that is written
again while it is still in use (`Renderer.CameraOverwrittenIff`), sounds too short for their buffers
(`Audio.QueueingInBoundsIff`, `Audio.RefillsInBoundsIff`), the first texture coordinate of a plane, which
runs on from row to row (`Plane.TexCoordPlace`), and grids or draw calls beyond 32-bit numbers
(`Plane.WrapsIff`, `Plane.VerticesIff`, `Renderer.SystemRenderer.RenderStaticMesh`).

Where the decoder and its encoder share a table or a formula, the table is pinned down by a law that does
not use it: `Rfc1951` for the numbers and whole files of RFC 1951, `PngPixels` for the bytes of a PNG
image, `GifWelch` for the codes of a GIF raster, `JpegZigzag.ZigzagPath` for the order of coefficients,
`MeshFile.Layout` for the mesh file, and `Ini.RemarkInserted` and the lemmas beside it for the lines of an
INI file.

The buffer words of the bit readers are masked, shifted, rotated and joined by the operators of `Words`,
which work on the bits of a word, and what they are on numbers is proved there. Elsewhere numbers are
integers, and masks and shifts by constants are written with % and /. `hide` statements at the start of a
body only keep the proof from unfolding what it does not need.

## Model

| member | source | states |
|---|---|---|
| `Canonical.LevelsFitIffKraft` | Rune/libs/include/stb_image.h:4831-4847 | checking every used length on the way up is the same as checking the Kraft sum once |
| `Canonical.CodeFits` | Rune/libs/include/stb_image.h:4834-4847 | under Kraft's inequality every canonical code fits in its own length |
| `Canonical.CodesFillSpace` | Rune/libs/include/stb_image.h:4834-4857 | the canonical code is the one that divides up the code space in order of length, and of symbol among equals, without a gap |
| `Canonical.PrefixFree` | Rune/libs/include/stb_image.h:4834-4870 | no code is a prefix of another symbol's code |
| `Canonical.SlotInjective` | Rune/libs/include/stb_image.h:4849-4857 | sorting by length gives different symbols different slots |
| `Canonical.LookupFinds` | Rune/libs/include/stb_image.h:4928-4948 | whatever the other codes are, a code that stands in the stream is the one reading bit by bit finds, and there is only one |
| `Canonical.LookupMisses` | Rune/libs/include/stb_image.h:4937-4938 | bits past the last code of the greatest length meet no code at all |
| `Words.StripesAreMasks` | Rune/libs/include/stb_image.h:4803-4810 | the striped words that the swaps use have the eight hexadecimal values of the source |
| `Words.SwapsReverse` | Rune/libs/include/stb_image.h:4803-4810 | the four masked swaps reverse the low 16 bits of any number |
| `ZHuffman.BitReverseIsReverse` | Rune/libs/include/stb_image.h:4803-4818 | the swaps followed by the shift are the reversal of the low bits, for every width |
| `ZHuffman.ClaimsDisjoint` | Rune/libs/include/stb_image.h:4858-4866 | no two codes claim the same slot of the nine-bit table |
| `ZHuffman.ClaimIsMatch` | Rune/libs/include/stb_image.h:4860-4865 | a slot is claimed by a symbol exactly if the stream that has the slot as its lookahead begins with the symbol's code |
| `ZHuffman.Table.SizesFit` | Rune/libs/include/stb_image.h:4831-4833 | the early test on the counts rejects only lists that Kraft's inequality rejects |
| `ZHuffman.Table.FirstCodes` | Rune/libs/include/stb_image.h:4834-4848 | first codes, preshifted limits and first slots of every length; it succeeds exactly if every level fits |
| `ZHuffman.Table.Build` | Rune/libs/include/stb_image.h:4820-4871 | accepts exactly the lists (entries at most 15) with Kraft sum at most one, and then the arrays are the table of that list |
| `Words.OrByte` | Rune/libs/include/stb_image.h:4912 | `|` with a byte shifted above the valid bits is an addition without carry |
| `Words.MaskNumber` | Rune/libs/include/stb_image.h:4922 | masking a word with n ones gives its remainder by 2^n |
| `Words.RightNumber` | Rune/libs/include/stb_image.h:4923 | shifting a word to the right divides it |
| `Inflater.ZBuf.FillBits` | Rune/libs/include/stb_image.h:4903-4915 | the buffer holds exactly the next bits of the zero-padded input, more than 24 of them; the corrupt-buffer test never fires |
| `Inflater.ZBuf.Receive` | Rune/libs/include/stb_image.h:4917-4926 | the next n bits of the stream, least significant first, and the position n further |
| `Inflater.FastLookup` | Rune/libs/include/stb_image.h:4961-4968 | a non-zero entry under the next nine bits is the symbol and length that reading bit by bit finds; a zero entry means the bits are past all short codes |
| `Inflater.HitLevel` | Rune/libs/include/stb_image.h:4934-4940 | the first limit the reversed bits are below gives the length, and the offsets the slot of the symbol |
| `Inflater.ZBuf.DecodeSlowpath` | Rune/libs/include/stb_image.h:4928-4948 | same symbol and same bits as the bit-at-a-time decoder, failure exactly if there is no code; neither late check ever fires |
| `Inflater.ZBuf.Decode` | Rune/libs/include/stb_image.h:4950-4970 | same symbol and bits as the bit-at-a-time decoder; it gives up exactly if there is no code, or with fewer than 16 bits buffered and the input used up |
| `Inflater.ZBuf.Zexpand` | Rune/libs/include/stb_image.h:4972-4997 | room for n more bytes with the output kept; it fails exactly if they cannot fit in the largest buffer that doubling reaches |
| `Inflater.ZBuf.PutMatch` | Rune/libs/include/stb_image.h:5052-5079 | the output after a match is the LZ77 copy, overlapping or not, by either loop |
| `Deflate.CopyIsPeriodic` | Rune/libs/include/stb_image.h:5060-5079 | byte i of a copy is byte i % dist of the last dist bytes of the output before it, which stays in front |
| `Inflater.ZBuf.ReadDistance` | Rune/libs/include/stb_image.h:5045-5051 | a distance code below 30 and its extra bits |
| `Inflater.ZBuf.ParseHuffmanBlock` | Rune/libs/include/stb_image.h:5011-5082 | the output of a compressed block is what its tokens mean, read bit by bit |
| `Inflater.ZBuf.ReadCodeLengths` | Rune/libs/include/stb_image.h:5106-5143 | the run-length coded code lengths, with the failures for repeating nothing and for overrunning the count |
| `Inflater.ZBuf.ComputeHuffmanCodes` | Rune/libs/include/stb_image.h:5084-5149 | the two codes that the header of a dynamic block describes, or failure if it describes none |
| `Inflater.ZBuf.DrainBytes` | Rune/libs/include/stb_image.h:5155-5164 | at a byte boundary at most three whole bytes are buffered, and they are the next bytes of the input |
| `Inflater.ZBuf.ReadHeader` | Rune/libs/include/stb_image.h:5155-5169 | the four header bytes are those at the byte boundary, and afterwards the byte pointer stands exactly on the payload |
| `Inflater.ZBuf.CopyPayload` | Rune/libs/include/stb_image.h:5174-5182 | copies exactly the bytes at the input cursor, and fails exactly if they are not there or do not fit |
| `Inflater.ZBuf.ParseUncompressedBlock` | Rune/libs/include/stb_image.h:5151-5183 | a stored block appends its bytes; it fails exactly on a wrong complement, missing data or too little room |
| `Inflater.ZBuf.ParseZlibHeader` | Rune/libs/include/stb_image.h:5185-5201 | accepts exactly the two-byte headers of RFC 1950 section 2.2 without a preset dictionary and with data behind them |
| `Deflate.FixedCodesAccepted` | Rune/libs/include/stb_image.h:5203-5256 | the fixed code lengths, 8, 9, 7 and 8 for the literals and 5 for the distances, meet Kraft's inequality, so building their tables cannot fail |
| `Inflater.ZBuf.ParseBlock` | Rune/libs/include/stb_image.h:5238-5265 | one block of any kind refines its bit-at-a-time meaning |
| `Inflater.ZBuf.ParseZlib` | Rune/libs/include/stb_image.h:5227-5268 | success gives exactly the meaning of the stream and stops behind its last block; failure on a meaningful stream only with fewer than 16 bits behind it |
| `Encoder.TokensRead` | Rune/libs/include/stb_image.h:5011-5082 | reading a block back gives the LZ77 expansion of its tokens, for every code that has the symbols needed |
| `Encoder.TokensWritten` | Rune/libs/include/stb_image.h:5011-5082 | conversely a block that is read was written for some valid tokens |
| `Encoder.HeaderRead` | Rune/libs/include/stb_image.h:5084-5149 | the written header of a dynamic block is read as the same two codes |
| `Encoder.StoredRead` | Rune/libs/include/stb_image.h:5151-5183 | a written stored block is read as its bytes |
| `Encoder.BlocksRead` | Rune/libs/include/stb_image.h:5235-5267 | any list of stored, fixed and dynamic blocks is read as their joint expansion |
| `Encoder.InflateInvertsDeflate` | Rune/libs/include/stb_image.h:5227-5268 | inflating the bytes of an encoded file gives its expansion, with or without the zlib header and with any trailer |
| `Encoder.InflateAcceptsOnlyDeflate` | Rune/libs/include/stb_image.h:5227-5268 | whatever is inflated begins with the encoding of blocks that expand to the result |
| `Encoder.EveryTextHasFile` | Rune/libs/include/stb_image.h:5151-5183 | every sequence of bytes, cut into stored blocks, is the expansion of a file, with or without the zlib header |
| `Encoder.EveryMatchHasSymbols` | Rune/libs/include/stb_image.h:4999-5009 | every match of length 3 to 258 and distance 1 to 32768 has symbols and extra bits in the tables |
| `Rfc1951.FixedLiteralCodes` | Rune/libs/include/stb_image.h:5203-5211 | the fixed literal codes are 48 to 191 in eight bits, 400 to 511 in nine, 0 to 23 in seven and 192 to 199 in eight |
| `Rfc1951.FixedDistanceCodes` | Rune/libs/include/stb_image.h:5212-5213 | the fixed distance codes are the five bits of the symbol |
| `Rfc1951.LengthTable` | Rune/libs/include/stb_image.h:4999-5003 | after the first eight, four length symbols each share a number of extra bits, without a gap; 258 has its own |
| `Rfc1951.DistanceTable` | Rune/libs/include/stb_image.h:5004-5009 | after the first four, two distance symbols each share a number of extra bits, without a gap |
| `Rfc1951.OrderOutwards` | Rune/libs/include/stb_image.h:5086 | the code length code is stored with the runs and zero first, and then outwards from eight |
| `Rfc1951.RunLengths` | Rune/libs/include/stb_image.h:5117-5131 | the last length 3 to 6 times, 3 to 10 zeros, 11 to 138 zeros |
| `Rfc1951.HeaderIsFields` | Rune/libs/include/stb_image.h:5185-5201 | exactly the headers of a window size, method 8, a level, no dictionary and fitting check bits |
| `Rfc1951.StoredFileInflates` | Rune/libs/include/stb_image.h:5151-5183 | a stored text, given by its bytes, is inflated to itself |
| `Rfc1951.LiteralFileInflates` | Rune/libs/include/stb_image.h:5203-5256 | a text spelled in the fixed codes, given by its bits, is inflated to itself |
| `Rfc1951.FixedFileInflates` | Rune/libs/include/stb_image.h:5203-5256 | so is one with matches |
| `Inflater.GrownDoubles` | Rune/libs/include/stb_image.h:4979-4987 | the buffer may grow to the last doubling that is a 32-bit number |
| `ZlibDecode.DoZlib` | Rune/libs/include/stb_image.h:5270-5320 | the caller gets back what an encodable file expands to, for every initial buffer of at least one byte; a result is always such an expansion; the failures are those of the stream or of a missing trailer; a text that is stored, or spelled in the fixed codes of RFC 1951, is given back as itself |
| `Filters.PaethIsNearest` | Rune/libs/include/stb_image.h:5427-5438 | the predictor is the nearest of its three arguments to a + b - c, ties going to a and then to b |
| `Filters.RestoreFollows` | Rune/libs/include/stb_image.h:5541-5580 | filter type 0 gives the stored byte, 1 adds the one to the left, 2 the one above, 3 their mean rounded down, 4 whichever of left, above and above left is nearest to left + above - above left, in that order |
| `Filters.RowFollows` | Rune/libs/include/stb_image.h:5473-5580 | every byte of a decoded row follows in this way from the stored byte and its neighbours, zeros standing left of and above the image |
| `Filters.ReconRestores` | Rune/libs/include/stb_image.h:5499-5508 | each case gives the byte that follows by the filter type; the first-row stand-ins, whatever lies above, the one that follows below a row of zeros |
| `Filters.UnfilterAt` | Rune/libs/include/stb_image.h:5541-5580 | every byte of an unfiltered row follows from the bytes to the left, above and above left |
| `Filters.UnfilterInvertsFilter` | Rune/libs/include/stb_image.h:5473-5642 | unfiltering undoes filtering, for every choice of filter per row and any bytes behind the image |
| `Filters.FilterInvertsUnfilter` | Rune/libs/include/stb_image.h:5541-5580 | conversely a stored row is the filtering of the row it is decoded to |
| `Filters.FilterInvertsDecoding` | Rune/libs/include/stb_image.h:5473-5642 | every image that can be decoded is the filtering of the rows it decodes to |
| `PngRows.FlatRow` | Rune/libs/include/stb_image.h:5496-5583 | a row without inserted channel is written as the unfiltered row, and nothing outside it changes |
| `PngRows.AlphaRow` | Rune/libs/include/stb_image.h:5584-5641 | a row with inserted alpha holds the unfiltered channels and 255 in every byte of the alpha samples |
| `PngExpand.NotYetOverwritten` | Rune/libs/include/stb_image.h:5651-5717 | when a sample is written from the left, the packed byte it comes from has not been reached |
| `PngExpand.UnpackInvertsPack` | Rune/libs/include/stb_image.h:5656-5717 | unpacking gives back the packed samples of 1, 2 and 4 bits, times the scale of grey images |
| `PngExpand.ExpandRow` | Rune/libs/include/stb_image.h:5656-5717 | the in-place expansion equals unpacking into a fresh buffer, for every width, and stays inside its line |
| `PngExpand.InsertAlpha` | Rune/libs/include/stb_image.h:5718-5742 | the right-to-left move loses no sample and puts 255 behind every pixel |
| `Png.WidthIsRoundedUp` | Rune/libs/include/stb_image.h:5462-5465 | the width of a line in bytes is its bits rounded up, for every depth |
| `Png.UnfilterLine` | Rune/libs/include/stb_image.h:5473-5642 | one more line is unfiltered and the lines before it are kept |
| `Png.ExpandLine` | Rune/libs/include/stb_image.h:5649-5743 | one packed line becomes pixels, with its alpha if it has one, in place |
| `Png.ToNative` | Rune/libs/include/stb_image.h:5745-5758 | 16-bit samples are put in native byte order, sample by sample |
| `Png.CreateImageRaw` | Rune/libs/include/stb_image.h:5443-5761 | succeeds exactly if the sizes pass, the data suffice, every filter type exists and packed lines are no wider than their pixels; then every line is the unfiltered row, expanded |
| `Adam7.TablesAgree` | Rune/libs/include/stb_image.h:5779-5786 | the closed forms of the model are the source's formulas over its four tables |
| `Adam7.EveryPixelHasAPass` | Rune/libs/include/stb_image.h:5779-5801 | every pixel is in a pass |
| `Adam7.OnePassPerPixel` | Rune/libs/include/stb_image.h:5779-5801 | no pixel is in two passes |
| `Adam7.PassPattern` | Rune/libs/include/stb_image.h:5779-5782 | the pass of a pixel is that of the 8 by 8 pattern of RFC 2083 section 2.6 |
| `Adam7.PassCovers` | Rune/libs/include/stb_image.h:5779-5801 | a pixel of a pass is at one place of it, inside its columns and lines |
| `Adam7.PassInside` | Rune/libs/include/stb_image.h:5779-5801 | every place of a pass is a pixel of the image in that pass |
| `Adam7.StartIsLinear` | Rune/libs/include/stb_image.h:5799-5801 | pixels start where the source computes them from row times width plus column |
| `Adam7.CopyPass` | Rune/libs/include/stb_image.h:5795-5803 | the pixels of the pass are those of its own image, all others are kept |
| `Adam7.CreateInterlaced` | Rune/libs/include/stb_image.h:5773-5811 | succeeds exactly if every non-empty pass does on its own img_len bytes; then every pixel comes from its pass |
| `PngDecode.FilteredComesBack` | Rune/libs/include/stb_image.h:5443-5761 | the decoded image shows the rows that were filtered |
| `PngDecode.InterlacedComesBack` | Rune/libs/include/stb_image.h:5773-5811 | de-interlacing undoes the extraction of the seven passes, each with its own choice of filters |
| `PngDecode.DecodableIff` | Rune/libs/include/stb_image.h:5443-5512 | data can be decoded exactly if the sizes pass and they are filtered rows with anything behind them |
| `PngPixels.DecodableInNumbers` | Rune/libs/include/stb_image.h:5443-5487 | refused are sizes beyond an int, packed rows longer than their line, too few bytes, and unknown filter types, and nothing else |
| `PngPixels.ChannelPlaced` | Rune/libs/include/stb_image.h:5651-5760 | a channel of the output is the stored byte, the two stored bytes in native order, or the packed bits, scaled to 255 if grey |
| `PngPixels.ImageDecoded` | Rune/libs/include/stb_image.h:5443-5761 | byte by byte: there are rows in which every byte follows from the stored bytes by its filter type, and the output shows their samples, with opaque alpha inserted |
| `PngPixels.InterlacedDecoded` | Rune/libs/include/stb_image.h:5773-5811 | likewise for the seven passes, each pixel shown by the row and column of its own pass |
| `PngDecode.PassesDecodableIff` | Rune/libs/include/stb_image.h:5773-5811 | interlaced data can be decoded exactly if the passes fit and they are seven filtered passes with anything behind them |
| `PngDecode.FitsPasses` | Rune/libs/include/stb_image.h:5443-5486 | an image that passes the size checks has only passes that do |
| `PngEncoder.EveryImageHasRows` | Rune/libs/include/stb_image.h:5443-5761 | every image has rows that decode to it, whatever filter is chosen for each |
| `PngEncoder.EveryImageHasPasses` | Rune/libs/include/stb_image.h:5773-5811 | every image has seven passes that interlace it, whatever filter is chosen for each of their rows |
| `PngDecode.CreateImage` | Rune/libs/include/stb_image.h:5763-5812 | every image that was stored, interlaced or not, comes back pixel by pixel; and whatever is decoded is the picture, byte by byte, that the stored bytes stand for |
| `GifOrder.CursorFollowsOrder` | Rune/libs/include/stb_image.h:7990-8000 | the rows visited are those of the order of GIF89a Appendix E, every row in turn or in four interlaced passes |
| `GifOrder.EveryRowOnce` | Rune/libs/include/stb_image.h:7990-8000 | the order has every row of the rectangle once and no other |
| `GifOrder.RowsInFour` | Rune/libs/include/stb_image.h:7990-8000 | row k of an interlaced frame, by its number: every 8th row, every 8th from 4, every 4th from 2, every 2nd from 1 |
| `GifOrder.CursorVisits` | Rune/libs/include/stb_image.h:7988-8000 | pixel n is column n % w of row n / w of the order; from w * h on the cursor is below the rectangle |
| `GifOrder.EveryPixelOnce` | Rune/libs/include/stb_image.h:7988-8000 | every pixel of the rectangle is visited at exactly one of the first w * h steps |
| `GifLzw.WidenKeepsLeast` | Rune/libs/include/stb_image.h:8087-8091 | widening when the table size is a multiple of the code range keeps the least width that can hold the size, at most 12 bits |
| `GifLzw.StartsRight` | Rune/libs/include/stb_image.h:8013-8014 | the starting width is that width exactly for minimum code sizes from 2 on |
| `GifLzw.RoundTripIff` | Rune/libs/include/stb_image.h:8004-8106 | decoding gives back what every encoder wrote exactly for minimum code sizes from 2 on; for 0 and 1 there are texts that are lost |
| `GifLzw.TextLearned` | Rune/libs/include/stb_image.h:8064-8079 | the string of a legal code is its entry once the new entry is made, also for the code just ahead of the table |
| `GifLzw.LegalIff` | Rune/libs/include/stb_image.h:8068-8103 | refused are codes beyond the next entry, the next entry when there is nothing to extend, codes before the first clear code, and a table of more than 8192 entries |
| `GifLzw.ClearComesFirst` | Rune/libs/include/stb_image.h:8068-8073 | a raster that begins with neither a clear nor an end code is refused |
| `GifLzw.LetterComesSecond` | Rune/libs/include/stb_image.h:8087-8103 | so is one in which a clear code is followed by an entry that is not there |
| `GifLzw.CodesRead` | Rune/libs/include/stb_image.h:8030-8104 | decoding gives back the text of any encoder that writes phrases of its dictionary and clears when it likes |
| `GifWelch.RunsWritten` | Rune/libs/include/stb_image.h:8030-8104 | codes given by their numbers, each standing for a letter or for what an earlier code of its run stood for and the letter after it, are what an encoder writes |
| `GifWelch.WelchDecodes` | Rune/libs/include/stb_image.h:8030-8104 | and they are decoded to what they stand for |
| `GifLzw.CodesWritten` | Rune/libs/include/stb_image.h:8030-8104 | whatever is decoded was written by such an encoder |
| `GifLzw.CompressWrites` | Rune/libs/include/stb_image.h:8030-8104 | the greedy encoder is one, for every text over the alphabet |
| `GifBlocks.ChainRead` | Rune/libs/include/stb_image.h:8032-8040 | however the codes are cut into sub-blocks, reading the chain gives them back and ends behind it |
| `GifPaint.PixelsDiffer` | Rune/libs/include/stb_image.h:7975-8000 | different steps of the raster draw on different pixels of the image |
| `GifPaint.PixelReached` | Rune/libs/include/stb_image.h:7975-8000 | every pixel of the rectangle is reached, at its place in the image |
| `GifPaint.Touched` | Rune/libs/include/stb_image.h:7976-7987 | a pixel that was reached shows its own index, unless that colour is transparent |
| `GifPaint.Untouched` | Rune/libs/include/stb_image.h:7976-7987 | a pixel that was not reached is as before |
| `GifPaint.Surplus` | Rune/libs/include/stb_image.h:7972-7973 | indices past the last pixel draw nothing |
| `GifPaint.MarkedAt` | Rune/libs/include/stb_image.h:7977-7977 | the history is set exactly at the pixels reached |
| `GifRaster.EntryLearned` | Rune/libs/include/stb_image.h:8071-8079 | a new entry keeps the forest: prefixes below their index, first letters right, and its string is the last string and one letter |
| `GifRaster.HoldsNext` | Rune/libs/include/stb_image.h:8064-8093 | the entry is right also when the code is its own, where the source reads the letter it has just stored |
| `GifRaster.Gif.BeginImage` | Rune/libs/include/stb_image.h:8198-8231 | accepts exactly rectangles inside the image and sets the cursor to the first pixel, or below the last row if there are no columns |
| `GifRaster.Gif.Advance` | Rune/libs/include/stb_image.h:7988-8000 | one step of the cursor in byte offsets is one step of the raster order |
| `GifRaster.Gif.OutGifCode` | Rune/libs/include/stb_image.h:7963-8001 | the recursion over the prefixes terminates and draws the string of the code in order |
| `GifRaster.Gif.TextCode` | Rune/libs/include/stb_image.h:8064-8100 | accepts exactly the legal codes, draws their text, and the table follows the reference decoder |
| `GifRaster.Gif.ProcessGifRaster` | Rune/libs/include/stb_image.h:8004-8106 | result, indices drawn and position in the file are those of the reference decoder on the bits of the sub-blocks, errors included |
| `GifDecode.LoadFrame` | Rune/libs/include/stb_image.h:8193-8243 | an encoded raster draws exactly its text and leaves the file behind its last sub-block; what is accepted was written by an encoder; codes given by their numbers draw what they stand for, and every letter shows the palette entry of its number, byte by byte |
| `GifDecode.EveryTextHasRaster` | Rune/libs/include/stb_image.h:8004-8106 | for minimum code sizes 2 to 8 every text over the letters has a raster that is read back as the text |
| `GifDecode.FramePixel` | Rune/libs/include/stb_image.h:7963-8001 | pixel i of row k of the order shows letter k * w + i, unless transparent |
| `GifDecode.FrameShown` | Rune/libs/include/stb_image.h:7967-7987 | likewise for all letters of the text at once, as the caller of a frame gets them |
| `GifDecode.FrameOutside` | Rune/libs/include/stb_image.h:7963-8001 | pixels outside the rectangle keep their bytes |
| `JpegHuffman.SlotIsIndex` | Rune/libs/include/stb_image.h:2226-2259 | symbols numbered by ascending length are their own canonical slots |
| `JpegHuffman.SizeListCounts` | Rune/libs/include/stb_image.h:2231-2240 | the list of code lengths has as many codes of each length as the table says |
| `JpegHuffman.BeginsOnce` | Rune/libs/include/stb_image.h:2261-2278 | no two codes claim the same entry of the nine-bit table |
| `JpegHuffman.FastLookup` | Rune/libs/include/stb_image.h:2346-2358 | an entry below 255 is the symbol read bit by bit; otherwise the bits are past all short codes, or the symbol is number 255 |
| `JpegHuffman.Huffman.BuildHuffman` | Rune/libs/include/stb_image.h:2226-2280 | accepts exactly counts of at most 256 codes that meet Kraft's inequality, and then the arrays are the table of ITU-T T.81 Annex C |
| `JpegHuffman.Huffman.AssignCodes` | Rune/libs/include/stb_image.h:2242-2260 | codes, limits and offsets of every length; it fails exactly if some level does not fit |
| `JpegStream.StuffedComesBack` | Rune/libs/include/stb_image.h:2311-2331 | the bytes between stuffed zeros come back, up to a marker with any number of fill bytes |
| `JpegStream.BitsOfBit` | Rune/libs/include/stb_image.h:2311-2331 | the bits of every byte are taken from the highest down |
| `JpegDecode.Jpeg.GrowBuffer` | Rune/libs/include/stb_image.h:2311-2331 | the word goes on showing the stream at its top and zeros below; at least 25 bits unless a marker ends the known ones |
| `JpegDecode.HitLevel` | Rune/libs/include/stb_image.h:2365-2386 | the first limit the lookahead is below gives the length, and the offset the symbol |
| `JpegDecode.Jpeg.HuffDecode` | Rune/libs/include/stb_image.h:2337-2393 | the same symbol and bits as reading bit by bit; failure exactly if there is no code or it is longer than the bits buffered after filling the word, which happens only past the end; symbol 255 with a short code is decoded wrongly |
| `JpegDecode.UnnamedIff` | Rune/libs/include/stb_image.h:2262-2278 | that happens for some stream exactly if there are 256 codes and the last has at most nine bits |
| `Words.RotateNumber` | Rune/libs/include/stb_image.h:2405-2408 | rotating a word, masking the result and clearing the mask give its top bits and the word shifted |
| `JpegDecode.Jpeg.ExtendReceive` | Rune/libs/include/stb_image.h:2396-2412 | the value of the next n bits by the EXTEND procedure of ITU-T T.81 F.2.2.1, if they are there once the word has been filled; otherwise, only past the end, zero and nothing taken |
| `JpegAc.BuildFastAc` | Rune/libs/include/stb_image.h:2282-2309 | every entry describes the coefficient its lookahead begins with |
| `JpegAc.FastAcAgrees` | Rune/libs/include/stb_image.h:2282-2309 | under every stream, a non-zero entry has the run, value and length of decoding and then extending, and zero means that they do not fit |
| `JpegAc.ExtendInverts` | Rune/libs/include/stb_image.h:2394-2412 | extending the bits written for a value gives the value |
| `JpegAc.ExtendIsSigned` | Rune/libs/include/stb_image.h:2396-2412 | bits that begin with a one are a positive number, and inverting them all changes the sign |
| `JpegAc.AcComesBack` | Rune/libs/include/stb_image.h:2553-2591 | a coefficient written as code and value bits is read back |
| `JpegAc.DecodeAc` | Rune/libs/include/stb_image.h:2551-2591 | with the combined table or without, the step reads the coefficient that stands in the stream |
| `JpegZigzag.ZigzagInverts` | Rune/libs/include/stb_image.h:2444-2523 | the zigzag table is a permutation of the 64 places of a block |
| `JpegZigzag.ZigzagPath` | Rune/libs/include/stb_image.h:2444-2523 | up to the long diagonal, the places of diagonal d are numbered from d * (d + 1) / 2 on, upwards if d is even and downwards if it is odd |
| `JpegZigzag.ZigzagTurned` | Rune/libs/include/stb_image.h:2444-2523 | turned upside down the path is the same, walked backwards |
| `JpegZigzag.TableWalks` | Rune/libs/include/stb_image.h:2444-2523 | the table of the decoder puts every coefficient in the row and column in which this walk meets it |
| `JpegBlock.PutPastEnd` | Rune/libs/include/stb_image.h:2508-2523 | a run past the end of the block ends in the last place |
| `JpegBlock.AddValidIff` | Rune/libs/include/stb_image.h:1068-1076 | the check before an addition is exactly that the sum is an int |
| `JpegBlock.MulValidIff` | Rune/libs/include/stb_image.h:1078-1089 | for a short and a quantizer that is not negative as a short, the check is exactly that the product is a short |
| `JpegBlock.PutInPlace` | Rune/libs/include/stb_image.h:2568-2569 | a dequantized coefficient goes to its own place, the others keep theirs |
| `JpegBlock.DecodeDc` | Rune/libs/include/stb_image.h:2531-2546 | the DC coefficient is the one before plus the difference in the stream, refused exactly as the checks say |
| `JpegBlock.DecodeBlock` | Rune/libs/include/stb_image.h:2525-2594 | the block holds, dequantized and in place, exactly the coefficients that stand in the stream, and is refused exactly if they are bad; row by row, what the zigzag walk meets there |
| `JpegBlockEncoder.AcsRead` | Rune/libs/include/stb_image.h:2549-2592 | reading run lengths, zero runs and end of block gives back the AC coefficients |
| `JpegBlockEncoder.BlockComesBack` | Rune/libs/include/stb_image.h:2525-2594 | decoding a block undoes its encoding, for every table that has the symbols needed |
| `JpegBlockEncoder.ScanIsBits` | Rune/libs/include/stb_image.h:2311-2331 | a block that is packed into bytes, stuffed and ended by a marker is read as its bits |
| `JpegBlockEncoder.WriteThenDecode` | Rune/libs/include/stb_image.h:2311-2594 | a block written, packed, stuffed and decoded again comes back dequantized and in place, row by row as the zigzag walk goes |
| `Resources.NeededStep` | Rune/src/resources/system_manager.cpp:81-93 | what a resource needs is itself and what its dependencies need, if it is not loaded |
| `Resources.NeededNext` | Rune/src/resources/system_manager.cpp:89-92 | after some dependencies are loaded, the next one needs the same as at first, up to what is loaded already |
| `Resources.SystemResources.Load` | Rune/src/resources/system_manager.cpp:81-106 | terminates if what is still to be loaded has no cycle, and loads exactly the resources reachable through unloaded ones that have a factory; one factory call for each, with its dependencies loaded, and its result kept |
| `Resources.LoadResult` | Rune/src/resources/system_manager.cpp:81-106 | a resource that had to be loaded is what its factory returned when called with the dependencies there, everything else about it and all others are as before |
| `Resources.LoadClosedIff` | Rune/src/resources/system_manager.cpp:81-106 | the loaded resources stay closed under dependencies exactly if no factory is missing for a dependency of one that has a factory |
| `Resources.LoadedAfterwards` | Rune/src/resources/system_manager.cpp:81-106 | with all factories present the resource is loaded afterwards and closure is kept |
| `Resources.SystemResources.AddResource` | Rune/src/resources/system_manager.cpp:68-74 | the whole registry after adding a resource |
| `Resources.AddClosedIff` | Rune/src/resources/system_manager.cpp:68-74 | adding keeps closure exactly if the dependencies of the added resource are loaded |
| `Resources.SystemResources.Unload` | Rune/src/resources/system_manager.cpp:108-113 | the whole registry after unloading, or no change for an unknown id |
| `Resources.UnloadClosedIff` | Rune/src/resources/system_manager.cpp:108-113 | unloading keeps closure exactly if nothing else that is loaded depends on the resource |
| `Renderer.DestroyedOnce` | Rune/src/rendering/system_renderer.cpp:173-188 | in every run a command list is destroyed at the second later flush, once, and after its own fence was waited on in that flush |
| `Renderer.SemaphoreDroppedOnce` | Rune/src/rendering/system_renderer.cpp:173-188 | so is the semaphore of the submission |
| `Renderer.NotDestroyedYet` | Rune/src/rendering/system_renderer.cpp:173-188 | the command lists of the last two flushes are not destroyed yet |
| `Renderer.NumberOnce` | Rune/src/rendering/system_renderer.cpp:235-275 | no handle belongs to two submissions |
| `Renderer.SystemRenderer.RenderStaticMesh` | Rune/src/rendering/system_renderer.cpp:140-165 | the new draw call draws its own mesh, material and transform while fewer than 2^32 meshes were collected, although only some vectors are cleared |
| `Renderer.SystemRenderer.RenderCamera` | Rune/src/rendering/system_renderer.cpp:113-138 | a camera is kept exactly if its window has or gets a swap chain |
| `Renderer.SystemRenderer.BeginFrame` | Rune/src/rendering/system_renderer.cpp:173-188 | the frame of the flush before last is waited for and emptied, the other one is kept |
| `Renderer.SystemRenderer.FlushCamera` | Rune/src/rendering/system_renderer.cpp:221-285 | the camera goes into the one camera buffer, then one submission with all draw calls is made and remembered with fence and semaphore in the current frame |
| `Renderer.SubmittedAndWaited` | Rune/src/rendering/system_renderer.cpp:173-285 | where in the log a submission is made, between the write of its camera and its presentation, and where its fence is waited on |
| `Renderer.CameraOverwrittenIff` | Rune/src/rendering/system_renderer.cpp:230-235 | the camera buffer is written again before a submission is waited on exactly if there is a later camera in its flush or one in the next |
| `Renderer.SystemRenderer.GeometryPass` | Rune/src/rendering/system_renderer.cpp:287-305 | no index is out of range, and the draws are those of the draw calls in order |
| `Renderer.SystemRenderer.Flush` | Rune/src/rendering/system_renderer.cpp:167-198 | the run goes on by one batch, one submission per camera, each drawing what was asked for since the last flush |
| `Audio.FilledGoesOn` | Rune/src/audio/audio.cpp:58-74 | a buffer filled at the cursor continues the repeated sound exactly where it was |
| `Audio.QueueingInBoundsIff` | Rune/src/audio/audio.cpp:313-316 | the initial queueing reads inside the data exactly if they fill four buffers |
| `Audio.RefillsInBoundsIff` | Rune/src/audio/audio.cpp:60-74 | from any cursor, refilling for ever reads inside the data exactly if the cursor is not beyond them and they fill one buffer |
| `Audio.SourceData.SourcePlay` | Rune/src/audio/audio.cpp:313-317 | the first buffers are the start of the sound and the cursor is behind them |
| `Audio.SourceData.Refill` | Rune/src/audio/audio.cpp:52-78 | one more buffer of the repeated sound, for data of at least one buffer; reads in bounds, the cursor in 0..N and congruent to the bytes queued |
| `Audio.SourceData.UpdateStream` | Rune/src/audio/audio.cpp:42-80 | after any number of processed buffers all bytes queued are the sound repeated |
| `MeshFile.SectionBack` | AssetLib/src/mesh/static_mesh.cpp:124-134 | a vector comes back as far as its count goes, from any place of a file |
| `MeshFile.Layout` | AssetLib/src/mesh/static_mesh.cpp:175-216 | byte by byte: counts of eight bytes, or one for the submeshes, and numbers of four, low byte first, at their places in the file |
| `MeshFile.Export` | AssetLib/src/mesh/static_mesh.cpp:175-216 | appends the encoding of the mesh |
| `MeshFile.Import` | AssetLib/src/mesh/static_mesh.cpp:117-173 | reads the mesh at the position and stops behind it |
| `MeshFile.ImportInvertsExport` | AssetLib/src/mesh/static_mesh.cpp:117-216 | what is read back, and how many bytes of it, for every number of submeshes |
| `MeshFile.RoundTripIff` | AssetLib/src/mesh/static_mesh.cpp:162-216 | the mesh comes back, and is read to its end, exactly if it has at most 255 submeshes |
| `MeshFile.BackToBack` | AssetLib/src/mesh/static_mesh.cpp:117-216 | meshes written one after the other are read back in order |
| `MeshFile.ReadIffWritten` | AssetLib/src/mesh/static_mesh.cpp:117-216 | a mesh is read inside the file exactly if it was written there, with at most 255 submeshes |
| `MeshFile.AllReadIffWritten` | AssetLib/src/mesh/static_mesh.cpp:117-216 | meshes are read one after the other inside the file exactly if they were written so |
| `MeshFile.ExportThenImport` | AssetLib/src/mesh/static_mesh.cpp:117-216 | exporting and importing with anything before and behind |
| `Ini.TrimIff` | Rune/src/utility/strings.cpp:7-21 | the result is the trimmed text that the string is, between white space |
| `Ini.LeftTrim` | Rune/src/utility/strings.cpp:7-10 | white space is erased from the left, nothing else |
| `Ini.RightTrim` | Rune/src/utility/strings.cpp:12-15 | white space is erased from the right, nothing else |
| `Ini.EntryBackIff` | Rune/src/utility/ini_reader.cpp:106-116 | a line made of key and value is read as that entry exactly if the key is trimmed, has no '=' and looks neither like a header nor like a comment, and the value is trimmed |
| `Ini.IsSpaceIff` | Rune/src/utility/strings.cpp:7-15 | white space is the blank and the codes 9 to 13 |
| `Ini.RemarkInserted` | Rune/src/utility/ini_reader.cpp:92-95 | a blank line or a comment put anywhere between lines changes no section, and of the errors only the numbers of the lines behind it |
| `Ini.HeaderOpens` | Rune/src/utility/ini_reader.cpp:96-105 | a line in brackets opens its section and does nothing else |
| `Ini.BracketReported` | Rune/src/utility/ini_reader.cpp:98-102 | a line that begins with a bracket and does not end with one is an error with its number, and does nothing else |
| `Ini.InvalidReported` | Rune/src/utility/ini_reader.cpp:119 | a line that is nothing of all this is an error with its number, and does nothing else |
| `Ini.ErrorInserted` | Rune/src/utility/ini_reader.cpp:96-119 | the same for such lines put between other lines |
| `Ini.EntrySets` | Rune/src/utility/ini_reader.cpp:106-117 | a line with an equals sign sets its key in the current section, over an earlier value, and touches no other |
| `Ini.NulEnds` | Rune/src/utility/ini_reader.cpp:85 | what is behind a NUL is not read |
| `Ini.INIReader.ParseContent` | Rune/src/utility/ini_reader.cpp:80-120 | the loop over the lines computes the line-by-line meaning of the text, errors with their line numbers included |
| `Ini.INIReader.Parse` | Rune/src/utility/ini_reader.cpp:12-26 | earlier sections and errors are forgotten; an unreadable file is one error |
| `Ini.INIReader.GetKeys` | Rune/src/utility/ini_reader.cpp:44-60 | the keys of a section, each once |
| `Ini.INIReader.GetValue` | Rune/src/utility/ini_reader.cpp:62-78 | the value of the key in the section, if both exist |
| `Ini.ParseInvertsPrint` | Rune/src/utility/ini_reader.cpp:80-120 | a printed document is read as the map it stands for, without errors |
| `Ini.MapComesBack` | Rune/src/utility/ini_reader.cpp:80-120 | printing and parsing is the identity on maps with non-empty sections and texts a line can hold |
| `Ini.ParsedIff` | Rune/src/utility/ini_reader.cpp:80-120 | the maps some text is parsed to are exactly those whose sections are not empty and named by a line, with keys and values a line can hold |
| `Config.Values.LoadConfig` | Rune/src/core/config.cpp:18-45 | the table is what loading section by section, in some order of sections and keys, makes of the table before |
| `Config.OrderFlattens` | Rune/src/core/config.cpp:28-45 | whatever the order, every pair is in the table, explained by a pair with that flat key, and nothing else has changed |
| `Config.DotlessUnambiguous` | Rune/src/core/config.cpp:34-42 | no two pairs get one flat key if no section and no key outside sections has a dot |
| `Config.FoundAfterwards` | Rune/src/core/config.cpp:28-47 | an unambiguous pair has its value in the table, whatever the order |
| `Config.LostIff` | Rune/src/core/config.cpp:28-47 | there is an order of the loops that loses the value of a pair exactly if another pair has its flat key and another value |
| `Config.LoadAndGet` | Rune/src/core/config.cpp:18-82 | a configuration printed, loaded and asked for one of its keys answers with the value |
| `Plane.IndexBound` | Rune/src/utility/primitives.cpp:46-54 | every index is a vertex of the grid |
| `Plane.CellTriangles` | Rune/src/utility/primitives.cpp:50-54 | the six indices of every cell, by the number of its first vertex |
| `Plane.EveryEdgeOnce` | Rune/src/utility/primitives.cpp:46-54 | no directed edge is used twice: all triangles are wound the same way |
| `Plane.PartnerIff` | Rune/src/utility/primitives.cpp:46-54 | an edge is used in the other direction too exactly if it is not on the rim of the grid |
| `Plane.Triangles` | Rune/src/utility/primitives.cpp:45-57 | the 6 * rx * ry indices of the grid, modulo 2^32 |
| `Plane.WrapsIff` | Rune/src/utility/primitives.cpp:50-53 | the indices are right exactly if (rx + 1) * (ry + 1) is at most 2^32 |
| `Plane.Vertices` | Rune/src/utility/primitives.cpp:24-43 | the positions and texture coordinates of the vertices, row by row, with loop bounds of 32 bits |
| `Plane.VerticesIff` | Rune/src/utility/primitives.cpp:26-28 | there are (rx + 1) * (ry + 1) vertices exactly if neither resolution is 2^32 - 1, and otherwise none |
| `Plane.VertexPlace` | Rune/src/utility/primitives.cpp:24-43 | vertex (x, y) lies at its share of the size |
| `Plane.TexCoordPlace` | Rune/src/utility/primitives.cpp:31-43 | the second texture coordinate is y / ry; the first is x / rx exactly in the first row, because it is never taken back |

## Left out

- Vector kernels, the JPEG transform, colour conversion, HDR and gamma: floating point or intrinsic code.
- JPEG markers, scans and progressive blocks: the entropy decoder is modelled to one baseline block.
- File and callback input of the image decoders, allocation failure, error texts: the input is a byte sequence, failure is a Boolean.
- PNG chunks and palettes, GIF headers, extensions, colour table parsing and frame disposal, the other image formats: field parsing.
- The platform byte order is a parameter of the PNG model; GIF disposal between frames is not modelled, a frame starts from whatever image is there.
- Resources that are registered from files, and YAML; meshes from Assimp; OpenAL, gfx, window and Mono calls. They are an environment that answers anything.
- Inflater.ZBuf.Decode: a stream with fewer than 16 bits behind its last code may be rejected, as the source may reject it, so the round trip asks for the trailer.
- Inflater.ZBuf.constructor: an initial buffer of zero bytes is not modelled, because doubling zero in the source never ends.
- Inflater.ZBuf.ParseHuffmanBlock: the source's local copy of the output pointer is the field itself.
- PngRows.FlatRow: the loops that a macro makes for each filter are one loop with the case inside.
- PngExpand.ExpandRow: the unrolled stores of one packed byte are a loop over its samples.
- Png.CreateImageRaw: an image without columns or lines is not modelled, the header check rejects it.
- GifRaster.Gif.ProcessGifRaster: positions past the end of the file are all one place, where every byte is zero.
- JpegDecode.Jpeg.HuffDecode: after a failure nothing is said of the bit buffer, the scan is given up then.
- JpegAc.DecodeAc: a code or value that runs past the end of the scan may come out differently with the two tables, so nothing is stated there.
- JpegBlock.DecodeBlock: likewise nothing is stated of a block that runs past the end of the scan.
- Resources.SystemResources.Load: among the resources that have to be loaded, an unregistered dependency is an exception in the source and a cycle does not end there, so both are excluded.
- Renderer.SystemRenderer.Flush: a device that cannot create a command list or give an image throws in the source and ends the run.
- Renderer.SystemRenderer.RenderStaticMesh: an empty list of materials is undefined in the source, so at least one is a precondition.
- Audio.SourceData.SourcePlay: the call in the repository (Rune/src/audio/audio.cpp:276-277) passes an empty vector, the line that would fill it being commented out, so it does not meet the precondition, which is the exact one of `Audio.QueueingInBoundsIff`.
- MeshFile.Import: a vector of 2^32 elements or more is reported as a failure, where the source's 32-bit counter would not end; reading past the end leaves zeros.
- Ini.LeftTrim: the string that the source changes in place is passed in and returned.
- The typed getters of the configuration, which convert a string, and the constant normals of the plane.
- Plane.Vertices: coordinates are real numbers, rounding is not modelled, and a resolution of zero, which divides by zero, is excluded.
