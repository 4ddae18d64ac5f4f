# Verified models of the clipboard pipeline

This project models, in Dafny, the codecs and protocol machines through which a clipboard item passes on its
way between devices, and proves what they are for.

* **DEFLATE and zlib** (`Bits`, `Huffman`, `HuffmanTable`, `InflateSpec`, `FixedCodes`, `Inflate`, `DeflateSpec`,
  `BitWriter`, `Adler`, `Deflate`, `WorstCase`, `ZlibRoundTrip`, `PastTheEnd`). `InflateSpec` gives the meaning of a byte
  string as a function on bit positions. The decompressor (a class with the fields of `stbi__zbuf`, its reservoir, its
  tables and its growing buffer) and the compressor (hash buckets, lazy matching, bit buffer, stored fallback,
  checksum) are proved against it, and together they give every non-empty input back.
* **The same by the letter of the standards** (`Packing`, `Sender`, `InflateLaw`, `InflateExample`, `CompressLaw`).
  `Sender` writes RFC 1950 and RFC 1951 down from the sender's side, in numbers of its own: stored, fixed and dynamic
  blocks, any accepted codes, any tokens. The inflater gives back whatever was sent so, and what the compressor writes
  was sent so.
* **PNG** (`Layout`, `PngFilter`, `PngImage`, `Adam7`, `PngFile`, `PngLayout`, `PngRoundTrip`, `PngLaw`, `WorstImage`,
  `PngWorst`). Filters and their inverses, the two Paeth formulas, the seven interlacing passes, the chunk walk, the round
  trip from pixels to pixels, and the images that no compression helps, which decide for which sizes it holds. `PngLayout`
  and `PngLaw` say byte by byte what it means by the standard that a file shows an image: written files show theirs, and
  of any file that shows an image the reader returns that image.
* **GIF rasters** (`GifRaster`, `GifLzw`, `GifLaw`, `GifDeferred`). The prefix-linked LZW table refines a dictionary of
  strings; what an encoder packs into sub-blocks comes out again; streams that put off the clear code; the cursor
  paints every pixel of an interlaced frame once.
* **cJSON** (`JsonText`, `JsonGrammar`, `JsonString`, `JsonParse`, `JsonLaw`, `JsonPrint`, `JsonRoundTrip`, `CJsonList`).
  Parser and printer over their buffers against pure functions, the round trip between them, and the doubly linked list of
  children with copying. `JsonGrammar` is the syntax and meaning of RFC 8259 with every spelling it allows; `JsonLaw` says
  that the parser reads each of them.
* **Peer-to-peer transfer** (`FtRace`, `FtFrame`). Socket ownership and progress in the candidate race for every
  behaviour of the network, and the file frame over a stream that may split anywhere.
* **Clipboard sync** (`ClipServer`, `ClipSync`). Clients, server and messages as a step system: every message accepted
  carries a text copied on the device that sent it, and sessions are given messages of their own user only.

Where the source updates state in place, the model does too: a method with a contract that ties the new state to a
function of the old one, and lemmas about those functions. `dafny verify dfyconfig.toml` checks the whole project.

What the proofs brought to light:

* The inflater reads zeros past the end of its input. A block that keeps finding zero codes there, for instance through
  distance codes whose extra bits refill the reservoir, ends only because the output buffer refuses to double beyond
  half of `UINT_MAX` (`common/stb_image.h:4282-4285`); `PastTheEnd.MatchesForEver` states it, and `PastTheEnd.EndCodeCutShort`
  is a stream of three bytes whose meaning needs two bits that are not there. This is why a failure of `Inflate.DecodeMalloc` is described by
  what the input bits alone mean, and why its round trips need at most `INT_MAX` bytes.
* The reader accepts at most 2^30 bytes of compressed PNG data (`common/stb_image.h:5182`), while images within its size
  limits can compress to more. `PngWorst.RefusedImage` is one of 2^24 by 16 pixels. For every size within the limits,
  all images of that size come back exactly if the rows stored without compression fit: if they fit,
  `PngRoundTrip.RoundTripPng` gives every image back, and if they do not, `PngWorst.WorstRoundTrip` makes one that is
  refused.
* `stbi__process_gif_raster` compares the code with the counter after incrementing it
  (`common/stb_image.h:6750-6757`), so that comparison never succeeds; the result is still right, because the new
  entry's first symbol is stored before it is asked for.
* Appending an item that still has a forward link, or inserting a parent under itself, is accepted and breaks the list
  (`common/cJSON.c:2022-2053`, `common/cJSON.c:2329-2361`); `CJsonList.AddItem` and `CJsonList.InsertItem` say exactly
  when.
* The GIF decoder goes on adding table entries that no code can name, and rejects a stream that puts the clear code off
  for too long (`common/stb_image.h:6751-6753`); `GifDeferred.DeferredRaster` states exactly which.
* `cJSON.h` advises five spare bytes for a preallocated buffer (`common/cJSON.h:168`); one byte beyond the terminator
  is what the code needs, for every value.

## Model

| member | source | states |
|---|---|---|
| `Bits.BitReverseIsRev` | common/stb_image.h:4107-4122 | The four mask-and-swap steps and the final shift reverse exactly the low `bits` bits of the argument, for every argument and up to 16 bits |
| `Huffman.PrefixFree` | common/stb_image.h:4124-4169 | Canonical codes of RFC 1951 section 3.2.2: two symbols whose codewords both start a window are the same symbol |
| `Huffman.DecodeUnique` | common/stb_image.h:4224-4271 | At a stream position at most one symbol has its codeword next, so decoding is a function of the code lengths and the bits |
| `Huffman.HitAtLength` | common/stb_image.h:4229-4235 | A reversed window below the end of the codes of a length, and not below the end of the next shorter ones, starts with a codeword of exactly that length |
| `Huffman.NoHitBounds` | common/stb_image.h:4229-4235 | If no codeword of at most `t` bits starts the window, the window lies at or above the end of the codes of every length up to `t` |
| `HuffmanTable.ZHuffman.Build` | common/stb_image.h:4124-4169 | Succeeds if and only if no length is over-subscribed, and then the fast table, limits and symbol slots represent the canonical code of the lengths |
| `HuffmanTable.ZHuffman.FillFast` | common/stb_image.h:4158-4164 | The fill loop sets exactly the fast-table slots whose low bits are the reversed codeword, and no other slot |
| `HuffmanTable.SlowFinds` | common/stb_image.h:4229-4240 | Where the preshifted limit stops the scan, a symbol of that length has its codeword in the window |
| `Inflate.ZBuf.HuffmanDecode` | common/stb_image.h:4243-4271 | Fast table and slow path together return the unique symbol whose canonical codeword comes next and consume exactly its length; failure means there is no such symbol or bits past the input were already used |
| `Inflate.ZBuf.Lookup` | common/stb_image.h:4243-4271 | With 16 bits in the reservoir the result is -1 exactly when no codeword comes next, and otherwise the symbol of the next codeword |
| `Inflate.ZBuf.SlowPath` | common/stb_image.h:4224-4241 | The 16-bit scan returns the symbol of the codeword longer than nine bits that comes next, or -1 when there is none |
| `Inflate.ZBuf.FillBits` | common/stb_image.h:4202-4212 | The reservoir always holds exactly the next bits of the stream, at most 32 of them, so stray bits above it are impossible; afterwards it has more than 24 |
| `Inflate.ZBuf.Receive` | common/stb_image.h:4214-4222 | Returns the next `n` bits of the stream, first bit least significant, and moves on by exactly `n` |
| `Inflate.ZBuf.Expand` | common/stb_image.h:4273-4293 | Growing keeps the output bytes and makes the room asked for; it fails only when more than `INT_MAX` bytes (or a fixed buffer) would be needed; the doubling loop ends |
| `Inflate.ZBuf.CopyFrom` | common/stb_image.h:4344-4354 | A back-reference appends the bytes of the overlapping copy defined on sequences, never reading before or writing past the buffer |
| `Inflate.ZBuf.ParseHuffmanBlock` | common/stb_image.h:4309-4357 | On success the block decodes to exactly the output of the bit-level specification and stops at the same bit; a failure loses no output that the input bits and the room allow |
| `Inflate.ZBuf.ComputeHuffmanCodes` | common/stb_image.h:4359-4407 | The two tables represent the code lengths that RFC 1951 section 3.2.7 assigns to the header bits; failure only when there are none or bits run out |
| `Inflate.ZBuf.ReadRun` | common/stb_image.h:4381-4401 | One code-length symbol appends a length or a run exactly as the specification repeats it, and never overruns the announced total |
| `Inflate.ZBuf.StoredHeader` | common/stb_image.h:4409-4425 | Drains at most three header bytes out of the reservoir and reads the rest from the buffer: the four bytes are those from the next byte boundary, and the reservoir is then empty |
| `Inflate.ZBuf.ParseUncompressedBlock` | common/stb_image.h:4409-4436 | A stored block appends exactly its LEN bytes; length check, missing input and missing room are the only failures |
| `Inflate.ZBuf.ParseZlibHeader` | common/stb_image.h:4438-4450 | Accepts exactly the headers of RFC 1950 section 2.2 without preset dictionary and with method 8 |
| `Inflate.ZBuf.ParseZlib` | common/stb_image.h:4481-4508 | The loop over blocks terminates on every input; success is the specification output; failure is excused as above |
| `Inflate.DecodeMalloc` | common/stb_image.h:4541-4555 | For every byte string and positive initial size: a result is always the meaning of the stream, and there is one whenever the stream has a meaning within its own bits and at most `INT_MAX` bytes of output |
| `Inflate.DecodeBuffer` | common/stb_image.h:4557-4593 | The same for a buffer of fixed size, whose size is never exceeded |
| `InflateLaw.WordRead` | common/stb_image.h:4243-4271 | The codeword that RFC 1951 section 3.2.2 gives a symbol, counted out from the code lengths, is read as that symbol, for all lengths that leave room for all codes |
| `InflateLaw.TokensRead` | common/stb_image.h:4309-4357 | Literals and copies sent with any two codes, with the length and distance ranges of section 3.2.5 in numbers, and the end symbol, are read as the bytes they stand for |
| `InflateLaw.HeaderRead` | common/stb_image.h:4359-4407 | The header of a dynamic block that sends two codes in lengths, repeats and runs of zeros, through a code-length code whose lengths come in the order 16, 17, 18, 0, 8, 7, 9 and so on, is read as those two codes |
| `InflateLaw.StoredRead` | common/stb_image.h:4409-4436 | A stored block with any filling bits is read as its bytes |
| `InflateLaw.BlocksRead` | common/stb_image.h:4481-4508 | Any list of stored, fixed and dynamic blocks is read as the data it carries, up to the block marked last |
| `InflateLaw.StreamMeans` | common/stb_image.h:4481-4508 | A zlib stream written by the rules of RFC 1950 and RFC 1951 means the data that was sent, whatever follows it |
| `InflateLaw.InflateSent` | common/stb_image.h:4541-4555 | For every way to send at most `INT_MAX` bytes and every positive initial size, inflating succeeds and gives the bytes sent |
| `InflateExample.KnownStream` | common/stb_image.h:4359-4407 | Seventeen given bytes, a dynamic block with a literal code of two symbols, mean six letters `A` |
| `FixedCodes.FixedAccepted` | common/stb_image.h:4452-4467 | The fixed code lengths are a complete code that the table builder accepts |
| `FixedCodes.FixedCodeOf` | common/stb_image_write.h:884-888 | The four literal ranges of the writer are the canonical codes of the fixed lengths (RFC 1951 section 3.2.6) |
| `FixedCodes.DistanceCodeOf` | common/stb_image_write.h:964-964 | The five-bit distance codes of the writer are the canonical codes of thirty-two fives |
| `BitWriter.ZWriter.Flush` | common/stb_image_write.h:839-847 | Whole bytes leave the bit buffer in order: bytes so far plus remaining bits always spell the bits written |
| `BitWriter.ZWriter.Add` | common/stb_image_write.h:880-881 | Appends exactly the given bits, least significant first, with a bit buffer that stays within 32 bits |
| `BitWriter.ZWriter.BitRev` | common/stb_image_write.h:849-857 | The loop reverses a code of the given width |
| `BitWriter.ZWriter.Huff` | common/stb_image_write.h:882-888 | Appends the canonical fixed codeword of the symbol, most significant bit first |
| `Deflate.CountMatch` | common/stb_image_write.h:859-865 | Returns the length of the longest common run at the two positions, at most 258 |
| `Deflate.FindMatch` | common/stb_image_write.h:924-933 | The best match of a bucket: real, within the window, at least three bytes, and no usable entry agrees for longer |
| `Deflate.BetterNext` | common/stb_image_write.h:941-955 | The lazy look-ahead gives the match up if and only if some usable entry at the next position agrees for longer |
| `Deflate.Remember` | common/stb_image_write.h:935-939 | A full bucket loses its older half, the position is appended, and every bucket keeps only earlier positions |
| `Deflate.CopyFollowsInput` | common/stb_image_write.h:957-966 | Expanding a back-reference to an earlier equal run, overlapping or not, continues the output with the next input bytes |
| `Deflate.CompressStep` | common/stb_image_write.h:922-971 | Each turn advances and leaves bits that encode tokens expanding to exactly the input consumed, whatever the hash buckets contain |
| `Deflate.CompressBlock` | common/stb_image_write.h:915-978 | The block is the fixed-code header, tokens that expand to the whole input, the end symbol and zero padding to a byte |
| `DeflateSpec.SymbolDecodes` | common/stb_image_write.h:882-888 | The bits written for a symbol are decoded as that symbol by the canonical fixed code |
| `DeflateSpec.CopyDecodes` | common/stb_image_write.h:957-966 | Length and distance codes with their extra bits, as written for a match, are decoded as that match |
| `DeflateSpec.TokensDecode` | common/stb_image_write.h:921-975 | A whole list of well-formed tokens followed by the end symbol decodes to its expansion |
| `WorstCase.OnlyLiterals` | common/stb_image_write.h:921-975 | For input in which no three bytes come again within the window, any well-formed tokens are its literals, whatever search found them, so their bits can be counted |
| `CompressLaw.LengthIsPart` | common/stb_image_write.h:957-962 | The search in the table of lengths finds the length symbol of RFC 1951 section 3.2.5, with 258 alone in symbol 285 |
| `CompressLaw.DistanceIsPart` | common/stb_image_write.h:963-965 | The search in the table of distances finds the distance symbol of section 3.2.5 |
| `CompressLaw.TokensSent` | common/stb_image_write.h:921-975 | The bits written for any list of tokens are those a sender writes with the codes of section 3.2.6 |
| `CompressLaw.CarriedIsPacked` | common/stb_image_write.h:839-847 | Bytes that carry given bits and then fewer than eight zeros are those bits packed, the first one counting 1 and the eighth 128 |
| `ZlibRoundTrip.StoredDecodes` | common/stb_image_write.h:987-998 | The stored blocks written for any input from any position decode to that input |
| `ZlibRoundTrip.PlainSpell` | common/stb_image_write.h:987-998 | The stored blocks of the fallback are the bytes of stored blocks by section 3.2.4: flag, length, complement, data |
| `ZlibRoundTrip.WriteStored` | common/stb_image_write.h:985-999 | The fallback writes the header and the stored blocks into the capacity already held: the buffer is never replaced |
| `ZlibRoundTrip.ZlibCompress` | common/stb_image_write.h:895-1022 | For every non-empty input the output is a zlib stream by the letter of the standards that carries it, and inflates to it; it begins with 0x78 0x5e and its last four bytes, big-endian, are the Adler-32 checksum in closed form; it is never longer than `n + 6 + 5 * ceil(n / 32767)`, and exactly that long when nothing repeats and the literals take more; the empty input gives header and checksum only |
| `ZlibRoundTrip.RoundTrip` | common/stb_image_write.h:895-1022 | Compressing and inflating succeeds if and only if the input is non-empty, and then gives the input back, for every quality and initial size |
| `ZlibRoundTrip.EmptyFails` | common/stb_image_write.h:985-999 | What is written for the empty input contains no block and does not inflate |
| `PastTheEnd.EndCodeCutShort` | common/stb_image.h:4197-4212 | A stream of three bytes has a meaning, the empty output, that takes 26 bits: the zeros read behind the end complete its end code |
| `PastTheEnd.MatchesForEver` | common/stb_image.h:4341-4354 | If the zeros behind the end mean a match within the output, the block has no meaning: only the limit on the output ends it |
| `PastTheEnd.SuchCodesExist` | common/stb_image.h:4124-4169 | There are code lengths, accepted by the table builder and with an end code, for which the zeros mean a match |
| `Adler.BlockFits` | common/stb_image_write.h:1003-1011 | Over a block of at most 5552 bytes the unreduced sums stay below 2^32 |
| `Adler.SumBlock` | common/stb_image_write.h:1007-1008 | The inner loop with 32-bit sums is congruent to the byte-by-byte checksum |
| `Adler.Adler32` | common/stb_image_write.h:1001-1016 | The blocked loop, whose first block may be empty, ends and returns the checksum of RFC 1950 section 2.2 |
| `Adler.SumsArePlain` | common/stb_image_write.h:1001-1016 | The two running sums in closed form: one plus the byte sum, and the length plus the sum of the bytes each weighted with its distance from the end, modulo 65521 |
| `Adler.KnownChecksums` | common/stb_image_write.h:1012-1015 | The checksum of `ab` is 0x012600c4, and that of nothing is 1 |
| `PngFilter.PaethAgree` | common/stb_image.h:4657-4668 | The branch-free Paeth predictor of the reader equals the distance-based one of the writer on all integers |
| `PngFilter.EncodeLine` | common/stb_image_write.h:1092-1126 | The line encoder, with its first-row and first-pixel remappings, writes the row filtered as section 9.2 of the PNG standard defines it |
| `PngFilter.DecodeLine` | common/stb_image.h:4737-4787 | The line decoder, with the remapped filters of the first row, reconstructs the row as the standard defines it |
| `PngFilter.FilterInverts` | common/stb_image.h:4737-4787 | For every filter type and pixel width, reconstructing a filtered row gives the original bytes |
| `PngImage.CreateRaw` | common/stb_image.h:4696-4859 | Succeeds exactly when sizes, data length and filter bytes are right; the two swapped row buffers and the alpha expansion then give every row of the image |
| `PngImage.AlphaExpand` | common/stb_image.h:4675-4693 | The backward in-place expansion inserts one opaque alpha byte after every pixel |
| `PngImage.ChooseFilter` | common/stb_image_write.h:1151-1169 | The chosen filter has the smallest estimate of all five, the first one among equals |
| `PngImage.MagnitudeIsAbs` | common/stb_image_write.h:1157-1162 | What a byte adds to the estimate is the absolute value of the number from -128 to 127 it stands for |
| `PngImage.EstimateFits` | common/stb_image_write.h:1157-1162 | The estimates of all rows of a width fit in `int` if and only if the row is shorter than 2^24 bytes |
| `PngImage.FilterImage` | common/stb_image_write.h:1146-1174 | The filtered image consists of the filter byte and the filtered bytes of every row, with the forced filter, or else the first one whose estimate is the smallest of all five |
| `PngImage.ImageRestored` | common/stb_image.h:4737-4787 | Reading filtered rows gives back the pixel rows, for every choice of filters |
| `Adam7.OnlyOnePass` | common/stb_image.h:4874-4877 | Every pixel position belongs to exactly one of the seven passes |
| `Adam7.CountedExactly` | common/stb_image.h:4880-4881 | The computed pass widths and heights count exactly the positions of the pass inside the image |
| `Adam7.PixelsPartition` | common/stb_image.h:4873-4900 | For every width and height the pixel counts of the seven passes add up to width times height |
| `Adam7.CopyPass` | common/stb_image.h:4888-4895 | A pass writes each of its pixels once to its place in the final image, in range, and leaves all others alone |
| `Adam7.AllWritten` | common/stb_image.h:4873-4900 | After the seventh pass every pixel of the final image has been written |
| `Adam7.CreateImage` | common/stb_image.h:4861-4904 | Interlaced or not, the image is created exactly when the data of all passes is there and valid; interlaced, width times height pixel writes put every pixel of every pass in its place |
| `PngFile.HeaderReads` | common/stb_image.h:5102-5130 | A written header is read back with the same dimensions and channels |
| `PngFile.FileWalk` | common/stb_image.h:5095-5203 | Walking the chunks of a written file finds its header and its compressed data, unless that data is longer than the reader accepts |
| `PngFile.Context.ParseHeader` | common/stb_image.h:5102-5130 | The header branch with all its checks agrees with the chunk specification |
| `PngFile.Context.ParseChunk` | common/stb_image.h:5095-5260 | One turn of the chunk loop does what the chunk specification does with that chunk, in every branch |
| `PngFile.Context.ParseChunks` | common/stb_image.h:5078-5261 | The chunk loop terminates on every byte string with the result of the chunk specification |
| `PngLayout.FileLaid` | common/stb_image_write.h:1186-1209 | The written file byte by byte: signature, sizes and letters of the chunks, width and height from the top, depth, colour type 0, 4, 2 or 6, and where each checksum stands and what it covers |
| `PngLayout.LaidRead` | common/stb_image.h:5095-5203 | In every file with these bytes the reader finds that width, height, number of channels, interlacing and data, unless the data is longer than it accepts |
| `PngRoundTrip.WritePng` | common/stb_image_write.h:1128-1212 | The file has signature, header, one data chunk and end chunk in the bytes of the PNG standard, each chunk with the checksum of its type and data; the data is a zlib stream by the letter with its checksum, inflates to the rows, each filtered as chosen, and is at most as long as if every row were stored |
| `PngRoundTrip.ReadPng` | common/stb_image.h:5078-5300 | For every byte string: rejected, unsupported, or an image that is exactly the reconstruction of the inflated data; a supported file is rejected only if its data or sizes are wrong |
| `PngRoundTrip.RoundTripPng` | common/stb_image_write.h:1128-1212 | For every image within the reader limits, stride and filter choice, reading the written file gives the same size, channels and pixels if and only if the file is at most 2^30 + 57 bytes long; which is certain when the rows stored uncompressed would be |
| `PngLaw.ImageRestores` | common/stb_image.h:4737-4787 | Every byte of the decoded image is what sections 9.2 and 9.4 of the PNG standard make of its raw byte and of its neighbours to the left, above and above left, for all five filter types |
| `PngLaw.OneImage` | common/stb_image.h:4737-4787 | The filtered rows determine the image |
| `PngLaw.ReadShown` | common/stb_image.h:5078-5300 | Of any file within the limits that shows an image by the standard, with any compressed form and any filters, the reader returns exactly that image |
| `PngLaw.WrittenShows` | common/stb_image_write.h:1128-1212 | What the writer writes shows, by the standard, the image it was given |
| `PngLaw.PixelRowsAt` | common/stb_image_write.h:1092-1100 | That image is the pixel memory row by row without the gaps between rows |
| `PngLaw.AlphaImage` | common/stb_image.h:4675-4693 | With one channel more asked for than the file has, every pixel keeps its bytes and is followed by 255 |
| `PngLaw.PassesWeave` | common/stb_image.h:4873-4900 | After the seven passes every pixel is the one the standard takes from its reduced image: odd rows from the seventh, odd columns of even rows from the sixth, and so on, each at its place there |
| `PngLaw.ReadWoven` | common/stb_image.h:4861-4904 | Of any interlaced file within the limits that shows an image by the standard the reader returns exactly that image |
| `WorstImage.LettersNeverRepeat` | common/stb_image_write.h:924-933 | In rows of the constructed letters, each behind a filter byte, no three bytes come again within the window |
| `PngWorst.LetterFile` | common/stb_image_write.h:1128-1212 | The file of the image of letters is exactly as long as if its rows were stored, whenever that is more than the reader accepts |
| `PngWorst.WorstRoundTrip` | common/stb_image.h:5182-5182 | For every size within the reader limits: an image that comes back if and only if the rows of that size, stored uncompressed, fit the reader |
| `PngWorst.RefusedImage` | common/stb_image.h:5182-5182 | An image of 2^24 by 16 pixels with four channels, within all limits, that the writer writes and the reader refuses |
| `GifRaster.EveryRowOnce` | common/stb_image.h:6677-6688 | The interlaced and the plain row order each visit every row of the frame exactly once |
| `GifRaster.RowsInOrder` | common/stb_image.h:6874-6880 | The cursor steps through the rows in the order of GIF89a Appendix E |
| `GifRaster.Raster.Emit` | common/stb_image.h:6664-6688 | Index number `i * width + c` paints column `c` of the `i`-th row visited, in range and once; transparent entries and indices beyond the frame change nothing |
| `GifRaster.RowSent` | common/stb_image.h:6874-6880 | The turn in which a row is sent, in closed form: rows 0, 8, 16 and so on first, then 4, 12, then 2, 6, 10, then the odd ones |
| `GifRaster.Raster.PixelPainted` | common/stb_image.h:6664-6688 | The pixel in a given row and column of the frame is the colour of its index, counted in the order of sending, with red and blue exchanged, or what was there before if the colour is transparent |
| `GifLzw.Gif.OutGifCode` | common/stb_image.h:6654-6689 | The recursion over prefix links terminates and sends exactly the string of the code, first symbol first |
| `GifLzw.Gif.AddEntry` | common/stb_image.h:6749-6757 | A new entry spells the last string and the first symbol of the current one, also when the current code is the entry being defined; prefixes point to earlier entries |
| `GifLzw.Gif.TakeCode` | common/stb_image.h:6729-6771 | One code does what the dictionary-of-strings decoder does with it, in every branch |
| `GifLzw.Refill` | common/stb_image.h:6719-6727 | The bits in hand are the next bits of the concatenated sub-blocks |
| `GifLzw.Gif.ProcessRaster` | common/stb_image.h:6691-6774 | For every byte string the raster is accepted if and only if the reference decoder accepts it, the indices painted are those of the reference decoder, and the stream ends up behind the block terminator |
| `GifLaw.RasterRead` | common/stb_image.h:6691-6774 | What an encoder sends, runs of codes for indices or for strings the run has made so far, each run from one clear code to the next with the code width of its place, cut into sub-blocks in any way, is decoded as the indices it stands for |
| `GifLaw.ReadSent` | common/stb_image.h:6691-6774 | The raster is accepted, exactly the indices sent are painted, and the stream ends up behind it |
| `GifLaw.EveryIndexSent` | common/stb_image.h:6707-6711 | Every sequence of indices below `2^cs` can be sent so, for every code size from 2 to 8 |
| `GifLaw.SmallestRaster` | common/stb_image.h:6707-6711 | The bytes 02 02 44 01 00 are such a raster; they send the index 0 |
| `GifLzw.WidthKept` | common/stb_image.h:6763-6766 | With at least two bits per index the code width is always the least that fits the next code, up to twelve bits |
| `GifLzw.GrowBound` | common/stb_image.h:6763-6766 | The code width never exceeds thirteen bits |
| `GifDeferred.DeferredClear` | common/stb_image.h:6744-6769 | From every state of the dictionary, decoding agrees with a decoder whose table stays frozen at 4096 strings, except that a stream is rejected exactly if more entries than the table has room for come without a clear code |
| `GifDeferred.DeferredRaster` | common/stb_image.h:6691-6774 | The same for a whole raster with a code size of at most eleven |
| `JsonString.EncodeUtf8` | common/cJSON.c:764-810 | The shifting loop writes the UTF-8 bytes of the code point |
| `JsonString.Utf8IsEncoding` | common/cJSON.c:764-810 | Those are the bytes of RFC 3629 section 3, for every code point, in the four ranges of its table |
| `JsonString.ParseHex4` | common/cJSON.c:661-694 | Four hexadecimal digits, each in either case, give the value they spell; anything else reads as zero |
| `JsonString.CombinePair` | common/cJSON.c:753-753 | The masked and shifted halves combine to the code point of RFC 2781 section 2.2 |
| `JsonString.Utf16Literal` | common/cJSON.c:698-816 | One unit or a surrogate pair is converted or rejected exactly as specified, reading only before the end of the literal |
| `JsonString.MeasureString` | common/cJSON.c:832-854 | The first pass finds the closing quote and counts the escapes it skipped |
| `JsonString.EscapesApart` | common/cJSON.c:856-858 | However a second reading divides the text, among any `2 * n` bytes at most `n` begin an escape of the first pass |
| `JsonString.DecodeString` | common/cJSON.c:819-946 | For every literal, also when bad hexadecimal digits put the two passes out of step, every write and the terminator stay inside the estimated allocation; the result is the unescaped text |
| `JsonParse.ParseBuffer.SkipWhitespace` | common/cJSON.c:1085-1108 | Blanks are skipped; at the end of the buffer the last byte is kept |
| `JsonParse.ParseBuffer.ParseNumber` | common/cJSON.c:307-408 | The token is the longest run of number bytes, and its integer value is returned |
| `JsonParse.ParseBuffer.ParseString` | common/cJSON.c:819-946 | The literal at the offset is returned and the offset moves behind its quote, or the call fails |
| `JsonParse.ParseBuffer.ParseValue` | common/cJSON.c:1363-1415 | The value at the offset, as the grammar functions define it, and the offset behind it; depth restored |
| `JsonParse.ParseBuffer.ParseArray` | common/cJSON.c:1492-1587 | The element loop collects exactly the elements the grammar functions find, within the nesting limit |
| `JsonParse.ParseBuffer.ParseObject` | common/cJSON.c:1657-1772 | The member loop collects exactly the members the grammar functions find, in order, within the nesting limit |
| `JsonParse.ParseWithLength` | common/cJSON.c:1142-1230 | Byte order mark and blanks are skipped and one value is parsed |
| `JsonLaw.QuotedRead` | common/cJSON.c:819-946 | A quoted text of RFC 8259 section 7, with every escape it allows, short, in either case of the digits, single or in surrogate pairs, is read as the UTF-8 bytes of its characters |
| `JsonLaw.SyntaxRead` | common/cJSON.c:1363-1415 | Every spelling of a value by RFC 8259, with blanks wherever they may stand, is read as the value it means, and nothing behind it is consumed |
| `JsonLaw.ParseSpelled` | common/cJSON.c:1142-1230 | The same for whole texts, with blanks and possibly a byte order mark before them |
| `JsonGrammar.Accented` | common/cJSON.c:672-675 | The text "\u00E9" in quotes is such a spelling, and means the bytes c3 a9 |
| `JsonPrint.PrintBuffer.Ensure` | common/cJSON.c:485-568 | Succeeds exactly when offset, request and one byte fit the limit (the given buffer, or `INT_MAX`); the old contents survive the reallocation |
| `JsonPrint.PrintBuffer.UpdateOffset` | common/cJSON.c:571-581 | The offset moves exactly to the end of the text written |
| `JsonPrint.PrintBuffer.PrintString` | common/cJSON.c:949-1068 | The escaped text with quotes and terminator is written, every store inside the reserved region, also those of the hexadecimal escapes |
| `JsonPrint.PrintBuffer.PrintNumber` | common/cJSON.c:591-658 | The decimal digits and a terminator are written |
| `JsonPrint.PrintBuffer.PrintArray` | common/cJSON.c:1590-1654 | Succeeds exactly when nesting and size allow, and then the text is that of the pure printer |
| `JsonPrint.PrintBuffer.PrintObject` | common/cJSON.c:1775-1891 | Succeeds exactly when nesting and size allow, and then the text, with its indentation, is that of the pure printer |
| `JsonPrint.PrintBuffer.PrintValue` | common/cJSON.c:1418-1489 | For every value, initial buffer and mode: success if and only if the nesting is within the limit and the text with two more bytes fits; the growth of the buffer never shows |
| `JsonPrint.TextNoNul` | common/cJSON.c:571-581 | Printed text contains no terminator, so its length is what `strlen` finds |
| `JsonPrint.EscapedMore` | common/cJSON.c:1019-1062 | Escaping byte after byte gives the escaped string |
| `JsonPrint.Print` | common/cJSON.c:1234-1310 | A plain print succeeds exactly for values of limited nesting whose text fits, and returns the text of the pure printer |
| `JsonPrint.PrintBuffered` | common/cJSON.c:1312-1341 | The same text for every initial buffer size |
| `JsonPrint.PrintPreallocated` | common/cJSON.c:1343-1360 | Succeeds if and only if the buffer has room for text, terminator and one more byte; nothing is written outside it |
| `JsonRoundTrip.StrtodBack` | common/cJSON.c:591-619 | The digits printed for an integer are read as that integer |
| `JsonRoundTrip.StringBack` | common/cJSON.c:949-1068 | A printed string is read back as the same string, whatever follows it |
| `JsonRoundTrip.ValueBack` | common/cJSON.c:1363-1415 | The text of any value, at any place and before anything that cannot continue a number, is parsed as that value and nothing more is consumed |
| `JsonRoundTrip.ArrayBack` | common/cJSON.c:1492-1587 | The same for arrays, formatted or not |
| `JsonRoundTrip.ObjectBack` | common/cJSON.c:1657-1772 | The same for objects, formatted or not |
| `JsonRoundTrip.TextBack` | common/cJSON.c:1418-1489 | Parsing the printed text of a value nested at most 1000 deep gives the value |
| `JsonRoundTrip.TextInjective` | common/cJSON.c:1418-1489 | Two values never print the same text |
| `JsonRoundTrip.PrintedProper` | common/cJSON.c:1418-1489 | The syntax tree of a printed value is one of the grammar and means that value, formatted or not |
| `JsonRoundTrip.PrintedWritten` | common/cJSON.c:1418-1489 | The printed text is that tree written down |
| `JsonRoundTrip.PrintAndParse` | common/cJSON.c:1234-1310 | Printing gives a text of RFC 8259 that means the value, and parsing it gives the value back, formatted or not |
| `CJsonList.ChildrenUnique` | common/cJSON.c:2022-2053 | The chain under a parent determines the sequence of its children |
| `CJsonList.GetArrayItem` | common/cJSON.c:1917-1934 | Returns the child at the index, or null beyond the end |
| `CJsonList.GetArraySize` | common/cJSON.c:1894-1915 | Counts the children |
| `CJsonList.AddItem` | common/cJSON.c:2022-2053 | Appends the item; the list invariant is kept if and only if the list was empty or the item was detached; only links change |
| `CJsonList.TailEnds` | common/cJSON.c:2022-2053 | In every list of children the first child's back link leads to the end of the chain, which is what adding an item with a forward link breaks |
| `CJsonList.DetachItem` | common/cJSON.c:2253-2287 | Removes the child, keeps the invariant, and the removed item points nowhere |
| `CJsonList.DetachFromArray` | common/cJSON.c:2289-2297 | The same by position; out of range nothing changes |
| `CJsonList.InsertItem` | common/cJSON.c:2329-2361 | Inserts before the position, or appends beyond the end; the invariant is kept if and only if the parent is not put under itself and an appended item was detached |
| `CJsonList.ReplaceItem` | common/cJSON.c:2363-2410 | Updates one position of the sequence, also for first, last and only children, and keeps the invariant |
| `CJsonList.ReplaceInArray` | common/cJSON.c:2412-2420 | The same by position; out of range nothing changes |
| `CJsonList.InsertAndDetach` | common/cJSON.c:2253-2361 | Detaching what was inserted restores the list |
| `CJsonList.DuplicateRec` | common/cJSON.c:2784-2868 | Fails only beyond the depth limit; otherwise the copy consists of new items only, is a well-formed tree, and stands for the same value with the reference flags cleared |
| `CJsonList.CloseKids` | common/cJSON.c:2854-2857 | Pointing the first copied child back to the last one completes the list |
| `FtRace.Kernel.New` | common/ft/ft_lan.c:162-166 | A new socket gets any descriptor that is not open |
| `FtRace.Kernel.Close` | common/ft/ft_socket.c:22-29 | Only open descriptors are closed, and every socket there ever was is open once or was closed once |
| `FtRace.TryAuthenticate` | common/ft/ft_lan.c:130-142 | The socket is authenticated once; it passes and stays open, or it is closed |
| `FtRace.ConnectAll` | common/ft/ft_lan.c:154-168 | A socket is asked for once for every address that could be parsed, and the race then holds those that could be opened |
| `FtRace.AcceptTurn` | common/ft/ft_lan.c:253-261 | A ready listener is taken care of: one connection is accepted, and if there is one it is authenticated |
| `FtRace.ConnectTurn` | common/ft/ft_lan.c:263-287 | A ready candidate or punched socket is taken care of: its error is read, without an error it is authenticated, and it is the result or closed |
| `FtRace.Turn` | common/ft/ft_lan.c:235-287 | One turn of the poll loop waits for the listener and everything held, for every outcome of poll, accept, connect and authentication; without a result all that poll reported has been taken care of in order, and with one it was the last to be authenticated and passed |
| `FtRace.CloseRest` | common/ft/ft_lan.c:291-296 | Everything still held except the result is closed |
| `FtRace.LanTransferAuth` | common/ft/ft_lan.c:144-298 | For every run: what poll reports is taken care of in order until there is a result; every socket accepted or connected without error is authenticated, in order, until one passes, and that one is the result; nothing is returned only if none passed and the clock had reached the deadline, and every wait ends by the deadline and takes at most 50 ms; every other socket opened, accepted or handed over is closed exactly once; the listener and all other sockets are untouched |
| `FtFrame.Socket.SendAll` | common/ft/ft_socket.c:102-111 | However send splits the buffer, success means all of it was sent in order; without errors it succeeds |
| `FtFrame.Socket.RecvAll` | common/ft/ft_socket.c:113-122 | However recv splits the stream, success means the buffer holds the next bytes; without errors it succeeds if there are enough |
| `FtFrame.PutSize` | common/ft/ft_proto.c:22-23 | The size is written as eight big-endian bytes |
| `FtFrame.GetSize` | common/ft/ft_proto.c:40-43 | The shifting loop reads the big-endian value |
| `FtFrame.BigEndianValue` | common/ft/ft_proto.c:22-43 | Writing and reading the size gives it back |
| `FtFrame.FrameBytes` | common/ft/ft_proto.c:18-28 | The frame byte by byte: 83, 89, 78, 67, the id, the size in eight bytes with their place values, the data |
| `FtFrame.SendFile` | common/ft/ft_proto.c:18-28 | Success means exactly one frame was sent |
| `FtFrame.SendFromPath` | common/ft/ft_proto.c:62-90 | The chunked sender sends the same frame, and fails when the file is shorter than announced |
| `FtFrame.RecvHeader` | common/ft/ft_proto.c:31-49 | A wrong magic, a zero size or a size over the limit is rejected before any byte of data is read; the magic before anything else is |
| `FtFrame.RecvFile` | common/ft/ft_proto.c:30-60 | What is received is the file of the frame; with all bytes there and no errors it is received exactly if it is acceptable |
| `FtFrame.RecvToPath` | common/ft/ft_proto.c:92-137 | The same for the chunked receiver |
| `FtFrame.FrameBack` | common/ft/ft_proto.c:18-60 | A frame as sent is complete, names its file, and is acceptable exactly if its size is positive and within the limit |
| `FtFrame.Transfer` | common/ft/ft_proto.c:18-137 | Either sender with either receiver over any splitting: the same id, size and bytes arrive, nothing behind the frame is touched, and without errors the file arrives exactly when its size is positive and within the limit |
| `ClipServer.SessionManager.AddAuthenticated` | server/src/main/java/com/syncclipboard/service/SessionManager.java:38-53 | Rejects exactly the users with ten sessions, so no user ever has more |
| `ClipServer.SessionManager.RemoveSession` | server/src/main/java/com/syncclipboard/service/SessionManager.java:55-57 | Removes the session and keeps the limit |
| `ClipServer.SessionManager.BroadcastToUser` | server/src/main/java/com/syncclipboard/service/SessionManager.java:69-108 | The message goes once to every reachable session of the user but the sender, to nobody else, and unreachable ones are removed |
| `ClipServer.ClipboardCache.Store` | server/src/main/java/com/syncclipboard/service/ClipboardCacheService.java:42-46 | From then on every other device of the user is given exactly this message for an hour and nothing later, the storing device nothing, and nothing changes for other users |
| `ClipServer.ClipboardCache.GetForDevice` | server/src/main/java/com/syncclipboard/service/ClipboardCacheService.java:51-69 | Returns the own entry of the user, from another device, at most an hour old; dropping an older one changes nothing that is given later |
| `ClipServer.ClipboardCache.EvictExpired` | server/src/main/java/com/syncclipboard/service/ClipboardCacheService.java:71-77 | Removes exactly the entries that are too old; no device is given anything else from then on |
| `ClipSync.Client.Receive` | linux/main.c:876-891 | The text that GCM opens, or else the one that CBC opens, is on the clipboard and remembered, so that the next poll does not send it, and polling is suppressed for two seconds; otherwise nothing changes; nothing is queued |
| `ClipSync.Client.Poll` | linux/main.c:1214-1225 | Exactly when connected, not suppressed, and holding a text that is not the remembered one, that text is remembered and its encryption queued; each message carries a copy of its own made on this device |
| `ClipSync.SentAtMostCopied` | linux/main.c:1214-1225 | A client never queued more messages than its user copied texts |
| `ClipSync.World.Admit` | server/src/main/java/com/syncclipboard/ws/V2WebSocketHandler.java:57-68 | The session is registered for the user and device of the connection if and only if the user has fewer than ten |
| `ClipSync.World.Replay` | server/src/main/java/com/syncclipboard/ws/V2WebSocketHandler.java:79-83 | The connection of the new session gets exactly what the cache has for its user and device, and no other connection gets anything |
| `ClipSync.World.HandleClipboard` | server/src/main/java/com/syncclipboard/ws/MessageDispatcher.java:72-89 | The message becomes the cache entry of its user; it is put once on the connection of every other reachable session of that user and on no other connection; unreachable sessions are removed |
| `ClipSync.World.DispatchStep` | server/src/main/java/com/syncclipboard/ws/MessageDispatcher.java:47-57 | The next queued message of a client is handled if its session is known, and is lost otherwise |
| `ClipSync.World.ReceiveStep` | linux/main.c:876-891 | The client takes the oldest message from its own connection; its queue and all other connections stay as they are |
| `ClipSync.World.NoEcho` | linux/main.c:1214-1225 | In every state reached the server has accepted at most as many messages from a client as its user copied texts there, and each of them carries a text copied there |
| `ClipSync.World.InOwn` | linux/main.c:876-891 | What waits on a connection is, if the user can read it, a text of that user |
| `ClipSync.World.Travel` | linux/main.c:876-891 | Copied, polled, dispatched and received, a text is on the clipboard of the other device, and neither device would send it again |
| `ClipSync.World.Step` | server/src/main/java/com/syncclipboard/ws/MessageDispatcher.java:47-70 | Every event of clients and server keeps the invariant, which ties queues and connections to what was copied and passed on; only copying adds copied texts |
| `ClipSync.World.Run` | linux/main.c:1378-1386 | Over every run: the server accepts at most as many messages from a client as texts were copied there, each carrying one of them; what a session took and what waits for it is in order what was passed to it, from sessions of the same user, never from itself when live nor from its own device when replayed; no clipboard shows a text its user did not copy or start with; no user has more than ten sessions |

## Left out

- The JPEG, PSD, PIC, PNM, HDR and TGA codecs, SIMD kernels and all floating-point image code: not on the clipboard path.
- PNG variants other than 8-bit without palette, transparency chunk or Apple's format, and the channel conversion after decoding: they end in `NotModelled`; palette data is skipped as the reader does for such images.
- CRC-32: the writer's checksum function is a parameter, the reader ignores the words.
- Allocation failure everywhere; the growth policy of the compressed-data buffer while PNG chunks are collected.
- The vertical flip option of the PNG writer, and its file and callback front ends.
- PngImage.ChooseFilter: the estimate is a mathematical sum; `PngImage.EstimateFits` says for which widths the `int` of the code holds it.
- C `int` overflow of sizes close to 2^31 in the compressor: sizes are bounded by preconditions there. The compressor's `quality` is not bounded either.
- ZlibRoundTrip.ZlibCompress: hash buckets hold positions as sequences instead of growing pointer arrays; which positions they hold is modelled.
- InflateLaw.InflateSent: is about streams that keep to the standards; what the inflater makes of others, such as codes that need not all fit or distances beyond the output, is said by `Inflate.DecodeMalloc`.
- Inflate.DecodeMalloc: says nothing about failures of streams that use bits past their own end, because the code's result then depends on how far its reservoir had read.
- PngRoundTrip.ReadPng: files with features outside the 8-bit path end in `NotModelled`.
- PngFile.Context.ParseChunks: the same variants end the walk as `Unsupported`.
- PngFile.Context.ParseChunk: the chunks of Apple's variant and of transparency are recognised but not decoded.
- GifLaw.RasterRead: between two clear codes fewer codes are sent than the table has room for; `GifDeferred` is about longer runs.
- GifRaster.Raster.Emit: cursor positions count pixels and rows instead of bytes, and a pixel is one cell of four bytes.
- The GIF header, extension blocks, disposal between frames and the background fill.
- JsonParse.ParseBuffer.ParseNumber: only 32-bit integers have a value; `strtod` is a function on the collected digits.
- JsonPrint.PrintBuffer.PrintNumber: only integers are printed; the floating-point formats are not modelled.
- JSON raw values, null strings, references and the error position.
- JsonParse.ParseBuffer.ParseArray: the children are collected in a sequence; the links the parser sets are those proved for appending in `CJsonList`.
- JsonParse.ParseBuffer.ParseObject: members are collected in a sequence in the same way.
- `cJSON_Minify`, the comparison and creation helpers, object lookup by name, and custom allocators.
- CJsonList.AddItem: an item that is already a child of the same parent is not covered.
- CJsonList.InsertItem: the same.
- CJsonList.ReplaceItem: the deletion of the replaced item is not modelled; it is left detached.
- FtRace.LanTransferAuth: covers the call with a file id and a key, in its `poll` form; the fallback without them (`common/ft/ft_lan.c:18-126`), the `select` form, and socket options are not modelled. The clock is a finite list of readings after which the deadline has passed.
- FtFrame.RecvFile: requires a size limit below 2^31, as the code's casts do; reading and writing files always works except for a file that is too short, and a rejected output file is not modelled as a file.
- NAT punching, address discovery, the authentication exchange and TLS: abstract outcomes.
- ClipSync.World.Run: receipts, polls and server actions are atomic; encryption and digest are functions, with decryption undoing encryption under the key the user's devices share; the event-driven clipboard watchers, images and files, the other clients, and the server's thread pools and timeouts are not modelled.
- File offers, relays and requests, which are looked up by file id and not by user.
- HTTP controllers, tokens and password hashing, configuration, logging and user interfaces.
