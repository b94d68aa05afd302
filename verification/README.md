# Verified models of the camera and detection stack

This project models the algorithmic core of the repository in Dafny and proves what that core is for: codecs that undo
each other, a thread pool that drains, caches and lookup structures that behave like the plain thing they replace, and
arithmetic that stays within its registers. Code that updates state is written as classes and loops over the same fields,
buffers and arrays; each is tied to a specification function, and the laws are lemmas about those functions or methods
that run writer and reader one after the other.

**Compression (`Bits`, `BitReversal`, `Huffman`, `ZHuffmanTable`, `Deflate`, `Inflate`, `TokenCode`, `FixedCode`,
`DynamicCode`, `StreamCode`, `Adler`, `Compress`, `ZlibRoundTrip`).** `Huffman` holds the canonical codes of RFC 1951
section 3.2.2 and shows them prefix free, and possible exactly when Kraft's inequality holds. `Deflate` gives the
meaning of a stream (RFC 1950 section 2.2, RFC 1951 sections 3.2.3 to 3.2.7) as a function of the input taken as one
number. `Inflate` is the reader, with its bit buffer, fast table, slow path and growing output, proved to compute that
function for stored, fixed and dynamic blocks. `TokenCode`, `FixedCode`, `DynamicCode` and `StreamCode` say what any
writer may send, in the terms of the format: tokens in any pair of codes, runs of code lengths, and streams of stored,
fixed and dynamic blocks; all of it is shown to be read back. `Compress` is the writer of the repository: hash chains,
lazy matching, bit buffer, padding and checksum. `ZlibRoundTrip` puts them together.

**PNG lines (`PngFilter`, `PngWriter`, `PngReader`, `PngRoundTrip`).** The five filters of RFC 2083 section 6 modulo 256,
the writer's choice among them, the reader's size tests and its undoing of them in place, with or without an added alpha
channel, and the whole way through the compressor.

**TGA (`Tga`, `TgaReader`, `TgaRoundTrip`).** Run-length packets, the header and its test, bottom-up rows and reversed
colours.

**JPEG entropy coding (`JpegCode`, `JpegStream`, `JpegEncode`, `JpegHuffman`, `JpegDecode`, `JpegRoundTrip`,
`JpegTables`).** Run, size and additional bits of quantised blocks (ITU-T T.81 section F.1.2), bit buffers on both sides,
stuffed bytes and markers. `JpegHuffman` builds the reader's tables from the counts of a header and searches them, with
words as intervals of sixteen-bit numbers; `JpegDecode` adds the table that decodes short words together with their
values. `JpegTables` holds the writer's own tables and headers and shows that they agree.

**Thread pool (`ThreadPool`).** The fields of the pool as a class; around it a world of threads, a mutex and a history,
in which one step is one critical section, one task, one join or one wait that ends. A wait may end at any time, as a
timeout or a spurious wakeup would have it. The invariant is kept by every step, so the theorems hold over every run.

**Resizing (`ScanlineRing`, `Resample`, `ResampleWindows`).** The circular buffer of scanlines, the loops that enlarge and
shrink through it, and the filter windows, over the reals.

**Lookup structures (`Trie`, `Dictionary`).** A nibble trie in growing arrays with 16-bit edges, and an open slot table,
both refining a map.

**Archives (`NpyHeader`, `NpzArchive`).** The text header of an array, the ZIP file edited in place, and loading it.

**Detection (`QuickSort`, `Detection`, `PostProcess`).** Sorting scores with their indices, greedy suppression, and the
selection of results.

**Fixed-width arithmetic (`AxbDivC`).** Scaled multiplication and division in 32 bits.

`Words`, `Sizes` and `Wrappers` hold C's integer widths, tests of sizes before they overflow, a value that may be missing,
and regrouping of sequences.

Where a property does not hold of the code, the exact condition under which it does is proved instead:

- A trie whose edges are signed 16-bit fields (mpp_trie.h:26-32) loses names once it has more than 32768 nodes. A name
  is looked up rightly if and only if every node on its way has an index below that: `Trie.OutsideIff`, with
  `Trie.Trie.AddInfo` for the name just added and `Trie.Outgrow` for sixteen names that do it.
- The TGA loader refuses pictures without pixels or of more than 2^31 - 1 bytes, and the header keeps 16 bits of each
  side: `TgaRoundTrip.WriteAndLoad` gives the condition, `TgaRoundTrip.WideIsLost` and `TgaRoundTrip.LargeIsRefused` a
  picture for its last two parts.
- The zlib reader doubles the size of its buffer as an int. Data come back if and only if some number of doublings of the
  first size reaches theirs and is at most 2^31 - 1: `ZlibRoundTrip.RoundTrip` with `Deflate.CapacityIff`, and
  `ZlibRoundTrip.LongIsLost` at an input.
- The PNG reader refuses some pictures for their size, among them one that its header test accepts:
  `PngRoundTrip.WriteAndRead` gives the condition, `PngReader.HeaderIff` and `PngReader.SizesFitIff` what it comes to, and
  `PngReader.GreyWithAlphaRefused` an input.
- Loading an array counts its bytes in 64 bits; they are all there if and only if their number fits: `NpzArchive.BytesIff`,
  and `NpzArchive.BytesWrap` at an input.
- The exact branch of `axb_div_c` is right except when the product is -2^31 and the divisor -1: `AxbDivC.AxbDivC`, and
  `AxbDivC.ExactBranchFails` at an input.
- The JPEG reader marks with 255 that no word of at most nine bits comes next, which is also the number of a table's last
  word; its search finds every word if and only if the table does not hold 256 words of at most nine bits:
  `JpegHuffman.SearchIff`, and `JpegHuffman.SearchMisses` for the word that it misses; `JpegHuffman.LastWordIsMissed` shows
  it at a header.
- A queued task always has a worker if and only if the pool may have at least one: `ThreadPool.ServedIffThreads`. It need
  not have one of its own, even below the maximum: `ThreadPool.GuaranteedWorkers`.
- dictionary.h:129-134 says that setting a key to NULL is equivalent to deleting it, and that no key is without a value.
  The key stays, and counts. Lookups cannot tell, now or ever after, if and only if their default is NULL:
  `Dictionary.NoneDeletesIff` and `Dictionary.NoneDeletesForEverIff`; `Dictionary.GetAfterNone` and
  `Dictionary.GetAfterUnset` show the difference at inputs.

## Model

| member | source | states |
|---|---|---|
| `BitReversal.ZlibBitrev` | libs/common/stb/stb_image_write.h:812-820 | the loop returns the low bits in reverse order, for every code and width |
| `BitReversal.BitReverse16IsRev` | libs/common/stb/stb_image.h:3871-3878 | the network of masks and shifts reverses the low sixteen bits |
| `BitReversal.BitReverse` | libs/common/stb/stb_image.h:3880-3886 | reversing sixteen bits and shifting reverses any number of bits up to sixteen |
| `BitReversal.RevTwice` | libs/common/stb/stb_image_write.h:812-820 | reversal by writer and reader undo each other on the bits of a code |
| `Huffman.PrefixFree` | libs/common/stb/stb_image.h:3888-3933 | no canonical code is the beginning of another, for every list of code lengths |
| `Huffman.MatchUnique` | libs/common/stb/stb_image.h:3980-4010 | at most one symbol's code begins a given bit stream |
| `Huffman.FitsIffKraft` | libs/common/stb/stb_image.h:3899-3913 | the lengths the table builder accepts are exactly those that satisfy Kraft's inequality |
| `ZHuffmanTable.ZHuffman.Build` | libs/common/stb/stb_image.h:3888-3933 | building succeeds exactly when the lengths fit, and then all tables describe the canonical code of those lengths |
| `ZHuffmanTable.ZHuffman.FillFast` | libs/common/stb/stb_image.h:3922-3928 | exactly the windows that begin with the code, bit reversed, get the entry; others keep theirs |
| `Deflate.ReadSymbol` | libs/common/stb/stb_image.h:3998-4010 | the symbol whose code begins the stream, or none exactly when no code does |
| `Inflate.ZBuf.ZGet8` | libs/common/stb/stb_image.h:3955-3959 | the next byte, or zero past the end, and what is left of the input |
| `Inflate.ZBuf.FillBits` | libs/common/stb/stb_image.h:3961-3968 | refilling holds more than 24 bits and changes neither the stream nor what is left of it |
| `Inflate.ZBuf.ZReceive` | libs/common/stb/stb_image.h:3970-3978 | the next bits, lowest first, and the stream after them |
| `Inflate.ZBuf.HuffmanDecode` | libs/common/stb/stb_image.h:3998-4010 | fast table and slow path return the unique symbol whose code begins the stream and consume exactly its length, or -1 exactly when no code matches |
| `Inflate.ZBuf.HuffmanDecodeSlowpath` | libs/common/stb/stb_image.h:3980-3996 | the same for codes of more than nine bits |
| `Inflate.FastLookup` | libs/common/stb/stb_image.h:4002-4008 | a nonzero fast entry is the symbol of the stream and its length; a zero entry means that no short code matches |
| `Inflate.ZBuf.ZExpand` | libs/common/stb/stb_image.h:4012-4029 | doubling makes room for the bytes wanted and keeps those produced; it fails exactly on a fixed buffer, or where the size would not stay an int |
| `Inflate.ZBuf.CopyMatch` | libs/common/stb/stb_image.h:4076-4082 | the bytes a match stands for, also where the copy overlaps what it writes; from distance 0 those the buffer held |
| `Inflate.ZBuf.ParseHuffmanBlock` | libs/common/stb/stb_image.h:4045-4085 | a block is decoded, rejected or run out of room exactly as its tokens demand, and takes exactly their bits |
| `Inflate.ZBuf.ReadCodeLengths` | libs/common/stb/stb_image.h:4107-4130 | code lengths with their repetitions, or failure, exactly as RFC 1951 section 3.2.7 has them |
| `Inflate.ZBuf.ComputeHuffmanCodes` | libs/common/stb/stb_image.h:4087-4134 | both tables of a dynamic block, or failure exactly when its lengths are not those of codes |
| `Inflate.ZBuf.ParseUncompressedBlock` | libs/common/stb/stb_image.h:4136-4163 | the bytes of a stored block, rejected exactly when the lengths disagree, pass the end of the input or find no room |
| `Inflate.ZBuf.StoredHeader` | libs/common/stb/stb_image.h:4141-4155 | the four header bytes, partly from the bit buffer, are the next 32 bits of the stream, and the buffer is empty after them |
| `Inflate.ZBuf.ParseZlibHeader` | libs/common/stb/stb_image.h:4165-4176 | accepts exactly the headers with valid check bits, no dictionary and method 8 |
| `Inflate.ZBuf.ParseZlib` | libs/common/stb/stb_image.h:4207-4233 | the reader reports for the whole stream what the format prescribes, for every input |
| `Inflate.ZlibDecodeMalloc` | libs/common/stb/stb_image.h:4245-4259 | decoding into a growing buffer returns the bytes the stream means, as far as its doubled size stays an int |
| `Deflate.CapacityIff` | libs/common/stb/stb_image.h:4012-4029 | a buffer can grow to a number of bytes if and only if some doubling of its first size is at least that number and still an int |
| `Inflate.ZlibDecodeBuffer` | libs/common/stb/stb_image.h:4282-4291 | decoding into a fixed buffer returns them if they fit and fails if they do not |
| `Deflate.ZlibMore` | libs/common/stb/stb_image.h:4207-4233 | the outcome reached within a number of steps is the outcome for any larger number: the bound on steps changes nothing else |
| `FixedCode.FixedCodeIs` | libs/common/stb/stb_image_write.h:842-852 | the four ranges the writer uses are the canonical codes of the reader's fixed lengths |
| `TokenCode.ReadTokenFields` | libs/common/stb/stb_image_write.h:842-852 | the fields written for a token, in any pair of codes, are read back as that token, whatever follows, and take exactly their bits |
| `TokenCode.BlockOfFields` | libs/common/stb/stb_image.h:4045-4085 | a block of tokens encoded in any pair of codes decodes to exactly the bytes they stand for, if there is room, and is refused if not |
| `DynamicCode.ReadSent` | libs/common/stb/stb_image.h:4107-4130 | each run of code lengths is read as what it means: 0 to 15 one length, 16 the length before it 3 to 6 times, 17 from 3 to 10 zeros, 18 from 11 to 138 zeros |
| `DynamicCode.ReadAllSent` | libs/common/stb/stb_image.h:4107-4130 | runs one after the other are read as the lengths they mean, and take exactly their bits |
| `DynamicCode.ReadSizes` | libs/common/stb/stb_image.h:4089-4104 | the sizes sent for the code of the code lengths are read back in their order, those not sent as zero |
| `DynamicCode.ReadPlan` | libs/common/stb/stb_image.h:4087-4134 | the counts, sizes and runs that a writer sends are read back as exactly the two lists of code lengths they stand for |
| `DynamicCode.CanBeSent` | libs/common/stb/stb_image.h:4087-4134 | all code lengths that fit can be sent so |
| `StreamCode.ReadStored` | libs/common/stb/stb_image.h:4136-4163 | a stored block written from any bit position reads back as its bytes |
| `StreamCode.ReadStream` | libs/common/stb/stb_image.h:4207-4233 | any sequence of stored, fixed and dynamic blocks means the bytes of its blocks together, if there is room, and is refused if not |
| `StreamCode.StreamMeans` | libs/common/stb/stb_image.h:4207-4233 | the same for a whole zlib stream, header included |
| `StreamCode.StreamExists` | libs/common/stb/stb_image.h:4207-4233 | any blocks that can be sent make a stream |
| `StreamCode.DecodeStream` | libs/common/stb/stb_image.h:4245-4259 | the reader decompresses a stream of any blocks, by any writer, to their bytes, if the buffer can grow to their number |
| `Compress.BitWriter.Add` | libs/common/stb/stb_image_write.h:802-810 | the bytes written and the bits waiting hold exactly the fields added so far |
| `Compress.FixedSymbol` | libs/common/stb/stb_image_write.h:844-850 | code and width of each literal or length symbol in the fixed code |
| `Compress.FindLengthCode` | libs/common/stb/stb_image_write.h:923-925 | the length code whose range holds the match length, with its base and extra bits |
| `Compress.FindDistCode` | libs/common/stb/stb_image_write.h:926-928 | the same for distances |
| `Compress.CountM` | libs/common/stb/stb_image_write.h:822-828 | how many bytes agree, and that one more would not, up to 258 |
| `Compress.FindMatch` | libs/common/stb/stb_image_write.h:887-896 | the match returned is one within the window, and no candidate is longer |
| `Compress.BetterAt` | libs/common/stb/stb_image_write.h:904-918 | lazy matching cancels exactly when some candidate at the next byte is longer |
| `Compress.CopyIsData` | libs/common/stb/stb_image_write.h:920-929 | copying a match byte by byte produces the data, even where it overlaps itself |
| `Compress.ZlibCompress` | libs/common/stb/stb_image_write.h:858-968 | header, one block of tokens that stand for the data, end of block, zero padding and checksum, for every data and quality |
| `Adler.Adler32` | libs/common/stb/stb_image_write.h:947-962 | the loop over blocks gives the per-byte checksum of RFC 1950 for every length |
| `Adler.SumBlock` | libs/common/stb/stb_image_write.h:952-957 | one unreduced block never leaves 32 bits |
| `Adler.KnownChecksum` | libs/common/stb/stb_image_write.h:947-962 | the checksum of "Wikipedia" is 0x11e60398 |
| `ZlibRoundTrip.StreamMeansData` | libs/common/stb/stb_image.h:4207-4233 | the format gives a written stream the meaning of its data, or refuses it if there is no room |
| `ZlibRoundTrip.RoundTrip` | libs/common/stb/stb_image_write.h:858-968 | for every data, quality and initial buffer size, decompressing compressed data returns the data if and only if the buffer can grow to their number |
| `ZlibRoundTrip.LongIsLost` | libs/common/stb/stb_image.h:4261-4264 | from the usual 16384 bytes, 2^30 + 1 zeros do not come back |
| `ZlibRoundTrip.RoundTripBuffer` | libs/common/stb/stb_image.h:4282-4291 | into a fixed buffer, this succeeds exactly when the data fit |
| `PngFilter.PaethNearest` | libs/common/stb/stb_image.h:4383-4392 | the neighbour chosen is the nearest to the left one plus that above less that between, the left one first and the one above second among equally near |
| `PngFilter.ResidueZero` | libs/common/stb/stb_image_write.h:1038-1072 | a filter leaves nothing of a byte exactly if it is the left one, the one above, their mean rounded down or the nearest neighbour |
| `PngFilter.ResidueFollows` | libs/common/stb/stb_image_write.h:1038-1072 | and otherwise leaves the difference modulo 256 |
| `PngFilter.RowRestored` | libs/common/stb/stb_image.h:4383-4392 | undoing any of the five filters restores the row, for every row above and every pixel size |
| `PngFilter.ImageRestored` | libs/common/stb/stb_image.h:4423-4519 | the lines of an image give back all its rows, whichever filter each line has |
| `PngWriter.FlipReverses` | libs/common/stb/stb_image_write.h:1045-1046 | flipping gives the same rows in the opposite order |
| `PngWriter.EncodePngLine` | libs/common/stb/stb_image_write.h:1038-1072 | the line buffer holds the filtered row, with the first-row substitutes and either row order |
| `PngWriter.ChooseFilter` | libs/common/stb/stb_image_write.h:1092-1116 | the filter forced, or the first of those with the least estimate |
| `PngWriter.FilterImage` | libs/common/stb/stb_image_write.h:1086-1120 | all lines of the image, each after the number of its filter |
| `PngReader.UndoRow` | libs/common/stb/stb_image.h:4438-4492 | undoing a row in place yields the unfiltered row and leaves earlier rows alone |
| `PngReader.UndoWideRow` | libs/common/stb/stb_image.h:4438-4518 | the same while an opaque alpha is added to each pixel |
| `PngReader.WidenedPixel` | libs/common/stb/stb_image.h:4494-4509 | each pixel of a row keeps its bytes, with 255 after them |
| `PngReader.CreatePngImageRaw` | libs/common/stb/stb_image.h:4397-4519 | the picture is that of the lines; reading fails exactly when a size does not fit an int, bytes are missing or a filter number is unknown |
| `PngReader.HeaderIff` | libs/common/stb/stb_image.h:4826-4839 | the header's divisions accept exactly the sides from 1 to 2^24 with at most 2^30 samples |
| `PngReader.SizesFitIff` | libs/common/stb/stb_image.h:4411-4414 | of the pictures that the header accepts, exactly those of 2^30 grey pixels to which alpha is added are refused for their size |
| `PngReader.GreyWithAlphaRefused` | libs/common/stb/stb_image.h:4411-4412 | a grey picture of 32768 by 32768 pixels read with alpha is one |
| `PngRoundTrip.WriteAndRead` | libs/common/stb/stb_image_write.h:1075-1120 | for every filter setting and quality, filtering, compressing, decompressing and unfiltering restores every row if and only if the reader's header and size tests accept the picture |
| `Tga.WritePixel` | libs/common/stb/stb_image_write.h:395-426 | a pixel goes out with its colours reversed and alpha last |
| `Tga.ScanPacket` | libs/common/stb/stb_image_write.h:523-554 | a packet has 1 to 128 pixels within the row; a run is of equal pixels and as long as possible; a raw packet has no equal pixels two apart |
| `Tga.WritePacket` | libs/common/stb/stb_image_write.h:556-567 | the packet written is the raw or run packet for those pixels |
| `Tga.WriteRow` | libs/common/stb/stb_image_write.h:522-568 | the packets of a row cover it exactly, each within its limits |
| `Tga.WriteTga` | libs/common/stb/stb_image_write.h:497-573 | header, then packets that hold the rows from the bottom up |
| `Tga.OnePixelFile` | libs/common/stb/stb_image_write.h:497-573 | the file of one pixel, byte by byte: header, one packet of one pixel, blue, green and red |
| `TgaReader.ReadPixels` | libs/common/stb/stb_image.h:5617-5673 | the loop over pixels, with count, kind and pixel carried along, reads what the packets hold, for every data |
| `TgaReader.InvertRows` | libs/common/stb/stb_image.h:5675-5690 | swapping rows in place leaves the mirror image, also for an odd number of rows |
| `TgaReader.SwapColours` | libs/common/stb/stb_image.h:5698-5709 | first and third byte of every pixel change places if there are three |
| `Sizes.Mul2SizesFit` | libs/common/stb/stb_image.h:919-926 | the division test accepts exactly the products that fit an int |
| `Sizes.Mad3SizesFit` | libs/common/stb/stb_image.h:934-938 | the tests together accept exactly the sums of a product of three and one more number that fit an int |
| `TgaReader.LoadTga` | libs/common/stb/stb_image.h:5527-5722 | each outcome exactly when the header calls for it, and then the picture of the packets |
| `TgaReader.Load` | libs/common/stb/stb_image.h:5476-5505 | a file is loaded exactly if it passes the header test, which leaves no file without components or pixels |
| `TgaRoundTrip.StreamDecoded` | libs/common/stb/stb_image.h:5617-5673 | decoding the packets of a writer returns their pixels, however they were split |
| `TgaRoundTrip.WriteAndLoad` | libs/common/stb/stb_image_write.h:497-573 | a picture comes back pixel for pixel if and only if its sides are at least 1 and fit 16 bits and its size fits an int |
| `TgaRoundTrip.WideIsLost` | libs/common/stb/stb_image_write.h:497-573 | a picture 65536 pixels wide is not taken for one |
| `TgaRoundTrip.LargeIsRefused` | libs/common/stb/stb_image.h:5577-5578 | a picture of 2^31 bytes with sides that fit is refused |
| `JpegCode.ScanInverse` | libs/common/stb/stb_image_write.h:1196-1197 | the scan tables of writer and reader are inverse permutations |
| `JpegCode.ScanWalks` | libs/common/stb/stb_image.h:2005-2019 | the scan is the walk from the first place along the diagonals, up on even ones, down on odd ones, and along the border between them |
| `JpegCode.ScanByDiagonals` | libs/common/stb/stb_image.h:2005-2019 | frequencies never fall back by a diagonal, rows fall on even diagonals and grow on odd ones, and each step to the next is along the border; the first places are 0 and 1 |
| `JpegCode.CalcBits` | libs/common/stb/stb_image_write.h:1264-1272 | the number of bits of a magnitude and the additional bits, for every value |
| `JpegCode.ExtendedAdditional` | libs/common/stb/stb_image.h:1966-1979 | extending the additional bits of any nonzero value gives the value back |
| `JpegCode.HuffDecodeIs` | libs/common/stb/stb_image.h:1912-1958 | decoding gives a word and its symbol exactly when that word is next, for every prefix code |
| `JpegHuffman.HuffmanTable.Build` | libs/common/stb/stb_image.h:1821-1861 | building succeeds exactly when there is room for so many words, and then all tables are those of the canonical words |
| `JpegHuffman.WordsArePrefixFree` | libs/common/stb/stb_image.h:1821-1861 | no word of a header that has room begins another |
| `JpegHuffman.WordNextIff` | libs/common/stb/stb_image.h:1931-1939 | a word comes next exactly when the next sixteen bits, as a number, lie between its start and the next word's |
| `JpegHuffman.HuffmanTable.Search` | libs/common/stb/stb_image.h:1912-1958 | the fast table, or else the comparison with the ends of each length, gives the answer of the tables |
| `JpegHuffman.SearchFinds` | libs/common/stb/stb_image.h:1912-1958 | that answer is the word that comes next and its length, or none if no word does |
| `JpegHuffman.SearchMisses` | libs/common/stb/stb_image.h:1849-1860 | if there are 256 words of at most nine bits, the last one is not found |
| `JpegHuffman.SearchIff` | libs/common/stb/stb_image.h:1849-1860 | the search is right for all bits if and only if there are not 256 words of at most nine bits |
| `JpegHuffman.FullTable` | libs/common/stb/stb_image.h:2934-2953 | 255 words of eight bits and one of nine are such a table, with counts that are bytes and room for all words |
| `JpegHuffman.LastWordIsMissed` | libs/common/stb/stb_image.h:1912-1958 | built from those counts, the reader's tables do not find the last word among bits that begin with it |
| `JpegHuffman.BuildTable` | libs/common/stb/stb_image.h:2930-2957 | building succeeds exactly when there is room; the tables then decode the words and symbols of the header, if it has not 256 words of at most nine bits |
| `JpegStream.UnstuffedStuffed` | libs/common/stb/stb_image.h:1890-1906 | bytes stuffed by the writer and followed by a marker come back |
| `JpegStream.LrotParts` | libs/common/stb/stb_image.h:1972-1975 | rotating the buffer brings its top bits down, and masking them off is a shift |
| `JpegEncode.BitWriter.WriteBits` | libs/common/stb/stb_image_write.h:1199-1217 | bytes written, without stuffing, and bits waiting are all bits so far, the new ones last |
| `JpegEncode.Scan` | libs/common/stb/stb_image_write.h:1288-1294 | every coefficient goes to its number in the scan |
| `JpegEncode.WriteAc` | libs/common/stb/stb_image_write.h:1306-1335 | the writer's runs, markers and end marker are those of the standard, for every block |
| `JpegEncode.KnownDifference` | libs/common/stb/stb_image_write.h:1296-1305 | the bits of a difference of -3 |
| `JpegEncode.KnownBlock` | libs/common/stb/stb_image_write.h:1306-1335 | the symbols and bits of a block with coefficients 1, 0 and -2: 0x01, 0x12 and the end marker |
| `JpegEncode.KnownRun` | libs/common/stb/stb_image_write.h:1314-1330 | a coefficient after seventeen zeros: 0xf0, then 0x11 |
| `JpegEncode.ProcessDU` | libs/common/stb/stb_image_write.h:1274-1337 | the difference and the coefficients in scan order, and the next prediction |
| `JpegDecode.BuildFastAc` | libs/common/stb/stb_image.h:1865-1888 | every entry, made from the fast table, is that of the word and value its nine bits begin with |
| `JpegDecode.FastIffShort` | libs/common/stb/stb_image.h:1865-1888 | an entry is nonzero exactly when word and value fit nine bits and one signed byte, and then gives the run, value and length of the ordinary path |
| `JpegDecode.Decoder.GrowByte` | libs/common/stb/stb_image.h:1890-1906 | a byte, past fill bytes and a stuffed zero, or a marker, leaves the bits to be read unchanged |
| `JpegDecode.Decoder.NextSymbol` | libs/common/stb/stb_image.h:1912-1958 | through the tables, the symbol whose word is next, consumed exactly, or -1; the tests of a word's length against the bits held never fail |
| `JpegDecode.Decoder.ExtendReceive` | libs/common/stb/stb_image.h:1966-1979 | the value of the next bits with the sign restored |
| `JpegDecode.AcShort` | libs/common/stb/stb_image.h:2051-2058 | the table path reads what the ordinary path reads |
| `JpegDecode.Decoder.DecodeBlock` | libs/common/stb/stb_image.h:2021-2071 | both paths together read what symbols and values alone give, for every data |
| `JpegRoundTrip.BlockRestored` | libs/common/stb/stb_image.h:2021-2071 | for every block whose magnitudes have words, its bits give back the prediction and all 64 coefficients, scaled, in their places |
| `JpegRoundTrip.UnitScaled` | libs/common/stb/stb_image.h:2021-2071 | with steps of one they come back unchanged |
| `JpegRoundTrip.ScanRestored` | libs/common/stb/stb_image.h:2753-2800 | so do all blocks of a scan with interleaved components, each with its own prediction |
| `JpegRoundTrip.WriteAndReadScan` | libs/common/stb/stb_image_write.h:1462-1506 | the same through bytes, stuffing, buffers, tables built from headers, fill bits and end marker, for any headers that agree with the writer's words |
| `JpegTables.TableAgrees` | libs/common/stb/stb_image_write.h:1339-1400 | a table whose words follow each other as the counts and symbols of a header say holds the words the reader makes of that header, one for each symbol |
| `JpegTables.StandardTables` | libs/common/stb/stb_image_write.h:1339-1406 | the four tables of the writer agree with the headers it sends and have words for all it needs, so scans through them come back |
| `JpegTables.WriteAndReadStandardScan` | libs/common/stb/stb_image_write.h:1462-1506 | every block of a scan through the writer's own tables and headers comes back |
| `ThreadPool.ThreadPool.Submit` | rknn_yolov8_demo/yolov8_demo/include/ThreadPool.hpp:75-91 | the new task goes last in the queue, and a worker is made exactly when nobody is idle and there is room |
| `ThreadPool.ThreadPool.EndWait` | rknn_yolov8_demo/yolov8_demo/include/ThreadPool.hpp:121-147 | what a worker does when its wait ends, by queue, quit and timeout, and the counters after it |
| `ThreadPool.SubmitDecides` | rknn_yolov8_demo/yolov8_demo/include/ThreadPool.hpp:75-91 | in every reachable world a submission adds the new thread exactly if no thread waits and fewer than the maximum live, and queues the task last |
| `ThreadPool.WakeDecides` | rknn_yolov8_demo/yolov8_demo/include/ThreadPool.hpp:121-147 | a worker whose wait ends runs the first task queued; with none queued it ends if the pool is quitting, and otherwise retires |
| `ThreadPool.RunAtOnceIff` | rknn_yolov8_demo/yolov8_demo/include/ThreadPool.hpp:81-91 | a number of tasks can be running at once if and only if it is at most the maximum of workers |
| `ThreadPool.ThreadPool.JoinFinishedThreads` | rknn_yolov8_demo/yolov8_demo/include/ThreadPool.hpp:153-167 | the loop empties the list and takes exactly the listed threads out of the map; every one is found there |
| `ThreadPool.ThreadPool.RetireWorker` | rknn_yolov8_demo/yolov8_demo/include/ThreadPool.hpp:137-142 | a retiring worker has joined all listed before it and is alone in the list |
| `ThreadPool.RetireIsAtomic` | rknn_yolov8_demo/yolov8_demo/include/ThreadPool.hpp:137-167 | joining under the mutex, with any steps of other threads in between, comes to one uninterrupted retirement |
| `ThreadPool.Replay` | rknn_yolov8_demo/yolov8_demo/include/ThreadPool.hpp:43-167 | calling the methods as the steps of any run of the threads demand leaves the fields that run leaves |
| `ThreadPool.InvStep` | rknn_yolov8_demo/yolov8_demo/include/ThreadPool.hpp:61-167 | every step of submitters, workers and destructor keeps the invariant, for every maximum |
| `ThreadPool.InvReachable` | rknn_yolov8_demo/yolov8_demo/include/ThreadPool.hpp:61-167 | the invariant holds in every reachable state |
| `ThreadPool.CountersInRange` | rknn_yolov8_demo/yolov8_demo/include/ThreadPool.hpp:81-91 | idle workers are among the current ones, and those at most the maximum; counters never go below zero |
| `ThreadPool.FirstInFirstOut` | rknn_yolov8_demo/yolov8_demo/include/ThreadPool.hpp:75-79 | tasks are taken in the order of submission, and none runs twice |
| `ThreadPool.ThreadLedger` | rknn_yolov8_demo/yolov8_demo/include/ThreadPool.hpp:153-167 | the map holds exactly the threads not yet joined; nobody joins itself or a thread that still needs the mutex |
| `ThreadPool.ThreadsFixedOnceQuit` | rknn_yolov8_demo/yolov8_demo/include/ThreadPool.hpp:43-56 | nothing changes the map once the pool is quitting |
| `ThreadPool.QueuedTaskProgress` | rknn_yolov8_demo/yolov8_demo/include/ThreadPool.hpp:106-150 | with a task queued, some live worker can move |
| `ThreadPool.ReaperProgress` | rknn_yolov8_demo/yolov8_demo/include/ThreadPool.hpp:153-167 | a worker that joins others under the mutex does not block for ever |
| `ThreadPool.DestructorProgress` | rknn_yolov8_demo/yolov8_demo/include/ThreadPool.hpp:43-56 | of a quitting pool, each thread not yet joined, and so the one the destructor waits for, can make its next step or be joined |
| `ThreadPool.DestructorInOrder` | rknn_yolov8_demo/yolov8_demo/include/ThreadPool.hpp:43-56 | in whatever order the map lists the threads, when neither the destructor, blocked on the first not yet joined, nor any worker can move, all threads have been joined |
| `ThreadPool.DestructorEnds` | rknn_yolov8_demo/yolov8_demo/include/ThreadPool.hpp:43-56 | a quitting pool makes only a bounded number of steps, however they are scheduled |
| `ThreadPool.DestroyedMeansDrained` | rknn_yolov8_demo/yolov8_demo/include/ThreadPool.hpp:43-56 | when the destructor is done, every task submitted has run exactly once and every thread created was joined exactly once |
| `ThreadPool.ServedIffThreads` | rknn_yolov8_demo/yolov8_demo/include/ThreadPool.hpp:75-91 | a queued task has a live worker in every reachable state if and only if the maximum is at least one |
| `ThreadPool.GuaranteedWorkers` | rknn_yolov8_demo/yolov8_demo/include/ThreadPool.hpp:81-91 | with any number of tasks queued, one live worker is guaranteed in every reachable state, and no more than one, whatever the maximum |
| `ThreadPool.QueueBehindOneTask` | rknn_yolov8_demo/yolov8_demo/include/ThreadPool.hpp:81-91 | any number of tasks can be queued behind a running one that alone could make progress, below the maximum of workers |
| `ScanlineRing.SlotInjective` | libs/common/stb/stb_image_resize.h:1685-1689 | different scanlines of the ring are in different rows |
| `ScanlineRing.Ring.AddEmpty` | libs/common/stb/stb_image_resize.h:1411-1438 | a cleared row joins the ring and no scanline in use is overwritten |
| `ScanlineRing.Ring.DropFirst` | libs/common/stb/stb_image_resize.h:2085-2098 | the oldest scanline leaves the ring, which resets when it was the only one |
| `ScanlineRing.Ring.AddToScanline` | libs/common/stb/stb_image_resize.h:1983-2061 | adding into one scanline changes that one and no other |
| `Resample.Resizer.DecodeAndResample` | libs/common/stb/stb_image_resize.h:1654-1682 | the new row of the ring holds the decoded content of its scanline |
| `Resample.Resizer.VerticalUpsample` | libs/common/stb/stb_image_resize.h:1866-1981 | an output row is the sum over its contributors |
| `Resample.Resizer.BufferLoopUpsample` | libs/common/stb/stb_image_resize.h:2063-2114 | every output row in order is the sum a resample without a cache would give, and no scanline is decoded twice |
| `Resample.UpResponds` | libs/common/stb/stb_image_resize.h:1866-1981 | changing one scanline changes an output row by the change times its coefficient if it is a contributor, both ends included, and not at all otherwise |
| `Resample.UpImpulse` | libs/common/stb/stb_image_resize.h:1866-1981 | the row that comes of a single scanline that is not blank |
| `Resample.Resizer.EmptyRing` | libs/common/stb/stb_image_resize.h:2116-2159 | the rows given up are encoded in order if they are rows of the output |
| `Resample.Resizer.VerticalDownsample` | libs/common/stb/stb_image_resize.h:1983-2061 | a scanline adds its share to each of its rows and to no other |
| `Resample.Resizer.BufferLoopDownsample` | libs/common/stb/stb_image_resize.h:2161-2200 | every output row is encoded once, in order, with the sum over all input scanlines |
| `Resample.DownResponds` | libs/common/stb/stb_image_resize.h:1983-2061 | changing one scanline changes each of its rows by the change times its coefficient for that row, both ends included, and no other row |
| `Resample.DownImpulse` | libs/common/stb/stb_image_resize.h:1983-2061 | the rows that come of a single scanline that is not blank |
| `ResampleWindows.UpscaleWindows` | libs/common/stb/stb_image_resize.h:1008-1021 | the windows for enlarging are monotone and fit the ring, for every filter, scale and shift |
| `ResampleWindows.ShrinkWindows` | libs/common/stb/stb_image_resize.h:1022-1035 | those for shrinking are monotone and fit the ring, for every filter, scale and shift |
| `ResampleWindows.UpReach` | libs/common/stb/stb_image_resize.h:1008-1021 | the contributors of an output row are exactly the scanlines whose centres the filter reaches from the centre of the row |
| `ResampleWindows.DownReach` | libs/common/stb/stb_image_resize.h:1022-1035 | the rows of a scanline are exactly those whose centres the filter reaches from its centre |
| `ResampleWindows.ShrinkCovers` | libs/common/stb/stb_image_resize.h:882-898 | with the margins they have no gaps and cover every output row, for every part of a picture |
| `ResampleWindows.RegionFits` | libs/common/stb/stb_image_resize.h:2211-2233 | the scale and shift computed for any part of a picture keep its rows within the picture, up to the end exactly when the part reaches it |
| `ResampleWindows.Enlarge` | libs/common/stb/stb_image_resize.h:2063-2114 | enlarging with the filter's own windows and ring size gives every row its sum |
| `ResampleWindows.Shrink` | libs/common/stb/stb_image_resize.h:2161-2200 | shrinking a picture or a part of it with the filter's own windows, margins and ring size gives every row its sum |
| `Trie.EdgesGoUp` | rknn_yolov8_demo/z_rkmpp_enc/mpp_base/mpp_trie.cpp:186-222 | every edge that is not negative leads to a later node |
| `Trie.OneParent` | rknn_yolov8_demo/z_rkmpp_enc/mpp_base/mpp_trie.cpp:186-222 | no node has two parents, and no two edges hold the same value |
| `Trie.FollowFinds` | rknn_yolov8_demo/z_rkmpp_enc/mpp_base/mpp_trie.cpp:261-298 | while the indices on a way fit the edges, following it finds exactly its node, or none if it was not entered |
| `Trie.FollowFails` | rknn_yolov8_demo/z_rkmpp_enc/mpp_base/inc/mpp_trie.h:26-32 | once an index on the way does not fit, following it leads outside the array |
| `Trie.OutsideIff` | rknn_yolov8_demo/z_rkmpp_enc/mpp_base/inc/mpp_trie.h:26-32 | a lookup leads outside the array if and only if an index on its way does not fit |
| `Trie.WayToNode` | rknn_yolov8_demo/z_rkmpp_enc/mpp_base/mpp_trie.cpp:186-222 | the way to a node fits if and only if the index of that node does |
| `Trie.NibblesInjective` | rknn_yolov8_demo/z_rkmpp_enc/mpp_base/mpp_trie.cpp:186-222 | different names have different ways |
| `Trie.Trie.constructor` | rknn_yolov8_demo/z_rkmpp_enc/mpp_base/mpp_trie.cpp:88-133 | a new trie has a root and no names |
| `Trie.Trie.GetNode` | rknn_yolov8_demo/z_rkmpp_enc/mpp_base/mpp_trie.cpp:55-86 | a blank node after all others, the array doubled and copied if it was full |
| `Trie.Trie.AddInfo` | rknn_yolov8_demo/z_rkmpp_enc/mpp_base/mpp_trie.cpp:151-237 | the first 1024 characters of the name map to the info added last; the name can be found again if and only if it needed no node or all indices still fit; names found before still are |
| `Trie.Trie.FindNode` | rknn_yolov8_demo/z_rkmpp_enc/mpp_base/mpp_trie.cpp:261-298 | the node where the name ends, if it carries an info |
| `Trie.Trie.GetInfo` | rknn_yolov8_demo/z_rkmpp_enc/mpp_base/mpp_trie.cpp:311-324 | for a name whose way fits, the info of the last add under it, and none if there was none or the name is empty |
| `Trie.Outgrow` | rknn_yolov8_demo/z_rkmpp_enc/mpp_base/inc/mpp_trie.h:26-32 | after sixteen names of 1024 characters the last one leads outside the array |
| `Dictionary.Dictionary.constructor` | rknn_yolov8_demo/z_rkmpp_enc/mpp_utils/dictionary.c:150-166 | a new table holds nothing |
| `Dictionary.Dictionary.Get` | rknn_yolov8_demo/z_rkmpp_enc/mpp_utils/dictionary.c:209-227 | the last value set, possibly none, for exactly the keys present, for any hash function |
| `Dictionary.Dictionary.Grow` | rknn_yolov8_demo/z_rkmpp_enc/mpp_utils/dictionary.c:68-101 | twice the slots, the same contents |
| `Dictionary.Dictionary.EmptySlot` | rknn_yolov8_demo/z_rkmpp_enc/mpp_utils/dictionary.c:289-294 | the search with wrap-round ends at an empty slot |
| `Dictionary.Dictionary.Set` | rknn_yolov8_demo/z_rkmpp_enc/mpp_utils/dictionary.c:255-301 | the key has that value, counts even if the value is none, and all others keep theirs, through growth |
| `Dictionary.Dictionary.Unset` | rknn_yolov8_demo/z_rkmpp_enc/mpp_utils/dictionary.c:314-349 | the key is gone and no longer counts, and all others keep their values |
| `Dictionary.SizeIsOccupied` | rknn_yolov8_demo/z_rkmpp_enc/mpp_utils/dictionary.c:255-301 | the number of occupied slots is the number of keys |
| `Dictionary.NoneDeletesIff` | rknn_yolov8_demo/z_rkmpp_enc/mpp_utils/dictionary.c:244-249 | every lookup finds a key set to NULL as if it were deleted, if and only if the default asked for is NULL |
| `Dictionary.NoneDeletesForEverIff` | rknn_yolov8_demo/z_rkmpp_enc/mpp_utils/dictionary.c:244-249 | the same for all lookups after any sequence of sets and deletions |
| `Dictionary.NoneIsCounted` | rknn_yolov8_demo/z_rkmpp_enc/mpp_utils/dictionary.c:244-249 | with the key set to NULL there is one key more than with it deleted |
| `Dictionary.GetAfterNone` | rknn_yolov8_demo/z_rkmpp_enc/mpp_utils/dictionary.c:255-301 | a key set to NULL is found, with no value, in place of the default, and counts |
| `Dictionary.GetAfterUnset` | rknn_yolov8_demo/z_rkmpp_enc/mpp_utils/dictionary.c:314-349 | after the same start, a deleted key gives the default and does not count |
| `NpyHeader.CreateNpyHeader` | libs/common/cnpy/cnpy.h:276-312 | the header is the padded dictionary after its length, a multiple of 16 long |
| `NpyHeader.ParseHeaderText` | libs/common/cnpy/cnpy.cpp:157-205 | the reader's searches find what the header text says, or fail, for every text |
| `NpyHeader.HeaderRoundTrip` | libs/common/cnpy/cnpy.cpp:145-206 | reading a written header gives back word size, shape and type, for every shape and type |
| `NpzArchive.ParseZipFooter` | libs/common/cnpy/cnpy.cpp:208-229 | the counts in the last 22 bytes, or failure |
| `NpzArchive.LoadTheNpyFile` | libs/common/cnpy/cnpy.cpp:231-244 | the array at the cursor, or failure when bytes are missing, with their number counted modulo 2^64 |
| `NpzArchive.CountBytes` | libs/common/cnpy/cnpy.h:36-39 | multiplying step by step modulo 2^64 gives the product of all sides and the word size modulo 2^64 |
| `NpzArchive.BytesIff` | libs/common/cnpy/cnpy.cpp:231-244 | a loaded array has as many bytes as its shape calls for if and only if that number is below 2^64 |
| `NpzArchive.BytesWrap` | libs/common/cnpy/cnpy.h:36-39 | for 2^30 by 2^30 by 16 single bytes none are read |
| `NpzArchive.NpzSave` | libs/common/cnpy/cnpy.h:164-258 | appending leaves members, central directory and footer of the longer archive and nothing else, in a file that has grown |
| `NpzArchive.RecordOfMember` | libs/common/cnpy/cnpy.h:224-235 | every record of the central directory names its member and gives its sizes, and at the offset it gives that member begins |
| `NpzArchive.NpzLoad` | libs/common/cnpy/cnpy.cpp:286-338 | the scan for members, for every file content |
| `NpzArchive.MemberFound` | libs/common/cnpy/cnpy.cpp:296-333 | a member written somewhere in a file is read there with its name, shape, type and bytes |
| `NpzArchive.ArchiveLoads` | libs/common/cnpy/cnpy.cpp:286-338 | loading an archive gives each name the array saved last under it |
| `NpzArchive.SaveAndLoad` | libs/common/cnpy/cnpy.h:164-258 | saving into any archive of loadable arrays and loading gives its arrays and the new one, which replaces one of the same name |
| `NpzArchive.SaveAllAndLoad` | libs/common/cnpy/cnpy.h:164-258 | any sequence of saves, the first new and the others appended, leaves exactly that archive, and loading returns it |
| `QuickSort.Partition` | rknn_yolov8_demo/yolov8_demo/src/yolo.cc:207-231 | pairs stay together and inside the range, and the pivot separates higher from lower scores |
| `QuickSort.QuickSortIndiceInverse` | rknn_yolov8_demo/yolov8_demo/src/yolo.cc:197-237 | scores end up highest first, each beside its index, as a permutation of the range, and nothing outside is touched |
| `Detection.OverlapSymmetric` | rknn_yolov8_demo/yolov8_demo/src/yolo.cc:149-156 | the overlap does not depend on the order of the boxes |
| `Detection.OverlapRange` | rknn_yolov8_demo/yolov8_demo/src/yolo.cc:149-156 | the overlap of boxes with sides is between 0 and 1 |
| `Detection.OverlapSelf` | rknn_yolov8_demo/yolov8_demo/src/yolo.cc:149-156 | a box with sides overlaps itself by exactly 1 |
| `Detection.OverlapApart` | rknn_yolov8_demo/yolov8_demo/src/yolo.cc:149-156 | boxes a pixel or more apart overlap by exactly 0 |
| `Detection.OverlapCounts` | rknn_yolov8_demo/yolov8_demo/src/yolo.cc:149-156 | for boxes with whole corners, the overlap times the number of pixels in either is the number of pixels in both |
| `Detection.Nms` | rknn_yolov8_demo/yolov8_demo/src/yolo.cc:158-194 | exactly the entries of the class that the greedy rule does not let survive are removed |
| `Detection.NmsAll` | rknn_yolov8_demo/yolov8_demo/src/yolo.cc:434-438 | the same for all classes, in whatever order |
| `Detection.SurvivorsApart` | rknn_yolov8_demo/yolov8_demo/src/yolo.cc:158-194 | no two survivors of a class overlap above the threshold |
| `Detection.RemovedForReason` | rknn_yolov8_demo/yolov8_demo/src/yolo.cc:158-194 | whatever was removed overlaps above the threshold with an earlier survivor of its class |
| `PostProcess.Select` | rknn_yolov8_demo/yolov8_demo/src/yolo.cc:441-471 | the first eligible entries, in order, as many as there is room for |
| `PostProcess.PostProcess` | rknn_yolov8_demo/yolov8_demo/src/yolo.cc:423-474 | results come highest score first, apart within a class, and, unless the table is full, every box that scores enough is reported or covered by one that is |
| `PostProcess.NoTwins` | rknn_yolov8_demo/yolov8_demo/src/yolo.cc:423-474 | no two boxes reported of a class have the same place and sides |
| `AxbDivC.ProductCheck` | rknn_yolov8_demo/z_rkmpp_enc/osal/mpp_common.cpp:68-69 | dividing the wrapped product back detects exactly the products that do not fit |
| `AxbDivC.LargestShift` | rknn_yolov8_demo/z_rkmpp_enc/osal/mpp_common.cpp:93-94 | the largest shift that loses no bit |
| `AxbDivC.ScaledResult` | rknn_yolov8_demo/z_rkmpp_enc/osal/mpp_common.cpp:104-106 | the scaled product fits 32 bits, and the result is at most the exact quotient and short of it by less than b/2^shift + 1 |
| `AxbDivC.SaturatedIsLarge` | rknn_yolov8_demo/z_rkmpp_enc/osal/mpp_common.cpp:101-102 | saturation happens only when the exact quotient exceeds 2^30 |
| `AxbDivC.AxbDivC` | rknn_yolov8_demo/z_rkmpp_enc/osal/mpp_common.cpp:58-108 | zero, saturated or exact where the arguments call for it; where the product fits, the truncated quotient in all cases but one, and where it does not, the scaled or saturated magnitude within its bounds, with the right sign |
| `AxbDivC.ExactBranchFails` | rknn_yolov8_demo/z_rkmpp_enc/osal/mpp_common.cpp:68-69 | -65536, 32768 and -1 do not give their quotient |

## Left out

- Compress.ZHash: chains are indexed by this hash, but nothing depends on its value; candidates are always compared.
- Deflate.Block: a copy from distance 0, which distance codes 30 and 31 denote, repeats whatever the buffer holds; the outcome is left unspecified.
- Inflate.ZBuf.ParseHuffmanBlock: a bound on the number of symbols is a parameter, since malformed input can go on for ever on the zeros read past its end; the bytes after a copy from distance 0 are left open.
- Inflate.ZBuf.ParseZlib: the same bound limits the blocks; which streams never end is not stated.
- Inflate.ZlibDecodeMalloc: the same bound, and the same open case.
- Inflate.ZlibDecodeBuffer: the same bound, and the same open case.
- Checksums: the Adler-32 and CRC-32 values are written and never compared, as in the source; CRC-32 is a parameter.
- NpzArchive.Scan: compressed members, which the library itself never writes, end the scan as outside this model.
- NpzArchive.NpzLoad: the same members end the loading.
- NpzArchive.NpzSave: opening, in append mode, a file that does not exist is the case of a new file; file errors other than missing bytes are not modelled.
- NpyHeader.ParseText: of the conversions to numbers only digits are modelled, not signs, blanks or word sizes past an int; big-endian machines are not.
- NpyHeader.ParseHeaderText: the same conversions are left out.
- TgaReader.LoadTga: palettes, 15- and 16-bit colours and pictures without run lengths end as outside this model, as does conversion to another number of components.
- TgaReader.ReadPixels: only run-length coded pixels of plain components, as for the whole loader.
- Tga.WritePixel: the background, alpha and mono settings that other formats use are not modelled.
- Tga.WriteTga: offsets are unbounded, while the source's `j * x * comp` is an int; output without run lengths and the flip setting are not modelled.
- JpegEncode.Scan: scaling and rounding of the transformed values are not modelled; blocks start as integers.
- JpegEncode.ProcessDU: the same; the transform before it is not modelled.
- Compress.ZlibCompress: lengths are unbounded, while the source's lengths and the sizes of its growing output are ints.
- JpegHuffman.Sendable: tables of 256 words of at most nine bits, which the reader searches wrongly, and counts of more than 256 words, for which its arrays have no room, are excluded from decoding.
- JpegDecode.BuildFastAc: the same tables are excluded.
- JpegDecode.Decoder.NextSymbol: the same tables are excluded.
- JpegDecode.Decoder: progressive scans and the inverse transform are not modelled.
- JpegDecode.Decoder.DecodeBlock: tables of differences with symbols above 15 are excluded, since the source has no entries for them in the arrays by which it extends a value.
- JpegRoundTrip.WriteAndReadScan: restart markers are not modelled.
- PngReader.CreatePngImageRaw: interlacing, 16-bit and sub-byte samples, palettes and the chunks around the data are not modelled; a width of zero is refused before by the header's reader.
- PngRoundTrip.WriteAndRead: the chunks around the data are not modelled.
- PngReader.HeaderAccepts: of the header only the sides are modelled, and only for pictures without a palette.
- PngWriter.FilterImage: the int widths of sizes are not modelled.
- ThreadPool.EndWait: how long a wait lasts and whom a notification wakes are not modelled; any wait may end at any time. Futures and exceptions of tasks are not.
- Resample.Plan: floats are reals; the horizontal pass, colour conversion and the filters' coefficient values are functions given by the caller, and contributors lie inside their windows.
- Resample.Resizer.DecodeAndResample: decoding and the horizontal pass are such a function.
- ResampleWindows.Shrink: a scale and shift that a caller gives directly, as `stbir_resize_subpixel` allows, are covered only where they keep the output within the picture.
- Detection.CalculateOverlap: floats are reals.
- PostProcess.Select: label texts, letterbox padding and the decoding of network output are not modelled.
- PostProcess.PostProcess: the same are not modelled; it starts from boxes and scores.
- Trie.Trie.AddInfo: adding a name whose way leads outside the array is undefined in the source and excluded; so is a trie within 2048 nodes of 65536, past which edges would wrap round to other nodes.
- AxbDivC.AxbDivC: arguments of -2^31 that the source would negate are excluded, as C gives that no meaning.
- Allocation failure, logging, the camera, the encoder hardware, networking, the other image formats and `mpp_queue.cpp` add nothing to these properties.
