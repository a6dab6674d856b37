# Lossless coding, verified

A model of the compression engines in `compress/lzma` and `compress/zstd`, of the job protocol that runs zstd
compression in parallel, and of the search for redirect loops in `archive/zim`. What is proved is that compressing
loses nothing, layer by layer, up to the theorems about whole streams and blocks.

- **LZMA.** A range coder with carry propagation (`RangeSpec`, `RangeCoder`), the tree, length, distance and literal
  codecs over it (`CodecSpec`, `LzmaCoder`), the operations with their 12 states and four distances (`OpSpec`), ring
  buffers and dictionaries (`LzmaBuffer`), a hash chain and a search tree as match finders (`HashTables`,
  `RollingHash`, `BinTree`), encoder and decoder (`LzmaEncoder`, `LzmaDecoder`, `LzmaRoundTrip`), and the LZMA2 chunks over
  them (`Lzma2Spec`, `Lzma2`). `LzmaSize` counts how short a stream can get.
- **zstd.** FSE tables, normalised counts and their header (`FseSpread`, `FseCoding`, `FseTables`, `FseCoder`,
  `FseNormalize`, `FseCount`, `FseCountReader`, `FseCutHeaders`), bit streams written forwards and read backwards
  (`BitStream`), the sequences of a block with their codes and repeat offsets (`SequenceCodes`, `SequenceSpec`, `SequenceCoder`,
  `SequenceDecoder`, `SequenceBlock`, `SequenceTables`), their execution (`SequenceExec`, `SequenceSync`), and the fast
  match finder (`FastMatch`, `FastEncoder`, `FastStale`, `FastRoundTrip`).
- **Huffman.** Sorting, tree, length limit, canonical codes, tables and streams (`HuffSort`, `HuffTree`, `HuffBuild`,
  `HuffRepay`, `HuffLimit`, `HuffTableBuild`, `HuffCodes`, `HuffTables`, `HuffStream`, `HuffRoundTrip`), and that no prefix code
  needs fewer bits than the tree (`HuffOptimal`, `HuffForest`, `HuffLeast`).
- **Formats.** What encoder and decoder share could change on both sides and still round-trip. So it is also stated in the
  numbers of the formats, without the functions both sides use: in closed form for all inputs, by when two things share a cell,
  or as a table in full (`RangeFacts`, `CodecFacts`, `OpFacts`, `ChunkFacts`, `FseFacts`, `SequenceFacts`, `HuffFacts`).
- **Protocols and graphs.** The goroutines of the parallel encoder as the steps of a state machine (`Jobs`), and
  Floyd's search with its termination (`Redirects`).

The form is that of the code. What it does in steps is a class or a method with loops, proved against a function of the
old state; what it means is proved about that function. Integers are unbounded, and where a width matters (the 32-bit
range and low word, the 64-bit containers, 16-bit header fields, truncating shifts) it is written out.

## Findings

Where the code does not do what its comments or its interface promise, there is an input that shows it and the exact
condition under which it does. The last entry is about code that is never reached.

- *Range decoder.* The comment at `compress/lzma/rangecodec.go:171` says that code < range. One direct bit breaks it on
  arbitrary input (`RangeSpec.DirectBitCounterexample`), exactly when the range is odd and code is range - 1
  (`RangeSpec.DirectBitStaysBelow`); on encoder-made streams it always holds (`RangeSpec.CodeStaysBelow`).
- *Empty stream of known size.* The decoder looks for the end only after an operation, so a stream without operation and
  marker that is read with size 0 does not end (`OpSpec.EmptySizedStream`); all others do (`OpSpec.SizedStreamIff`).
- *LZMA2 Close hides the error of Flush.* `compress/lzma/writer2.go:287-301` returns nil when flushing fails. A stored
  chunk longer than what the ring holds makes it fail, and the stream then cannot be read. Where all sizes fit their
  headers, `Lzma2.Writer2.Close` says that the stream reads back if and only if no error was hidden, and that none is from
  64 KiB of dictionary on; `Lzma2.LostInput` is the failing run, for which `LzmaSize.SomeHard` gives inputs of every length.
- *Fast encoder past the reset mark.* `compress/zstd/enc_base.go:149-154` leaves the count of positions alone when it has
  passed the mark, expecting the next block to shift the table. That keeps the new prefix's entries but also those of the
  older job, whose bytes are no longer there. `FastEncoder.PrefixGuard`: the table is good for all tables and prefixes if and
  only if the count was before the mark. `FastStale.StaleRun`: a new encoder with a window of 512 MiB, a prefix of ten
  zeros, a prefix of ten ones and a block of ten zeros; what it emits decodes to four ones and six zeros.
- *Decoding tables.* `buildDtable` rejects the counts that give all cells to one symbol, such as 32 in a table of 32, although
  the encoder's own `buildCTable` accepts them, and fails for no others (`FseCoder.FseDecoder.BuildDtable`).
- *Header of counts.* `readNCount` does not read every complete header. With fewer than four bytes in all it fails. Otherwise
  it reads one exactly when nothing in it is hidden (`FseCountReader.Hidden`, `FseCountReader.ReadNCount`): the 32-bit window
  comes to stand on the fifth byte from the end while it reads a run of zeros, and the run or the count after it has a one in
  the last byte. A byte behind the header is enough (`FseCountReader.ByteBehind`), and in a block the bit stream is behind it.
  `FseCutHeaders.ReadCut` has two headers that are not read, in hexadecimal: 10 3f for the counts 16 and 16, and
  30 e3 ff ff ff 79 for 18, 43 zeros and 14.
- *Tables for very few.* `optimalTableLog` of the FSE encoder is to make the table of a short input smaller, but its subtraction
  in 8 bits wraps for up to four occurrences (`compress/zstd/fse_encoder.go:434`), whose table is then the largest. From five on
  `FseNormalize.OptimalTableLog` says which size it is.
- *Dead branch.* The branch for poor values at `compress/zstd/fse_encoder.go:373-385` asks for one more symbol than there
  can be and is never taken; `FseNormalize.NormalizeCount2` holds without it.

## Model
| member | source | states |
|---|---|---|
| RangeSpec.RoundTrip | compress/lzma/rangecodec.go:51-218 | for every list of modelled and direct bits, decoding the bytes of Close returns the same bits, leaves every probability cell equal on both sides, consumes exactly the bytes written and ends with code 0 |
| RangeSpec.ShiftLowOk | compress/lzma/rangecodec.go:99-121 | one shift keeps the register invariant: a carry never overflows the cache byte, and the digits written, cached and pending denote 256 times the old interval start |
| RangeSpec.CloseOk | compress/lzma/rangecodec.go:88-121 | the bytes written by Close are the exact start of the last interval as one number, and the first of them is 0 |
| RangeSpec.CodeStaysBelow | compress/lzma/rangecodec.go:164-208 | on an encoder-made stream code < range after every prefix of the decoded bits |
| RangeSpec.DirectBitStaysBelow | compress/lzma/rangecodec.go:164-182 | on arbitrary bytes one direct bit keeps code < range if and only if not (range odd and code == range - 1) |
| RangeSpec.DirectBitCounterexample | compress/lzma/rangecodec.go:132-182 | five bytes that the decoder accepts and whose first direct bit leaves code == range |
| RangeCoder.RangeEncoder.ShiftLow | compress/lzma/rangecodec.go:99-121 | the byte-emitting loop over cache and cacheLen is the shift whose arithmetic meaning RangeSpec.ShiftLowOk gives |
| RangeCoder.RangeEncoder.EncodeBit | compress/lzma/rangecodec.go:67-85 | narrows to the lower or upper part of the interval, moves the probability a thirty-second part of the way, rounded down, to its end of the scale, and restores range >= 2^24 |
| RangeCoder.RangeEncoder.DirectEncodeBit | compress/lzma/rangecodec.go:51-63 | narrows to the lower or upper half of the interval and restores range >= 2^24 |
| RangeCoder.RangeDecoder.DecodeBit | compress/lzma/rangecodec.go:184-208 | returns the bit whose part of the interval holds the code, moves the probability in the same numbers, or fails at the end of the input |
| RangeCoder.RangeDecoder.DirectDecodeBit | compress/lzma/rangecodec.go:161-182 | the same for a bit of probability one half, in the sign-mask arithmetic of the source |
| RangeCoder.RangeDecoder.Open | compress/lzma/rangecodec.go:132-154 | reads the first five bytes, and fails on a first byte other than 0, on a code that is not below the range, and at the end of the input |
| RangeFacts.Saturates | compress/lzma/prob.go:5-28 | in any coder, enough zeros in one cell bring it to exactly 2017 and enough ones to exactly 31, where it stays; RangeFacts.KeepsMoving: up to there every bit moves it |
| RangeFacts.SplitIs | compress/lzma/prob.go:30-33 | the part of a range for a zero is a multiple of the probability, by the 2048th part of the range, rounded down |
| RangeFacts.FreshHalves | compress/lzma/state.go:26-31 | a cell never used halves the range, up to 1023 |
| RangeFacts.OpenReads | compress/lzma/rangecodec.go:132-154 | opening succeeds if and only if there are five bytes, the first 0 and the big-endian number of the other four below the whole range; that number is the code |
| CodecSpec.TreeRoundTrip | compress/lzma/treecodecs.go:21-45 | the bit tree reads back every value it can write and leaves the coder right behind it |
| CodecSpec.ReverseRoundTrip | compress/lzma/treecodecs.go:67-92 | the reverse bit tree reads back the low bits of every value |
| CodecSpec.DirectRoundTrip | compress/lzma/directcodec.go:14-34 | direct bits are appended to what was read before, highest first |
| CodecSpec.LenRoundTrip | compress/lzma/lengthcodec.go:59-111 | every match length from 2 to 273 is read back through its tier |
| CodecSpec.DistRoundTrip | compress/lzma/distcodec.go:67-136 | every 32-bit distance is read back through slot, reverse trees, direct and align bits |
| CodecSpec.LiteralRoundTrip | compress/lzma/literalcodec.go:35-109 | every byte is read back, with and without the match byte as context, including where the two first differ |
| CodecFacts.TreeEventAt | compress/lzma/treecodecs.go:21-45 | bit k from the top of any value is coded at the node numbered by a one and the bits above it |
| CodecFacts.ReverseEventAt | compress/lzma/treecodecs.go:67-92 | bit k from the bottom is coded at the node numbered by a one and the bits below it in reverse |
| CodecFacts.LenEvents | compress/lzma/lengthcodec.go:59-84 | every bit and cell of every length: eight short ones in a tree for the position, eight more in another, the rest in one tree for all positions |
| CodecFacts.SlotTreeShared | compress/lzma/distcodec.go:56-61 | the slots for two lengths are coded in the same tree if and only if the lengths are equal or both at least 3, counted from the shortest |
| CodecFacts.SlotIs | compress/lzma/distcodec.go:67-77 | a slot is twice the position of the highest bit of the distance, and the bit below it |
| CodecFacts.DistEvents | compress/lzma/distcodec.go:78-95 | every bit and cell behind the slot: a reverse tree of the slot up to 127, from 128 on direct bits from the top and four in a reverse tree for all |
| CodecFacts.LiteralEventAt | compress/lzma/literalcodec.go:35-71 | every bit and cell of every literal: from the top, at the node of the bits before it, and behind a match in one of two others as long as all bits so far are those of the match byte |
| LzmaCoder.EncodeLiteral | compress/lzma/literalcodec.go:35-71 | the loops write exactly the bits of the literal into the coder and adapt exactly those cells |
| LzmaCoder.DecodeLiteral | compress/lzma/literalcodec.go:75-109 | the loops read what the specification of the literal codec reads, or fail where it fails |
| LzmaCoder.EncodeDist | compress/lzma/distcodec.go:67-95 | the same for distances |
| LzmaCoder.DecodeDist | compress/lzma/distcodec.go:100-136 | the same for distances |
| LzmaCoder.State.DeepCopy | compress/lzma/state.go:60-78 | a copy has the state number, the distances, the properties and every probability of the original |
| OpSpec.OpRoundTrip | compress/lzma/decoder.go:78-172 | readOp returns exactly the operation that writeLiteral or writeMatch wrote, or the end marker, and moves the state machine and the four distances as the writer did |
| OpFacts.NumRecord | compress/lzma/state.go:88-125 | after every valid list of operations the state number is a record of the last ones: 7, 8, 9 or 10, 11, 11 right behind a match, repetition or one-byte repetition, told apart by whether a literal was before; 4, 5, 6 or 5 one literal later, 1, 2, 3 or 2 two later, 0 from three on |
| OpFacts.RepsMoved | compress/lzma/encoder.go:125-199 | every match puts its distance in front of the other remembered ones, in their order, without it or without the last |
| OpFacts.MatchFlags | compress/lzma/encoder.go:125-199 | the flags in front of every kind of match, each with its cell, and where length and distance are coded |
| OpFacts.MatchedLiterals | compress/lzma/encoder.go:99-122 | after every valid list of operations a literal is coded against a match byte if and only if the last operation was a match |
| OpFacts.ContextAfter | compress/lzma/encoder.go:99-122 | and that byte is the one with which the repetition would go on; the byte before is the last of the history |
| OpFacts.FirstFlagShared | compress/lzma/state.go:128-133 | two operations share the cell of their first flag if and only if state numbers and positions modulo 2^pb agree |
| OpFacts.LiteralTableShared | compress/lzma/state.go:136-141 | two contexts share a literal table if and only if positions agree modulo 2^lp and the bytes before in their top lc bits |
| OpFacts.MarkerDistance | compress/lzma/encoder.go:246-258 | all 36 bits of the end marker distance are ones, 26 of them direct |
| OpSpec.StreamRoundTrip | compress/lzma/decoder.go:78-239 | decompressing the stream of any valid operation list, with or without marker and size, reproduces history, state and probability tables and stops at the end |
| OpSpec.SizedStreamIff | compress/lzma/decoder.go:191-239 | a stream of known size ends properly if and only if it holds an operation or a marker |
| OpSpec.EmptySizedStream | compress/lzma/decoder.go:191-239 | the stream of no operation and no marker, read with size 0, never ends properly |
| LzmaDecoder.Decoder.ReadOp | compress/lzma/decoder.go:78-172 | the method over the mutable coder, state and dictionary is the specified readOp, errors included |
| LzmaDecoder.Decoder.Apply | compress/lzma/decoder.go:175-186 | extends history and read-out by the operation, or rejects a distance or a length out of range |
| LzmaDecoder.Decoder.Decompress | compress/lzma/decoder.go:191-239 | the loop is the specified decompression: full, at the end or failed, in the same state |
| LzmaDecoder.Decoder.Read | compress/lzma/decoder.go:249-268 | over any sequence of reads of any length, what has been handed out and what is buffered is the history, and the end is reported exactly at the goal of the stream |
| LzmaDecoder.OpenDecoder | compress/lzma/decoder.go:33-46 | opens the range decoder on any bytes, or fails as it does |
| LzmaDecoder.Decoder.Opened | compress/lzma/decoder.go:33-46 | opened on the bytes of an encoder in the same state, a decoder is on its way to the end of what the encoder wrote |
| LzmaDecoder.Decoder.ReadAll | compress/lzma/decoder.go:249-268 | reading to the end in pieces of any size gives everything written |
| LzmaRoundTrip.RoundTrip | compress/lzma/encoder.go:73-258 | every text, through an encoder and a decoder made for any properties and sizes, with a marker or a known size, and read in pieces of any size, comes out as it was |
| LzmaEncoder.Encoder.WriteOp | compress/lzma/encoder.go:99-199 | writes exactly the bits of the operation and moves state number and distances to its successor |
| LzmaEncoder.Encoder.Compress | compress/lzma/encoder.go:222-237 | keeps the log of operations equal to the input consumed and to every register of the coder, and makes progress or reports the limit |
| LzmaEncoder.Encoder.Write | compress/lzma/encoder.go:73-85 | takes all input, or stops at the limit with what was taken accounted for |
| LzmaEncoder.Encoder.Close | compress/lzma/encoder.go:246-258 | the bytes are the stream of a valid operation list that expands to the input consumed, all of it without a limit, so that OpSpec.StreamRoundTrip applies |
| LzmaEncoder.Encoder.Reopen | compress/lzma/encoder.go:88-96 | starts a fresh stream where the last one stopped |
| LzmaBuffer.Buffer.Write | compress/lzma/buffer.go:113-127 | appends what fits to the contents, whatever the position of front and rear, and pushes out the oldest bytes |
| LzmaBuffer.DecoderDict.WriteMatch | compress/lzma/decoderdict.go:75-109 | the chunked, wrapping, self-overlapping copy appends what the byte-by-byte copy appends; otherwise it reports the first of the three errors and changes nothing |
| LzmaBuffer.DecoderDict.ByteAt | compress/lzma/decoderdict.go:57-66 | the byte written that many bytes ago, 0 out of range |
| LzmaBuffer.EncoderDict.Write | compress/lzma/encoderdict.go:86-97 | takes what does not overwrite the dictionary, and never more |
| LzmaBuffer.EncoderDict.Discard | compress/lzma/encoderdict.go:50-58 | moves the head over bytes of the input and hands exactly these to the match finder |
| LzmaBuffer.EncoderDict.CopyN | compress/lzma/encoderdict.go:117-142 | the last n bytes before the head, or fewer and an error when the ring no longer holds them |
| LzmaBuffer.EncoderDict.MatchLen | compress/lzma/buffer.go:155-167 | the longest repetition at a distance, but not across the end of the ring |
| LzmaBuffer.RepetitionIsCopy | compress/lzma/buffer.go:155-167 | a repetition found in the input, overlapping or not, is what the copy from the dictionary produces |
| RollingHash.CyclicPoly.RollByte | compress/lzma/hash/cyclic_poly.go:33-45 | the rolled value depends on the last n bytes alone: it is the fold of their table words, whatever came before |
| RollingHash.FoldFour | compress/lzma/hash/cyclic_poly.go:33-45 | the hash of four values, the oldest rotated by three |
| HashTables.HashTable.WriteByte | compress/lzma/hashtable.go:135-159 | keeps slots and delta chain equal to the positions of all words in the window |
| HashTables.HashTable.GetMatches | compress/lzma/hashtable.go:176-208 | walking the delta chain gives the newest positions of the slot within the window, newest first, at most as many as fit |
| HashTables.NewestSound | compress/lzma/hashtable.go:176-208 | these positions are strictly falling, within the window and of the slot |
| HashTables.NewestComplete | compress/lzma/hashtable.go:176-208 | and no position of the slot in the window is missing unless the result is full |
| HashTables.HashTable.NextOp | compress/lzma/hashtable.go:235-305 | the operation describes the bytes ahead, within dictionary and length limits, so that writeMatch accepts it; it is a longest repetition at any of the eight short distances and those to the newest positions of the slot, of equal ones the nearest, and a literal if and only if there is none |
| HashTables.BestMatch | compress/lzma/hashtable.go:259-305 | asking one byte before comparing misses nothing: for any rising distances the result is a longest repetition seen within the dictionary and up to the end of the ring |
| BinTree.BinaryTree.WriteByte | compress/lzma/bintree.go:73-91 | after every byte the tree holds exactly the words of the ring window, once each and in order, with links down and up in agreement; the evicted node is gone |
| BinTree.BinaryTree.Add | compress/lzma/bintree.go:103-134 | hangs the node into its place: the nodes are those before and the new one, order and parents kept |
| BinTree.BinaryTree.Remove | compress/lzma/bintree.go:152-206 | takes out one node, whatever children it has: the nodes are those before without it, order and parents kept |
| BinTree.BinaryTree.Search | compress/lzma/bintree.go:212-236 | walking the links finds what the search of the tree as a value finds |
| BinTreeSpec.SearchFinds | compress/lzma/bintree.go:212-236 | for a word in the tree the search returns the topmost node that holds it, twice |
| BinTreeSpec.SearchSplits | compress/lzma/bintree.go:212-236 | for any other word it returns the two neighbours between which the word would stand |
| BinTree.BinaryTree.Pred | compress/lzma/bintree.go:269-287 | the node before in order, or none, for every node of every tree |
| BinTree.BinaryTree.Succ | compress/lzma/bintree.go:290-308 | the node after in order, or none |
| Lzma2Spec.HeaderRoundTrip | compress/lzma/header2.go:141-220 | a chunk header is read back if and only if its sizes fit their fields, and the bytes behind it are untouched |
| ChunkFacts.PropsByte | compress/lzma/properties.go:32-65 | the byte of three properties in numbers, 93 for the usual; pb alone decides the 45s, lc alone the rest modulo 9 |
| ChunkFacts.ControlByte | compress/lzma/header2.go:76-109 | the first byte of a header of every type, in numbers |
| ChunkFacts.SizeBytes | compress/lzma/header2.go:180-220 | sizes less one, highest byte first, the top five bits of the input size in the first byte, and the properties byte last |
| ChunkFacts.AcceptedIff | compress/lzma/header2.go:273-335 | the reader accepts a list of chunks if and only if a dictionary reset comes first, the end last, and no chunk goes on with properties that were not given since the last reset by a stored chunk |
| ChunkFacts.DefaultAccepted | compress/lzma/header2.go:337-352 | the type a writer takes by default is accepted, and so is storing the chunk instead |
| Lzma2Spec.CompressedChunkRead | compress/lzma/reader2.go:75-152 | a compressed chunk moves automaton, history, output and LZMA state of the reader exactly to where the writer stands |
| Lzma2Spec.PlainChunkRead | compress/lzma/reader2.go:75-152 | a stored chunk adds its bytes and leaves the LZMA state alone |
| Lzma2Spec.LongPlainChunkRead | compress/lzma/writer2.go:167-196 | a stored chunk of more than 64 KiB is taken for one of the excess only |
| Lzma2.Writer2.constructor | compress/lzma/writer2.go:95-120 | a new writer agrees with a new reader |
| Lzma2.NewWriter2 | compress/lzma/writer2.go:95-120 | dictionary, hash chain, states and encoder made from any configuration give a valid writer |
| Lzma2.Writer2.Write | compress/lzma/writer2.go:136-163 | takes all input and keeps the agreement with the reader and the bound on a chunk; a failure means an unreadable stream and happens only below 64 KiB of dictionary |
| Lzma2.Writer2.WriteUncompressedChunk | compress/lzma/writer2.go:167-196 | stores the input and rolls the LZMA state back to the start of the chunk, where the reader still is; fails exactly when the ring lost a byte |
| Lzma2.Writer2.WriteCompressedChunk | compress/lzma/writer2.go:200-234 | the chunk leaves the reader with all input encoded so far |
| Lzma2.Writer2.FlushChunk | compress/lzma/writer2.go:248-270 | closes a chunk in the shorter form, the reader accepts its type, and both sides agree at the boundary; every flush makes progress |
| Lzma2.Writer2.Flush | compress/lzma/writer2.go:274-284 | ends with nothing pending and the agreement kept |
| Lzma2.Writer2.Close | compress/lzma/writer2.go:287-301 | reports success always; the stream reads back as everything written if and only if the inner flush did not fail, is unreadable otherwise, and does not fail from 64 KiB of dictionary on |
| Lzma2.LostInput | compress/lzma/writer2.go:287-301 | from a new writer with a dictionary of at most 4096 bytes, for every input of up to 5900 bytes that the ring does not hold and that does not get shorter: Write and Close report success and the stream cannot be read |
| LzmaSize.SomeHard | compress/lzma/writer2.go:237-244 | such an input exists for every length, by counting: no operations whatever give it a shorter stream |
| FseSpread.VisitOnce | compress/zstd/fse_decoder.go:43-45 | the step walk visits every cell of the table at most once, for every table size from 16 on |
| FseFacts.VisitIs | compress/zstd/fse_decoder.go:43-45 | the cell after k steps is k (5/8 size + 3) modulo the size, for every size from 16 on |
| FseSpread.SpreadUnique | compress/zstd/fse_decoder.go:308-345 | there is one spread table for given counts, so encoder and decoder have the same |
| FseSpread.SpreadCounts | compress/zstd/fse_decoder.go:308-345 | a symbol has as many cells as its count says, one for -1, none for 0 |
| FseFacts.CellAt | compress/zstd/fse_decoder.go:308-345 | which symbol every cell of every table has: rare ones from the end down, the others by their turns along the walk |
| FseFacts.EvenTable | compress/zstd/fse_decoder.go:308-345 | all 32 cells for the counts 16 and 16 |
| FseTables.Spread | compress/zstd/fse_encoder.go:135-161 | the loops fill the table as specified, and the walk ends at 0 |
| FseTables.DeltaMeaning | compress/zstd/fse_encoder.go:174-198 | the packed deltaNbBits gives the number of bits to emit for every state, by one addition and one shift |
| FseFacts.RowIs | compress/zstd/fse_decoder.go:347-369 | bits and base of every cell, in numbers, from how many cells its symbol has and how many of them are lower |
| FseFacts.FiveCells | compress/zstd/fse_decoder.go:347-369 | the rows of any symbol with five cells of 128, as in the example of the format description |
| FseCoding.DecodeUndoes | compress/zstd/fse_decoder.go:347-369 | decoding from the state an encoding step moved to gives the symbol, asks for the bits emitted and returns to the state before |
| FseCoding.EncodeUndoes | compress/zstd/fse_encoder.go:98-200 | encoding the symbol of any cell from any state reachable from it emits the bits read and moves back to the cell |
| FseCoder.FseEncoder.BuildCTable | compress/zstd/fse_encoder.go:98-200 | builds tables for the spread if and only if the counts sum to the table size |
| FseCoder.FseEncoder.Encode | compress/zstd/blockenc.go:720-804 | a step on the packed tables emits and moves as specified |
| FseCoder.FseDecoder.BuildDtable | compress/zstd/fse_decoder.go:308-369 | builds the decoding table of the spread, and fails if and only if one symbol has all cells |
| FseCoder.FseDecoder.Transform | compress/zstd/fse_decoder.go:270-286 | replaces symbols by base and extra bits if and only if each has an entry |
| FseCount.WriteCount | compress/zstd/fse_encoder.go:484-594 | writes the header bits of any counts that sum to the table size, including runs of zeros of every length and -1, padded to whole bytes |
| FseCountReader.ReadNCount | compress/zstd/fse_decoder.go:48-180 | the header of any counts with at least two symbols is read back, with table size and length, if and only if there are four bytes to look at and no run of zeros in it hides something in the last byte; whatever is accepted are counts that sum to the table size |
| FseCountReader.WrittenIsHeader | compress/zstd/fse_encoder.go:484-594 | the bytes of WriteCount are such a header wherever they stand, whatever follows or nothing |
| FseCountReader.ByteBehind | compress/zstd/fse_decoder.go:48-180 | a header with a byte behind it hides nothing |
| FseCutHeaders.ReadCut | compress/zstd/fse_decoder.go:48-180 | two complete headers, of two and of six bytes, that are not read when nothing follows; the second is when any byte does |
| FseNormalize.NormalizeCount | compress/zstd/fse_encoder.go:255-326 | always gives counts or run-length mode, the latter exactly for one symbol alone; the counts sum to the table size and are not 0 exactly for the symbols that occur; if the rounded shares take too much by less than half of the largest, all but a largest are these shares |
| FseNormalize.RoundedUp | compress/zstd/fse_encoder.go:255-326 | for 2^15 occurrences in 256 cells, from which part of a cell on every count is rounded up |
| FseNormalize.NormalizeCount2 | compress/zstd/fse_encoder.go:330-422 | the same for the second method; on tables with twice as many cells as symbols, or more cells than occurrences, no weight comes out below 1 |
| FseNormalize.OptimalTableLog | compress/zstd/fse_encoder.go:425-450 | from five occurrences on the smallest table with at most eight occurrences to a cell, and two cells to a symbol or more cells than occurrences; up to four, where the subtraction wraps, the largest |
| SequenceTables.TablesFor | compress/zstd/blockenc.go:581-735 | three tables made from the histograms of the codes of a block: making them never fails, and they can code every one of its sequences |
| BitStream.BitWriter.Flush32 | compress/zstd/bitwriter.go:70-81 | moves 32 bits out without changing the bits added |
| BitStream.BitWriter.Close | compress/zstd/bitwriter.go:84-100 | the bytes are the bits added, an end mark and fewer than eight zeros |
| BitStream.BitReader.Init | compress/zstd/bitreader.go:23-44 | finds the bits before the end mark, and fails if and only if the last byte is missing or 0 |
| BitStream.BitReader.GetBits | compress/zstd/bitreader.go:47-61 | takes bits off the end of what was written, and notices for ever when there were too few |
| BitStream.BitReader.Fill | compress/zstd/bitreader.go:82-98 | refills the container without changing the bits still to come |
| SequenceCodes.LlBases | compress/zstd/fse_predefined.go:67-150 | for every literal length code and extra bits give back the length |
| SequenceCodes.MlBases | compress/zstd/fse_predefined.go:67-150 | the same for match lengths |
| SequenceCodes.OfBases | compress/zstd/fse_predefined.go:67-150 | the same for offsets |
| SequenceFacts.LlRange | compress/zstd/seqenc.go:44-72 | a literal length has a code if and only if it is in the range of the code in the table of the format |
| SequenceFacts.MlRange | compress/zstd/seqenc.go:74-103 | the same for match lengths |
| SequenceFacts.OfRange | compress/zstd/seqenc.go:105-108 | an offset value has as its code the position of its highest bit |
| SequenceDecoder.OffsetUndone | compress/zstd/seqdec.go:459-496 | for every offset, literal length and history of offsets the decoder undoes the repeat codes of the encoder and keeps the same history |
| SequenceFacts.BlockOffsets | compress/zstd/seqdec.go:459-496 | in every block decoded, each distance is what its offset value names in the list of recent distances, which it then heads, the others in their order without it: the first, second or third behind literals, without literals the second, third, or one less than the first, and 1 in place of 0 |
| SequenceFacts.OffsetExample | compress/zstd/seqdec.go:459-496 | nine lists of recent distances in a row, those of the table in the format description |
| SequenceDecoder.BlockStaysPositive | compress/zstd/seqdec.go:459-496 | from positive offsets no sequence of a block, repeat codes included, makes one that is not |
| SequenceSpec.SequencesRoundTrip | compress/zstd/blockenc.go:720-804 | the bits of any list of sequences, written backwards with three interleaved states, are read forwards as the same values, all bits used |
| SequenceFacts.StatesLaid | compress/zstd/seqdec.go:76-95 | from the last bit on: the first states of literal lengths, offsets, match lengths |
| SequenceFacts.ValueLaid | compress/zstd/seqdec.go:440-457 | then the extra bits of offset, match length, literal length |
| SequenceFacts.TransitionLaid | compress/zstd/seqdec.go:617-637 | then the bits for the next states of literal lengths, match lengths, offsets |
| SequenceCoder.SeqCoders.EncodeSequences | compress/zstd/blockenc.go:720-804 | the loop writes exactly these bits; the 64-bit container never overflows |
| SequenceDecoder.SequenceDecs.Decode | compress/zstd/seqdec.go:506-648 | the loop is the specified decoding of any bits whatever, with every check on sizes and lengths, and fails where it fails |
| SequenceBlock.BlockRoundTrip | compress/zstd/seqdec.go:506-648 | literal lengths, offsets and match lengths of a block come back with the same repeat history, exactly when its size is within the limit |
| SequenceExec.ExecuteAll | compress/zstd/seqdec.go:115-214 | the copies from dictionary, history and output are the byte-by-byte execution, and fail if and only if an offset reaches too far |
| SequenceExec.ExecuteSimple | compress/zstd/seqdec.go:651-726 | the same for the variant without dictionary |
| SequenceSync.DecodeSync | compress/zstd/seqdec.go:217-430 | decoding and executing in one loop gives what decoding first and executing then gives, on any input, or fails when either does |
| SequenceSync.PartIsAll | compress/zstd/seqdec.go:217-430 | sequences executed one by one and the remaining literals are the execution of all |
| SequenceSync.DecodeThenExecute | compress/zstd/blockdec.go:655-690 | decoding all sequences and executing them into a buffer of the size counted gives the same block, or fails when that does: the two ways through the decoder agree on any input |
| FastMatch.MatchLen | compress/zstd/matchlen.go:10-31 | the word-wise comparison finds the length of the longest common prefix |
| FastMatch.SaysAll | compress/zstd/enc_fast.go:35-285 | sequences that describe a block up to some position, and the literals behind it, execute to the block |
| FastEncoder.FastEncoder.Encode | compress/zstd/enc_fast.go:35-285 | from every ready state, executing the sequences and literals against the same history gives the block, for whatever offsets the decoder had; the next state is ready; positions stay within 32 bits |
| FastEncoder.FastEncoder.Protect | compress/zstd/enc_fast.go:41-63 | shifts the table down before positions overflow and leaves every usable entry usable |
| FastEncoder.FastEncoder.AddBlock | compress/zstd/enc_base.go:57-79 | slides the history to its last window when there is no room, and keeps every entry true |
| FastEncoder.FastEncoder.ResetPrefix | compress/zstd/enc_fast.go:796-807 | the full new table and count, whether past the reset mark or not; before the mark the state is valid |
| FastEncoder.FastEncoder.Reset | compress/zstd/enc_base.go:160-199 | afterwards the history is empty and the state ready for the next block, whether past the mark or not |
| FastEncoder.PrefixGuard | compress/zstd/enc_base.go:134-157 | the table is good after a reset with prefix, for every valid table and every prefix, if and only if the count was before the reset mark |
| FastStale.StaleRun | compress/zstd/enc_base.go:134-157 | two prefixes in a row at the largest window and one block of ten zeros: a block is emitted whose sequences do not execute to the zeros |
| FastRoundTrip.FastBlock | compress/zstd/blockenc.go:477-823 | every block through the fast encoder, its own tables and the decoder, in front of more history, is the block again |
| FastRoundTrip.FastBlockRoundTrip | compress/zstd/seqdec.go:217-430 | encoded sequences that execute to a block are accepted by every check of the decoder and give the block |
| HuffSort.Sort | compress/zstd/huff0/compress.go:570-607 | a permutation of the symbols: counts fall, and equal ones keep the order of their symbols |
| HuffTree.KraftExact | compress/zstd/huff0/compress.go:491-528 | the leaf depths of every two-queue tree have Kraft sum exactly 1 |
| HuffBuild.BuildTree | compress/zstd/huff0/compress.go:483-528 | the loops build a tree whose depths rise along falling counts, have Kraft sum 1, and need no more bits for these counts than any lengths with a Kraft sum of at most 1 |
| HuffBuild.Pick | compress/zstd/huff0/compress.go:497-515 | what is taken from the two queues is the smaller front, of equal ones the inner node |
| HuffOptimal.GreedyLeast | compress/zstd/huff0/compress.go:483-521 | the theorem of Huffman: lengths of any prefix code need at least as many bits as all sums together that come about when the two smallest weights are joined over and over |
| HuffForest.GrownCost | compress/zstd/huff0/compress.go:483-528 | the tree from two rising queues needs exactly that many |
| HuffRepay.ClippedBalance | compress/zstd/huff0/compress.go:622-637 | after cutting to the limit the debt is a whole positive number of the shortest shares and can be paid |
| HuffLimit.SetMaxHeight | compress/zstd/huff0/compress.go:609-718 | for every tree of at most 2^limit leaves, lengths are at most the limit, still rising, with Kraft sum exactly 1; a tree within the limit is not touched |
| HuffLimit.Choose | compress/zstd/huff0/compress.go:661-683 | the length taken for paying: from the debt down the first whose last symbol is not more than twice as frequent as the last of the next, or the nearest that is there |
| HuffTableBuild.BuildCTable | compress/zstd/huff0/compress.go:457-567 | for every histogram of at least two symbols: a symbol has a code if and only if it occurs, the lengths are complete and limited, the codes canonical; and no possible lengths need fewer bits, unless a length of the tree is above the limit |
| HuffLeast.PrefixCodePossible | compress/zstd/huff0/compress.go:536-564 | the Kraft inequality for every prefix code, canonical or not |
| HuffLeast.ShortestStream | compress/zstd/huff0/compress.go:233-265 | with the lengths of the tree no prefix code whatever makes the stream of a block shorter |
| HuffTableBuild.OptimalTableLog | compress/zstd/huff0/compress.go:428-455 | from three bytes on the smallest limit that is at least what was asked for or leaves at most four bytes to a code, with two codes to a symbol or more codes than bytes |
| HuffCodes.PrefixFree | compress/zstd/huff0/compress.go:536-564 | no canonical code is the beginning of another |
| HuffFacts.CodesInOrder | compress/zstd/huff0/compress.go:536-564 | one code comes before another if and only if it is longer, or as long and of a lower symbol |
| HuffFacts.CodeExample | compress/zstd/huff0/compress.go:536-564 | all codes for the lengths 1, 2, 3, 0, 4, 4 |
| HuffFacts.WeightExample | compress/zstd/huff0/decompress.go:73-169 | their weights, and the weight that completes them |
| HuffTables.AssignCodes | compress/zstd/huff0/compress.go:536-564 | the counting over ranks gives the canonical codes |
| HuffTables.ReadTable | compress/zstd/huff0/decompress.go:73-169 | whatever it accepts is a complete assignment with every entry of the table filled as its code says; it accepts the weights of every encoder assignment as just that |
| HuffStream.TablesInvert | compress/zstd/huff0/decompress.go:73-169 | in such a table the entry at any bits that begin with a code shows symbol and length of the code |
| HuffStream.Compress1X | compress/zstd/huff0/compress.go:233-265 | the codes of all bytes, written backwards, and an end mark |
| HuffFacts.StreamOfTwo | compress/zstd/huff0/compress.go:233-265 | the bits of a text are those of its second part, then those of its first |
| HuffStream.Decompress1X | compress/zstd/huff0/decompress_generic.go:198-295 | reads back every stream of such codes, and never returns more than asked for |
| HuffRoundTrip.CountSimple | compress/zstd/huff0/compress.go:351-385 | the histogram of the bytes, up to the last that occurs, and its maximum |
| HuffRoundTrip.RoundTrip | compress/zstd/huff0/compress.go:43-163 | counting, building, sending and reading the table, coding and decoding give the bytes back, and a table is used if and only if the guards on length and counts say so |
| Jobs.StepInv | compress/zstd/enc_jobs.go:44-348 | every step of caller, workers and flusher keeps the invariant of channels, workers, output and input |
| Jobs.WrittenInOrder | compress/zstd/enc_jobs.go:176-220 | in every reachable state the bytes written are the outputs of the jobs flushed, in dispatch order, and at most a part of the first that failed |
| Jobs.WaitEndsFlushed | compress/zstd/enc_jobs.go:235-245 | waiting returns only when everything dispatched is written or a job failed |
| Jobs.ShutDownWritten | compress/zstd/enc_jobs.go:222-232 | after shutdown the bytes are those of all jobs up to the first failure, an error is set if and only if there is one, and the jobs partition the input, each with the end of the one before as prefix |
| Jobs.PrefixIsEnd | compress/zstd/enc_jobs.go:247-348 | after every run, the prefix of a job is the end of the input before it, as long as the overlap or all of it, and empty for the first of a stream |
| Jobs.NeverStuck | compress/zstd/enc_jobs.go:44-348 | no reachable state inside a call is without an enabled step, however small the channels |
| Jobs.CallsReturn | compress/zstd/enc_jobs.go:235-348 | every call returns after a bounded number of steps, however they interleave |
| Redirects.FindLoop | archive/zim/integrity.go:120-160 | terminates for every graph of redirects; reports a loop if and only if following them never ends, and then exactly the cycle reached |
| Redirects.CheckRedirectLoops | archive/zim/integrity.go:120-160 | reports exactly the entries with that property, each with its cycle, in order |

## Left out

Stated weaker than one might expect:

- Lzma2.Writer2.Close: what it says about reading holds when the result `sized` is true, that is, when each compressed chunk fitted 64 KiB and each stored one too. That 16 bytes suffice for every operation (`compress/lzma/encoder.go:8-10`) is not proved: 22 adaptive bits of the least likely kind and 26 direct bits come to almost 20 bytes. The size of the input of a chunk is proved to fit. Nor is it settled whether a stored chunk can have 65537 or 65538 bytes, which the guard in `writeChunk` lets through after a last operation of at least 15 bytes, and of which a reader takes only what exceeds 64 KiB (`Lzma2Spec.LongPlainChunkRead`).
- Lzma2.Writer2.Write: the same condition; input up to 5900 bytes within a dictionary of 4096 meets it.
- Lzma2.Writer2.Flush: the same condition.
- Lzma2.Writer2.FlushChunk: the same condition.
- LzmaEncoder.Encoder.Write: the byte writer below does not stop an operation in its middle; the limit is looked at between operations, as `writeOp` does.
- SequenceTables.TablesFor: always takes the new tables; choosing a predefined or an earlier one by estimated size is not modelled.
- FastEncoder.FastEncoder.Encode: says that the sequences describe the block, not which of several matches is taken or how far the search skips. From a state that is not ready, `astray` is the outcome for a table entry at or behind the position, where the assertions of the code would stop; without them the comparison is not modelled. In a ready state it does not occur. Reset after exactly 2^30 bytes of history at a window of 512 MiB would take the count to 2^31, where 32 bits overflow; the model's count does not overflow.
- FseNormalize.NormalizeCount2: the counts are proved to be usable; which ones they are, of those that sum to the table size, is not stated.
- HuffLimit.SetMaxHeight: cutting to the limit is a heuristic, and nothing is claimed about how many bits more its lengths need than the best ones within the limit.
- HuffRoundTrip.CountSimple: whether an earlier table could be used again, its second result in the code, is left out.
- HuffRoundTrip.RoundTrip: the weights are handed over as a list; their packing in nibbles or by FSE, which fails for more than 128 symbols when FSE does not help, the reuse of an earlier table, and the final check that the output is smaller than the input are not modelled.
- HuffStream.Decompress1X: uses the shifted reader for every table; tables of at most 8 bits go to a byte reader in the code (`compress/zstd/huff0/decompress_generic.go:202`), which is not modelled.
- Jobs.ShutDownWritten: the writer is a parameter, by how many bytes of a job it takes and whether it returns an error all the same (`accepts`, `complains`); so is the compression of a job. Buffer pools, the header and the shortcut for a single block are not modelled.

Not modelled:

- Reading and writing files, checksums, frame, block and xz headers, and everything else outside the two packages and the redirect check.
- `BinaryTree.NextOp` and `match`: the tree operations are modelled, not the choice of matches from them.
- LZMA2 reader objects: chunk start and the rules for resets are functions of the input and the state between chunks; the decoder object within a chunk is modelled.
- The byte table of the rolling hash: any table of 64-bit words. The slot of a hash value is its remainder, which is what masking by a power of two gives.
- `nlz32` by de Bruijn multiplication: the number of bits of a word is a recursive function.
- `setBits` and `outBits` of the FSE encoder: the number of extra bits is looked up by code when it is needed.
- `EncodeNoHist`, the encoders with dictionaries and the other match finders of zstd, which are variants of the modelled loops.
- Growing of output slices: the buffer for the header of counts is as long as needed.
- Four interleaved Huffman streams.
- The `close` methods of the bit readers look only at the 64-bit container and not at input they have not loaded; the model keeps that. After the last refill there is no such input.
