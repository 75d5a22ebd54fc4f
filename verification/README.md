# LZ4 and zstd entropy stages, modelled and proved

Models, in Dafny, of the block codec behind the `lz4-upgrade` kernel module and of the entropy stages of the zstd
library behind `zstd-upgrade`, with proofs of what they promise:

- **LZ4** (`Lz4*.dfy`). The format as a grammar; the greedy parse as a function of input, hash function and table
  (`Lz4Greedy.dfy`), and the compressor with its hash table that lives across calls, for any hash function, under its
  three output disciplines, which makes exactly that parse; the bounds-checked decoder with its shortcut, wide
  copies and overlap tables; the simple decoder; and the driver. What the compressor makes conforms to the format,
  what conforms decodes to its data, and the decoder equals byte-by-byte decoding on every input.
- **Bit streams** (`BitStream.dfy`, `BitRoundTrip.dfy`). Written forwards through a 64-bit register, read backwards:
  a stack of fields.
- **Finite state entropy** (`Fse*.dfy`). Normalising a histogram, the shares that gives (`FseShares.dfy`) and how close
  to the proportion they are (`FseProportion.dfy`); the header of a distribution, the spreading of the
  symbols over the table, both tables, and the two interleaved encoders and decoders.
- **Huffman** (`Huf*.dfy`). Sorting the symbols, the tree and its optimality, the limiting of its height, canonical
  codes, the weights a table is sent as, and the encoder with its two registers full of noise.
- **XXH64** (`Xxh64.dfy`). At once and in pieces.

What no property fixes is fixed by values: `Xxh64Values.dfy` has hashes, `FseDefaultTable.dfy` a whole decoding table,
and `FseHeaderValues.dfy` the header of a distribution.

Objects that the C code updates in place are classes (`Lz4Context.Stream`, `Lz4Driver.Transform`, `BitStream.CStream`,
`BitStream.DStream`, `HufStream.HufCStream`, `Xxh64.State`), buffers are arrays, loops are loops; each is proved
against a function or predicate that says what it is for. An output buffer is an array whose length is its capacity,
so that every proof covers the bounds of the C code; for the streams and headers of finite state entropy the array is
the memory from the start of the buffer on, so that what is stored behind the buffer can be told.

`dafny verify dfyconfig.toml` verifies the project.

## Findings

Where the code and what it or its documentation says differ, and exactly when they agree; and what it leaves open:

- **Unchecked output of finite state entropy.** `FSE_compress_usingCTable` is documented to return 0 if the data does
  not fit (zstd-upgrade/lib/zstd/common/fse.h:126-130), but it leaves out the checks if the buffer has the size of the
  block bound (zstd-upgrade/lib/zstd/compress/fse_compress.c:615-618), which presumes at most 8 bits a symbol. With
  counts 511 and 1, a table of 9 bits, 128 times the rare symbol and 141 bytes, words are stored behind the buffer
  (`FseEncoder.LargeTablesNeedNotFit`). Every store is inside the buffer if and only if the output is checked or the
  bits of the symbols fit (`FseEncoder.Compress`), and for all sources if and only if the table has at most 8 bits
  (`FseEncoder.FitsExactly`).
- **Unchecked header of a distribution.** `FSE_writeNCount` leaves out the checks if the buffer has the size of
  `FSE_NCountWriteBound` (zstd-upgrade/lib/zstd/compress/fse_compress.c:224-232 and 331-341). That bound is right for
  the size of the header, but not for its last store, which always writes two bytes: with the counts 0, 1, 0, 1, 0, 1,
  0, 1, 0, 1, 0, 2, 0, 4, 0, 8, 0, 237, a table of 8 bits and 21 bytes, it ends one byte behind the buffer
  (`FseHeaderBound.EighteenSymbols`). Every store is inside the buffer if and only if they are checked or
  2 * ((bits - 1) / 16) + 2 is at most the capacity (`FseHeaderWriter.WriteNCount`); always with one byte more than the
  bound (`FseHeaderBound.OneMoreFits`), always for at most 17 symbols (`FseHeaderBound.FewSymbolsFit`), which covers
  the weights of Huffman tables, and at the bound for all distributions if and only if the table has 5 bits
  (`FseHeaderBound.FitsExactly`).
- **The second method of normalising never fails.** Its error for a symbol without a state
  (zstd-upgrade/lib/zstd/compress/fse_compress.c:457-458) is unreachable (`FseNormalize.SecondMethod`).
- **Two conditions on Huffman tables are not checked by the writer.** A table that is larger than its longest word, or
  whose last symbol has no word, is written and then refused or read as another one
  (`HufTableRoundTrip.RoundTrip`, an equivalence).
- **Room for a Huffman table.** The table is written with four bits for each weight if it does not get smaller by
  packing, but a buffer that is large enough for that may still be refused, because the attempt to pack fails with an
  error if the header of the weights' distribution does not fit
  (zstd-upgrade/lib/zstd/compress/huf_compress.c:172-173 and 273): word lengths 3, 3, 2 and 1 take three bytes, and are
  refused three bytes (`HufTableRoundTrip.ThreeBytesRefused`). It is written if and only if that header fits or packing
  is not tried, and always into 14 bytes (`HufTableRoundTrip.WhenWritten`).
- **The table for at most four weights has 6 bits,** not fewer, because the size that the source calls for wraps around
  below zero (zstd-upgrade/lib/zstd/compress/fse_compress.c:360); all others have 5 (`HufTableWriter.FiveBits`). So few
  weights are never worth packing, and the work space for unpacking, which the greatest weight does not fit with 6 bits,
  is always enough for what is written (`HufTableWriter.WriteCTable`).
- **The height limit works for the reason its comment leaves open.** That there are always enough words of full length
  to take an overshoot back from is `HufMaxHeight.EnoughLeft`; that its 32-bit costs do not overflow needs a bound on
  the counts, which `HufHistogram.BuildCTable` gives as 5,702,887 symbols, far above a block of 128 KB.
- **Filling a buffer with LZ4** is documented to fill it completely (lz4-upgrade/lib/lz4.h:248-259) unless all input
  fits, but it leaves one byte unused if and only if the room for the last literals, after their token, is 15 modulo
  256: the next literal would need one more length byte (`Lz4Compressor.FilledRun`,
  `Lz4Compressor.FifteenNotFilled`, `Lz4Api.CompressDestSize`).
- **An empty LZ4 block into an empty buffer** is only accepted if it is the byte 0, and not for instance if its token
  announces a match length (`Lz4DecoderProofs.TrustedDecode`).
- **The shortcut of the LZ4 decoder is lenient.** It does not check the rules for the end of a block, so that whether
  a block that breaks them is accepted may depend on the room. Exactly: a block that decodes to n bytes in some room is
  decoded alike in every larger room, and in every room of at least n + 14 bytes (`Lz4DecoderProofs.VerdictByRoom`);
  and in every room of at least n bytes if and only if it is in the room of n (`Lz4DecoderProofs.RoomDoesNotMatter`).
  The 14 cannot be less (`Lz4DecoderProofs.VerdictDependsOnRoom`). Conforming
  blocks are not affected (`Lz4RoundTrip.DecodeInvertsEncode`), and what is accepted has its meaning by the grammar
  (`Lz4DecoderProofs.SafeDecodeSound`).
- **Buckets.** The comment above the Huffman sort puts the last bucket of a single count at 166
  (zstd-upgrade/lib/zstd/compress/huf_compress.c:518-523); the code computes 165, which the model follows.

## Model

| member | source | states |
|---|---|---|
| Lz4Driver.Run | lz4-upgrade/src/lz4-upgrade-driver.c:26-78 | Any sequence of compressions over one transform, refused ones among them: every block handed out is a conforming block of the data of its own request, fits the room offered, and decodes to that data into any buffer that can hold it; a request of at most the maximal size with room for the compression bound is never refused, and no other is unless the sequences found in it are too long for the room. What earlier requests leave in the hash table never makes a block wrong. |
| Lz4Driver.Transform.Compress | lz4-upgrade/src/lz4-upgrade-driver.c:59-78 | One compression on a reused context: the block is exactly that of the greedy parse of the source, with the table the context has for it, and the size error is returned exactly if a length does not fit an int, the other one exactly if that block does not fit; a source of 13 or more equal bytes takes at most 14 + n / 255 bytes, and is never refused such room; the context is again fit for the next call. |
| Lz4Driver.Transform.Decompress | lz4-upgrade/src/lz4-upgrade-driver.c:80-96 | Decompression returns what byte-by-byte decoding of the whole block returns, or an error exactly for a length that does not fit an int or a malformed block. |
| Lz4Api.CompressGeneric | lz4-upgrade/lib/lz4.c:1344-1379 | Under each of the three output disciplines, from any table whose old indices cannot be mistaken: the block is exactly that of the greedy parse, and conforming; 0 stands exactly for a block that does not fit limited output, or for an empty buffer to fill; filled output takes as many last literals as fit; without a limit no byte at or behind the compression bound is touched; inputs above the maximal size give 0. |
| Lz4Api.CompressFastReset | lz4-upgrade/lib/lz4.c:1414-1450 | Compression that keeps the context of the previous call: for every input, buffer, acceleration and hash function the block is that of the greedy parse with the table as the call finds or clears it; the bound suffices, 0 is returned exactly if that block does not fit; equal bytes are compressed; no byte at or behind the bound is touched, and the context stays valid whether or not the call succeeded. |
| Lz4Api.CompressFastExtState | lz4-upgrade/lib/lz4.c:1382-1403 | The same with a context in any state, which is initialised first: an empty table. At least 13 equal bytes take at most 14 + n / 255 bytes with any hash function, and are never refused such room. |
| Lz4Api.CompressDestSize | lz4-upgrade/lib/lz4.c:1481-1495 | Compression to fill a buffer: succeeds exactly for a non-empty buffer and an input of at most the maximal size; the block is exactly that of the greedy parse that stops or shortens its last match where the room calls for it, with as many last literals as fit; either everything is consumed or the buffer is full, but for one byte exactly where the room for the last literals is 15 modulo 256; equal bytes are all consumed if 14 + n / 255 bytes are there; the context is as new on exit. |
| Lz4Api.InitStream | lz4-upgrade/lib/lz4.c:1552-1560 | The context is all zero, and valid. |
| Lz4Context.Stream.PrepareTable | lz4-upgrade/lib/lz4.c:884-922 | Whatever the previous call left: exactly when the table is cleared and what the entries and the start of the next block then are; no stored index can be taken for a position of the next block, all indices will fit their table, and 32-bit indices of earlier blocks are too far back to be used. |
| Lz4Context.Stream.GetIndex | lz4-upgrade/lib/lz4.c:853-867 | An entry of the table as seen with its index width. |
| Lz4Context.Stream.PutIndex | lz4-upgrade/lib/lz4.c:820-830 | Exactly one entry changes, also where two 16-bit entries share a word. |
| Lz4Context.Stream.ClearHash | lz4-upgrade/lib/lz4.c:808-818 | Exactly one entry becomes 0. |
| Lz4Matcher.NbCommonBytes | lz4-upgrade/lib/lz4.c:579-675 | The number of equal leading bytes of two different words, from the trailing zeros of their exclusive or: those are equal and the next is not. |
| Lz4Words.CommonBytes | lz4-upgrade/lib/lz4.c:579-675 | For words of any size: the lowest bit that differs, divided by 8, is the number of equal bytes before the first that differ. |
| Lz4Matcher.Count | lz4-upgrade/lib/lz4.c:680-703 | The exact length of the common run up to a limit, found by words, then by four, two and one bytes. |
| Lz4Matcher.Candidate | lz4-upgrade/lib/lz4.c:1088-1099 | For any hash function: an index from the table is taken for a match if and only if it is one of this block, at most 65535 back, and each of its four bytes is equal. |
| Lz4Matcher.FindMatch | lz4-upgrade/lib/lz4.c:1040-1102 | The search finds exactly the first probe, in steps that grow by one after every 64 probes or sooner with acceleration, whose entry is good, and nothing only if no probe before the limit has such an entry; every position probed is recorded. |
| Lz4Matcher.CatchUp | lz4-upgrade/lib/lz4.c:1104-1109 | A match is extended backwards exactly as far as it goes, not beyond the pending literals or the start of the input. |
| Lz4Compressor.BeginSequence | lz4-upgrade/lib/lz4.c:1112-1134 | Token and literals are written as the format says; limited output is refused only if no sequence with these literals, whatever the match, could be written and the block still be ended, and exactly then if the estimate of the length bytes is exact; filled output stops exactly if an offset, a token and eight literals do not fit. |
| Lz4Compressor.ClearFilled | lz4-upgrade/lib/lz4.c:1195-1207 | After a match was shortened, the entries of the positions it was taken back behind are cleared, and no slot holds one of them. |
| Lz4Compressor.FitMatch | lz4-upgrade/lib/lz4.c:1187-1212 | Limited output is refused exactly if the length bytes of the match and the end of the block do not fit; filled output gets a match that is shortened to fit exactly, never to less than 15 above the minimum. |
| Lz4Compressor.EncodeMatch | lz4-upgrade/lib/lz4.c:1155-1226 | Offset, token and length bytes complete the pending sequence exactly; if limited output is refused, the whole sequence, a token and the last literals are longer than the room there is. |
| Lz4Compressor.CompleteSequence | lz4-upgrade/lib/lz4.c:1138-1230 | What is written stays the encoding of a list of sequences that expands to exactly the input consumed; the match is as long as it can be, or for filled output shortened to exactly the room there is; the room for the end of the block stays reserved, and no table entry lies ahead; a refusal means that this list with the least that must follow is too long. |
| Lz4Compressor.EncodeMatches | lz4-upgrade/lib/lz4.c:1138-1296 | The same after any run of matches with no literals between them: the compressor stays on the way to the greedy parse. |
| Lz4Compressor.FilledRun | lz4-upgrade/lib/lz4.c:1304-1316 | How many last literals fit a buffer to be filled: one more would not fit, counting its length bytes; they fill it if and only if the room is not 15 modulo 256. |
| Lz4Compressor.FifteenNotFilled | lz4-upgrade/lib/lz4.c:1304-1316 | Room for 15 bytes takes 14 literals, since 15 would need 16 bytes. |
| Lz4Compressor.LastLiterals | lz4-upgrade/lib/lz4.c:1302-1338 | The block is closed as a conforming block, every restriction on its end met; limited output is refused exactly if the last run does not fit; for filled output everything is consumed, or no longer run would fit and the block is full, but for one byte exactly where the room is 15 modulo 256. |
| Lz4Compressor.CompressValidated | lz4-upgrade/lib/lz4.c:930-1338 | The whole block under each output discipline: exactly the encoding of the greedy parse of the input, a conforming block of what is consumed; 0 if and only if the output is limited and that block does not fit, or there is no room at all; no byte behind the room, which without a limit is the compression bound, is touched; the table left behind holds only indices below the start of the next block. |
| Lz4EqualBytes.EqualParse | lz4-upgrade/lib/lz4.c:1040-1102 | With any hash function and any table, equal bytes are found equal at the second position: the parse is one literal, one match with offset 1, and five last literals. |
| Lz4EqualBytes.EqualBytesFit | lz4-upgrade/lib/lz4.c:930-1338 | So n >= 13 equal bytes take at most 14 + n / 255 bytes, are all consumed, and are never refused such room. |
| Lz4Emitter.WriteLiterals | lz4-upgrade/lib/lz4.c:1123-1134 | Writes token, length bytes and literals of a sequence by wide copies; what is kept is exactly the encoding. |
| Lz4Emitter.WriteMatchLength | lz4-upgrade/lib/lz4.c:1213-1223 | Length bytes written four at a time: exactly those of the format, whatever scratch follows them. |
| Lz4Decoder.ReadVariableLength | lz4-upgrade/lib/lz4.c:1979-2014 | The loop reads the length that the format defines, or fails at the same place. |
| Lz4Decoder.CopyWholeMatch | lz4-upgrade/lib/lz4.c:2406-2434 | Wide and overlapping copies, with the offset tables for offsets below 8, give the same bytes as copying one by one, for every offset, and never write at or behind the end; refused exactly for a match that ends within the last five bytes. |
| Lz4Decoder.CopyPartialMatch | lz4-upgrade/lib/lz4.c:2392-2404 | The last match of a partial decode writes exactly the bytes that are left, overlapping or not. |
| Lz4Decoder.DecodeShortcut | lz4-upgrade/lib/lz4.c:2221-2261 | The two-stage shortcut equals byte-by-byte decoding of its sequence. |
| Lz4Decoder.DecompressGeneric | lz4-upgrade/lib/lz4.c:2023-2445 | For every input, buffer, capacity and mode: never reads outside the block or writes outside the capacity, and returns exactly the result and the bytes of byte-by-byte decoding. |
| Lz4Decoder.DecompressSafe | lz4-upgrade/lib/lz4.c:2451-2456 | The same for whole blocks. |
| Lz4Decoder.DecompressSafePartial | lz4-upgrade/lib/lz4.c:2459-2465 | The same up to a target: nothing is written at or behind either the target or the capacity. |
| Lz4DecoderProofs.SafeDecodeSound | lz4-upgrade/lib/lz4.c:2023-2445 | Whatever block the decoder accepts, its output is the one meaning the grammar gives to that block. |
| Lz4DecoderProofs.TrustedDecode | lz4-upgrade/lib/lz4.c:1870-2445 | A block that the simple decoder accepts at its exact size decodes to the same bytes into any buffer large enough, and partially to their beginning; the one exception is stated as an equivalence: an empty block other than the byte 0, into an empty buffer. |
| Lz4DecoderProofs.VerdictByRoom | lz4-upgrade/lib/lz4.c:2023-2445 | A block decoded in some room is decoded alike in every larger one, and in every one that takes 14 bytes more than the data: all rooms from there on agree. |
| Lz4DecoderProofs.RoomDoesNotMatter | lz4-upgrade/lib/lz4.c:2230-2261 | A block that decodes to n > 0 bytes in some room is decoded alike in every room of at least n bytes if and only if it is in the room of exactly n. |
| Lz4DecoderProofs.VerdictDependsOnRoom | lz4-upgrade/lib/lz4.c:2230-2261 | The 14 bytes are needed: a block against the rules for the end of a block is accepted with room for 32 bytes and refused with room for 31, though it decodes to 18. |
| Lz4SimpleDecoder.ReadLongLength | lz4-upgrade/lib/lz4.c:1852-1858 | The unchecked loop reads the length that the format defines. |
| Lz4SimpleDecoder.DecompressUnsafe | lz4-upgrade/lib/lz4.c:1870-1966 | The decoder that knows the decoded size returns what its specification says: the size of the block and its bytes, or an error. |
| Lz4SimpleDecoder.DecodersAgree | lz4-upgrade/lib/lz4.c:1860-1966 | The two decoders of the library agree: on a block the simple one accepts at its exact size, the bounds-checked one produces the same bytes. |
| Lz4RoundTrip.ConformingIsTrusted | lz4-upgrade/lib/lz4.c:1870-1966 | Every conforming block is accepted by the simple decoder, consumed to its last byte. |
| Lz4RoundTrip.DecodeInvertsEncode | lz4-upgrade/lib/lz4.h:193-208 | Decoding inverts encoding: a conforming block decodes to exactly its data into every buffer that can hold it. |
| Lz4RoundTrip.DecodeTooSmall | lz4-upgrade/lib/lz4.h:193-208 | Into a buffer that is too small it never decodes to anything: an error is reported. |
| Lz4RoundTrip.PartialDecodesPrefix | lz4-upgrade/lib/lz4.h:274-308 | A partial decode gives exactly the first bytes of the data, for any target, above its size as well. |
| BitStream.CStream.constructor | zstd-upgrade/lib/zstd/common/bitstream.h:144-154 | A stream with nothing in it; words are stored up to eight bytes before the end of the buffer. |
| BitStream.CStream.AddBits | zstd-upgrade/lib/zstd/common/bitstream.h:165-173 | Appends exactly the low bits of the value. |
| BitStream.CStream.FlushBits | zstd-upgrade/lib/zstd/common/bitstream.h:206-216 | Whole bytes move to memory, no bit is changed; the position never passes the last word, and what was lost that way is known; nothing is stored behind the buffer. |
| BitStream.CStream.FlushBitsFast | zstd-upgrade/lib/zstd/common/bitstream.h:190-199 | The same without holding the position back; nothing is stored behind eight bytes from the old position. |
| BitStream.CStream.Close | zstd-upgrade/lib/zstd/common/bitstream.h:221-227 | The size is 0 exactly if the fields may not have fit; otherwise the bytes are the fields with the end mark on top. |
| BitStream.DStream.Init | zstd-upgrade/lib/zstd/common/bitstream.h:239-285 | Fails exactly for an empty buffer or a last byte of 0; otherwise as many bits are left as there are below the end mark, for short and long buffers alike. |
| BitStream.DStream.ReadBits | zstd-upgrade/lib/zstd/common/bitstream.h:347-352 | The field just below what was taken before, as long as the register holds it. |
| BitStream.DStream.ReadBitsFast | zstd-upgrade/lib/zstd/common/bitstream.h:356-362 | The same by two shifts, for at least one bit. |
| BitStream.DStream.Reload | zstd-upgrade/lib/zstd/common/bitstream.h:397-429 | What is left to read does not change; the register then holds at least 57 bits of it or all; each of the four answers is characterised, overflow and completion exactly. |
| BitRoundTrip.RoundTrip | zstd-upgrade/lib/zstd/common/bitstream.h:46-49 | Any list of fields written with any flushes, then read with any refills, as long as no read asks for more bits than the register exactly holds: every read gives the last field not yet read, the end is reported exactly when no bits are left, and the size is 0 exactly if the fields may not have fit. |
| BitRoundTrip.LastInFirstOut | zstd-upgrade/lib/zstd/common/bitstream.h:46-49 | Reading all fields gives all values, in exactly the opposite order. |
| FseNorm.EveryCellOnce | zstd-upgrade/lib/zstd/common/fse.h:624 | The step of the table walk reaches every cell exactly once before it comes back, for every table size. |
| FseNorm.NextPosition | zstd-upgrade/lib/zstd/common/fse.h:624 | The walk goes from cell p to p + 5/8 of the table size + 3, modulo the size. |
| FseDefaultTable.DefaultTable | zstd-upgrade/lib/zstd/decompress/zstd_decompress_block.c:365-400 | The decoding table of the default distribution of literal lengths is, in symbol, bit count and base of each of its 64 cells, the one the library carries ready-made. |
| FseSpread.SymbolCells | zstd-upgrade/lib/zstd/common/fse_decompress.c:78-148 | After the spreading every cell is filled, and every symbol has exactly as many cells as its share says, the low-probability ones included. |
| FseSpread.LaySymbols | zstd-upgrade/lib/zstd/compress/fse_compress.c:121-136 | Laying symbols down eight at a time, with overlaps, gives them in order, each as often as its share. |
| FseSpread.SpreadUnrolled | zstd-upgrade/lib/zstd/compress/fse_compress.c:141-155 | The two-stage spreading gives the same table as the simple one, and the walk ends where it began. |
| FseSpread.SpreadSkipping | zstd-upgrade/lib/zstd/compress/fse_compress.c:156-168 | Spreading around low-probability cells gives that table too, and the walk ends where it began, so the check for that never fails. |
| FseBuild.BuildCTable | zstd-upgrade/lib/zstd/compress/fse_compress.c:69-215 | For every normalised distribution: the next states of each symbol, sorted, are the cells it owns, and the bit counts and offsets are those the encoder needs. |
| FseBuild.BuildDTable | zstd-upgrade/lib/zstd/common/fse_decompress.c:59-160 | For every normalised distribution decoding cells are built, without error, that hold symbol, bit count and base state of each cell, and the fast mode is set only if every step reads a bit. |
| FseTables.StepForward | zstd-upgrade/lib/zstd/common/fse.h:455-462 | A step of the encoder stays in the table and writes at most as many bits as the table has. |
| FseTables.StepInverts | zstd-upgrade/lib/zstd/common/fse.h:455-554 | The decoder undoes every step of the encoder: from the state reached it reads the same number of bits, and with them gets back symbol and state. |
| FseTables.FirstState | zstd-upgrade/lib/zstd/common/fse.h:444-453 | The first state decodes to its symbol, and then asks for more bits, unless one symbol has the whole table. |
| FseCodec.DecodeStep | zstd-upgrade/lib/zstd/common/fse.h:541-550 | The decoder undoes each step of the two interleaved encoders. |
| FseCodec.DecodeLast | zstd-upgrade/lib/zstd/common/fse_decompress.c:218-236 | At the end no bits are left, the last two symbols are in the two states, and the next step asks for more than there is, which is how the end is found. |
| FseEncoder.EncodeSymbol | zstd-upgrade/lib/zstd/common/fse.h:455-462 | One step writes exactly the bits and reaches exactly the state of the specification. |
| FseEncoder.CompressGeneric | zstd-upgrade/lib/zstd/compress/fse_compress.c:552-609 | The result is 0 exactly if the source has at most two symbols or the bits do not fit; otherwise the bytes are the stream of the source; without checks words are stored behind the buffer exactly if the bits of the symbols do not fit, with checks never. |
| FseEncoder.Compress | zstd-upgrade/lib/zstd/compress/fse_compress.c:611-621 | The same with the choice of mode by size alone: every store is inside the buffer if and only if the output is checked or the bits of the symbols fit. |
| FseEncoder.SmallTablesFit | zstd-upgrade/lib/zstd/common/fse.h:237 | With at most 8 bits a symbol, the bits of any source fit any buffer of the block bound. |
| FseEncoder.LargeTablesNeedNotFit | zstd-upgrade/lib/zstd/common/fse.h:126-130 | With 9 to 12 bits they do not: counts 2^n - 1 and 1, 128 times the rare symbol, a buffer of exactly the bound, 141 bytes. |
| FseEncoder.FitsExactly | zstd-upgrade/lib/zstd/compress/fse_compress.c:611-621 | What a caller can check beforehand: for all distributions, sources and buffers the unchecked mode stays inside the buffer if and only if the table has at most 8 bits. |
| FseRoundTrip.WhenUncheckedFits | zstd-upgrade/lib/zstd/compress/fse_compress.c:69-215 | The same with the table that is really built for the distribution that fails. |
| FseDecoder.DecompressGeneric | zstd-upgrade/lib/zstd/common/fse_decompress.c:174-237 | Any bytes: never more than the buffer takes. The stream of a source gives back exactly the source, if the buffer is large enough, and the error for a small buffer otherwise. |
| FseRoundTrip.RoundTrip | zstd-upgrade/lib/zstd/common/fse_decompress.c:174-290 | For every distribution in which no symbol has the whole table, every source of its symbols and every buffer: the compressed size is 0 exactly if the source is too short or the bits do not fit, and what is compressed to a nonzero size decompresses to the source, by tables of any size and in either mode; stores stay inside the buffer exactly as stated for compression. |
| FseHeader.CountReadBack | zstd-upgrade/lib/zstd/compress/fse_compress.c:292-304 | The variable-length form of a count is read back, and its length recognised from its low bits. |
| FseHeaderValues.ExampleHeader | zstd-upgrade/lib/zstd/compress/fse_compress.c:235-329 | The counts -1, five times 0, 30 and 1 of a table of 5 bits have the header 00 C2 7D 03. |
| FseHeaderWriter.WriteNCount | zstd-upgrade/lib/zstd/compress/fse_compress.c:235-341 | With the choice of mode by size: for a normalised distribution the bytes are its header in its exact bit form; it fails exactly if the stores are checked and the last does not fit; every store is inside the buffer if and only if they are checked or the last one fits, whose end is given exactly by the width of the header. |
| FseHeaderBound.OneMoreFits | zstd-upgrade/lib/zstd/compress/fse_compress.c:224-232 | For every normalised distribution the header is no larger than the bound, and its last store ends at most one byte behind it: with a byte more than the bound every store is inside. |
| FseHeaderBound.FewSymbolsFit | zstd-upgrade/lib/zstd/compress/fse_compress.c:224-232 | For at most 17 symbols every store is inside a buffer of the bound. |
| FseHeaderBound.LargerTablesNeedNotFit | zstd-upgrade/lib/zstd/compress/fse_compress.c:224-232 | For every table of 6 to 12 bits there is a distribution of 32 symbols whose last store ends behind the bound. |
| FseHeaderBound.EighteenSymbols | zstd-upgrade/lib/zstd/compress/fse_compress.c:331-341 | With a table of 8 bits 18 symbols suffice for that: the bound is 21 bytes, and the last store ends at 22. |
| FseHeaderBound.FitsExactly | zstd-upgrade/lib/zstd/compress/fse_compress.c:331-341 | What a caller can check beforehand: the bound is enough for all distributions of a table if and only if it has 5 bits. |
| FseHeaderReader.ReadNCount | zstd-upgrade/lib/zstd/common/entropy_common.c:43-188 | Any bytes: counts that are accepted make up exactly a table, and no more bytes are reported than there are. The header of a distribution, whatever follows it, is read as its counts. |
| FseHeaderRoundTrip.RoundTrip | zstd-upgrade/lib/zstd/common/entropy_common.c:43-188 | Writing, in the mode the size selects, and then reading, whatever bytes follow, gives back counts, table size, last symbol and the number of bytes written, for every normalised distribution and every capacity; writing fails exactly if it is checked and the last store does not fit. |
| FseNormalize.Share | zstd-upgrade/lib/zstd/compress/fse_compress.c:494-501 | The share of a count that is not low: the proportion in 62 bits fixed point, rounded up exactly if it is below 8 and the rest exceeds 473195, 504333, 520860, 550000, 700000, 750000 or 830000 parts of 2^20, for 1 to 7; at least one state. |
| FseNormalize.AllShared | zstd-upgrade/lib/zstd/compress/fse_compress.c:447-461 | The cumulative rounding of the second method ends exactly at the number of states to share. |
| FseNormalize.WeightPositive | zstd-upgrade/lib/zstd/compress/fse_compress.c:451-459 | A symbol with more than its share of what waits gets at least one state. |
| FseNormalize.MoreOnlyIfLarge | zstd-upgrade/lib/zstd/compress/fse_compress.c:411-427 | More symbols are given a state of their own only if the table is at least twice as large as the alphabet and a third of it is given, which is why the others still have more than their share. |
| FseNormalize.SecondMethod | zstd-upgrade/lib/zstd/compress/fse_compress.c:380-464 | The second method never fails: its error is never returned, all states are given, and to exactly the symbols that occur. Counts up to one and a half times an even share, of all or of what is left, get one state, and the rest is given in proportion by cumulative rounding, or to the largest count, or in turn. |
| FseNormalize.NormalizeCount | zstd-upgrade/lib/zstd/compress/fse_compress.c:466-526 | Exactly all states of the table are given, to exactly the symbols that occur: the shares of the first method, the first largest of which takes what is left or too much; or, if too much is half of it or more, and only then, those of the second method. The two errors are returned exactly for tables that are too large, or that have less than 32 states or neither more than the source has bytes nor more than twice the last symbol; a source of a single symbol is told apart. |
| FseProportion.FirstIsClose | zstd-upgrade/lib/zstd/compress/fse_compress.c:482-521 | In the first method each share but the largest is within one state of the exact proportion. |
| FseProportion.PortionIsClose | zstd-upgrade/lib/zstd/compress/fse_compress.c:445-461 | In the second method each share that is given in proportion is within one and a half states of it. |
| FseShares.RoundedIsClose | zstd-upgrade/lib/zstd/compress/fse_compress.c:445-461 | However many of the first symbols one takes, what they get together is less than one state above their proportion and no more than half a state below it. |
| FseProportion.LowCounts | zstd-upgrade/lib/zstd/compress/fse_compress.c:380-521 | A count of at most total / 2^tableLog gets exactly one state, or the mark for a low probability, by both methods. |
| HufSort.IndexMonotone | zstd-upgrade/lib/zstd/compress/huf_compress.c:528-532 | Higher buckets are for higher counts, and the buckets below the cutoff for one count each. |
| HufSort.InsertionSort | zstd-upgrade/lib/zstd/compress/huf_compress.c:553-566 | Sorts a part of the nodes in descending order and rearranges nothing else. |
| HufSort.Partition | zstd-upgrade/lib/zstd/compress/huf_compress.c:569-584 | Nodes that count more than the pivot come before it, all others after it. |
| HufSort.SimpleQuickSort | zstd-upgrade/lib/zstd/compress/huf_compress.c:589-605 | Sorts any part of the nodes, by recursion for the shorter side and iteration for the longer. |
| HufSort.Sort | zstd-upgrade/lib/zstd/compress/huf_compress.c:618-663 | The result is a permutation of all symbols with their counts, in descending order; symbols with the same count below 164 stay in order. |
| HufTree.MakeNodes | zstd-upgrade/lib/zstd/compress/huf_compress.c:679-716 | Two queues, no sorting: the parents come out as one binary tree over all symbols, its root counts everything, and no code takes fewer bits than the counts of the nodes made add up to. |
| HufTree.TreeIsComplete | zstd-upgrade/lib/zstd/compress/huf_compress.c:706-711 | The depths of the symbols are the lengths of a complete code, in order. |
| HufTree.HeightBound | zstd-upgrade/lib/zstd/compress/huf_compress.c:679-716 | The height is bounded by the counts: Fibonacci(height + 2) is at most their sum. |
| HufTree.ShortTree | zstd-upgrade/lib/zstd/compress/huf_compress.c:383-392 | For less than 5,702,887 symbols in all the tree has at most 31 levels. |
| HufTree.BuildTree | zstd-upgrade/lib/zstd/compress/huf_compress.c:679-716 | The depths are a complete code of the symbols that occur, not decreasing from frequent to rare; no prefix code at all takes fewer bits for these counts; the height is bounded by their sum. |
| HufOptimal.Exchange | zstd-upgrade/lib/zstd/compress/huf_compress.c:679-716 | Any code can be changed, at no cost, so that the two lowest counts have words of the same length. |
| HufOptimal.PrefixCodesAreFeasible | zstd-upgrade/lib/zstd/compress/huf_compress.c:679-716 | The Kraft inequality for every code in which no word begins another: what optimality is measured against. |
| HufMaxHeight.Renormalise | zstd-upgrade/lib/zstd/compress/huf_compress.c:401-405 | The excess is a multiple of the unit, as the code asserts, it is positive, and less than the number of words cut. |
| HufMaxHeight.EnoughLeft | zstd-upgrade/lib/zstd/compress/huf_compress.c:470-491 | When lower ranks are empty, there are enough words of full length to take an overshoot back from, which the code leaves open. |
| HufMaxHeight.CutPeak | zstd-upgrade/lib/zstd/compress/huf_compress.c:383-395 | The cost never reaches 2 to the power of the height, so that 32 bits suffice for heights up to 31. |
| HufMaxHeight.ChooseRank | zstd-upgrade/lib/zstd/compress/huf_compress.c:425-443 | The rank chosen is the highest above 1 that does not repay more than is owed and whose last symbol counts at most twice the last one of the rank below, if that has any; if there is none, the lowest rank that has a symbol, which there always is. |
| HufMaxHeight.Lengthen | zstd-upgrade/lib/zstd/compress/huf_compress.c:445-467 | One symbol is lengthened, and the last symbols of both ranks are those of the new lengths. |
| HufMaxHeight.GiveBack | zstd-upgrade/lib/zstd/compress/huf_compress.c:476-491 | Taking an overshoot back always finds a symbol, and ends at a complete code. |
| HufMaxHeight.SetMaxHeight | zstd-upgrade/lib/zstd/compress/huf_compress.c:374-496 | For every complete code of at most 2^target symbols: the result is again complete and in order, its longest word the lesser of the old one and the target; a code that fits is not changed; no number computed on the way reaches 2 to the power of the old height. |
| HufCodes.FirstIs | zstd-upgrade/lib/zstd/compress/huf_compress.c:738-744 | The first word of each length starts exactly where the space of the longer words ends. |
| HufCodes.PrefixFree | zstd-upgrade/lib/zstd/compress/huf_compress.c:728-751 | In a canonical code no word is the beginning of another. |
| HufCTable.StreamDetermines | zstd-upgrade/lib/zstd/compress/huf_compress.c:983-1040 | Decoding is unique: the stream of a source spells that source and no other. |
| HufCTable.BuildCTableFromTree | zstd-upgrade/lib/zstd/compress/huf_compress.c:728-751 | The table of canonical words of exactly the lengths in the tree. |
| HufBuild.BuildCTable | zstd-upgrade/lib/zstd/compress/huf_compress.c:754-789 | From sorted counts: a complete canonical code, as large as its longest word, within the limit, words for exactly the symbols that occur, not longer for more frequent ones; optimal if the tree was not higher than the limit. |
| HufHistogram.BuildCTable | zstd-upgrade/lib/zstd/compress/huf_compress.c:754-789 | The same from any histogram of at least two symbols, by symbol instead of by rank; with less than 5,702,887 symbols in all every number of the height limiting fits 31 bits. |
| HufStream.AddTop | zstd-upgrade/lib/zstd/compress/huf_compress.c:875-907 | A word comes in at the top of the register, and the noise that comes with it stays below the valid bits. |
| HufStream.HufCStream.AddBits0 | zstd-upgrade/lib/zstd/compress/huf_compress.c:875-907 | Appends exactly the word, in the fast way too, in which its length is not masked off. |
| HufStream.HufCStream.AddBits1 | zstd-upgrade/lib/zstd/compress/huf_compress.c:875-907 | The same for the second register. |
| HufStream.HufCStream.ZeroIndex1 | zstd-upgrade/lib/zstd/compress/huf_compress.c:909-913 | The second register is empty. |
| HufStream.HufCStream.MergeIndex1 | zstd-upgrade/lib/zstd/compress/huf_compress.c:919-926 | The words of the second register follow those of the first. |
| HufStream.HufCStream.FlushBits | zstd-upgrade/lib/zstd/compress/huf_compress.c:935-955 | Whole bytes move to memory and the rest stays, with what may be lost known. |
| HufEncoder.TightBoundFits | zstd-upgrade/lib/zstd/compress/huf_compress.c:1047-1050 | The bits of any source fit a buffer of the tight bound, so that flushes without checks are safe exactly where they are used. |
| HufEncoder.EncodeAll | zstd-upgrade/lib/zstd/compress/huf_compress.c:989-1040 | For every unrolling that leaves room for its words: the words of all symbols, from the last to the first, through both registers. |
| HufEncoder.Close | zstd-upgrade/lib/zstd/compress/huf_compress.c:971-980 | The size is 0 exactly if the words may not have fit; otherwise the bytes are the words with the end mark. |
| HufEncoder.Compress | zstd-upgrade/lib/zstd/compress/huf_compress.c:1054-1116 | For every table, source and buffer: the result is 0 exactly if the words do not fit; otherwise the bytes are those of writing one word after the other, whatever the unrolling. |
| HufWeights.EvenLongest | zstd-upgrade/lib/zstd/common/entropy_common.c:301-302 | A complete code has an even number of words of the full length. |
| HufWeights.LastWeight | zstd-upgrade/lib/zstd/common/entropy_common.c:287-299 | The weight that was not sent is found exactly if a single word can fill up the sum. |
| HufWeights.TwoLongest | zstd-upgrade/lib/zstd/common/entropy_common.c:301-302 | A code as large as its longest word passes the check for two words of that length. |
| HufTableWriter.CompressWeights | zstd-upgrade/lib/zstd/compress/huf_compress.c:145-184 | Each outcome is characterised: one weight only, if and only if all are alike; not compressible, if and only if all are distinct or the stream does not fit; no room, if and only if the header of their distribution does not fit; and otherwise exactly as many bytes as header and stream of these weights take. |
| HufTableWriter.WriteCTable | zstd-upgrade/lib/zstd/compress/huf_compress.c:246-287 | What is written is the weights of all words but the last, packed if and only if that fits and takes more than one byte but less than half a byte for each, and four bits each otherwise, up to 128 of them; every failure is characterised by the sizes; what is packed can always be unpacked in the work space. |
| HufTableReader.DecompressWeights | zstd-upgrade/lib/zstd/common/fse_decompress.c:244-290 | Any bytes: never more weights than the buffer takes; packed weights are read back, or refused exactly if the work space is too small. |
| HufTableReader.ReadStats | zstd-upgrade/lib/zstd/common/entropy_common.c:244-307 | Any bytes: weights that are accepted are those of a complete code, with at least two words of full length, each weight counted exactly; weights that were sent are read. |
| HufTableReader.ReadCTable | zstd-upgrade/lib/zstd/compress/huf_compress.c:290-341 | Any bytes: a table that is accepted is a complete canonical code, as large as its longest word, whose last symbol has a word; a table whose weights were sent is read as its own. |
| HufTableRoundTrip.RoundTrip | zstd-upgrade/lib/zstd/compress/huf_compress.c:246-341 | For every complete canonical code, packed or not, whatever bytes follow: the table is written exactly as the sizes say, and what is written is read back as the same table if and only if it is as large as its longest word and its last symbol has a word; otherwise it is refused or read as another. |
| HufTableRoundTrip.WhenWritten | zstd-upgrade/lib/zstd/compress/huf_compress.c:246-287 | With room for four bits each a table of at most 129 symbols is written if and only if its weights are all alike or distinct or the header of their distribution fits; always with 14 bytes. |
| HufTableRoundTrip.ThreeBytesRefused | zstd-upgrade/lib/zstd/compress/huf_compress.c:246-287 | Word lengths 3, 3, 2 and 1 take three bytes, and are refused three bytes. |
| HufTableWriter.NeededTableLog | zstd-upgrade/lib/zstd/compress/fse_compress.c:358-370 | The table is large enough for all symbols, or has 12 bits; and it is larger than asked for only to be that, or to have the least size there is. |
| HufTableWriter.FiveBits | zstd-upgrade/lib/zstd/compress/fse_compress.c:358-370 | The weights of a Huffman table are packed with a table of 5 bits, but with one of 6 if there are at most four, for which the size the source calls for wraps around. |
| Xxh64.AbsorbRest | zstd-upgrade/lib/zstd/common/xxhash.c:104-159 | Only the bytes since the last whole block matter for what follows. |
| Xxh64.Finalize | zstd-upgrade/lib/zstd/common/xxhash.c:68-93 | The loops over eights, fours and ones mix in exactly the rest, and then avalanche. |
| Xxh64.State.Reset | zstd-upgrade/lib/zstd/common/xxhash.c:95-102 | The state is that of the empty message, whatever it was before. |
| Xxh64.State.Update | zstd-upgrade/lib/zstd/common/xxhash.c:104-159 | After any number of calls the state is that of everything absorbed so far; a null input is answered with an error exactly if its length is not 0, and changes nothing. |
| Xxh64.State.Digest | zstd-upgrade/lib/zstd/common/xxhash.c:161-181 | The hash of everything absorbed, whatever else the buffer holds; the state is not changed. |
| Xxh64.HashAtOnce | zstd-upgrade/lib/zstd/common/xxhash.c:183-190 | The one-shot function computes that hash as well. |
| Xxh64.HashInPieces | zstd-upgrade/lib/zstd/common/xxhash.c:95-190 | However a message is cut into pieces, on a state used before, the hash is that of the whole. |
| Xxh64Values.Empty | zstd-upgrade/lib/zstd/common/xxhash.c:161-190 | The hash of nothing is EF46DB3751D8E999. |
| Xxh64Values.ThreeLetters | zstd-upgrade/lib/zstd/common/xxhash.c:161-190 | That of abc is 44BC2CF5AD770999. |
| Xxh64Values.SevenLetters | zstd-upgrade/lib/zstd/common/xxhash.c:161-190 | That of abcdefg, whose rest has a four and ones, is 1860940E2902822D. |
| Xxh64Values.EightLetters | zstd-upgrade/lib/zstd/common/xxhash.c:161-190 | That of abcdefgh, whose rest is an eight, is 3AD351775B4634B7. |
| Xxh64Values.TwoBlocks | zstd-upgrade/lib/zstd/common/xxhash.c:161-190 | That of 87 given bytes with seed 9E3779B1 is E9B0940726369978: two blocks in all four lanes, eights, a four and ones. |

## Left out

- The kernel's registration of the algorithms, its scratch buffers and error numbers other than those modelled.
- The layers of zstd above the entropy stages: frames, blocks, sequences, literals, dictionaries, and the match
  finders.
- The table-driven decoding of Huffman streams (zstd-upgrade/lib/zstd/decompress/huf_decompress.c);
  `HufCTable.StreamDetermines` says what it has to find.
- LZ4 dictionaries, streaming, decoding in place, the fast decoding loop and the table of pointers.
- Hash functions: a parameter of the compressor, which is right for any of them.
- Variants for 32-bit words, big-endian words and special instructions; the exclusive or of words and the count of
  trailing zeros are functions on their bits.
- Checks of pointers against null and against wrap-around of addresses, other than those modelled.
- Checks of the size and alignment of work space, other than that for unpacking weights.
- Widths of integers where the values are bounded anyway. Where the width matters, in table indices, hashes, bit
  registers and length bytes, it is modelled.
- Xxh64.State.Update: the sum of the buffered and the new length is not reduced to the width of a size.
- Lz4Compressor.BeginSequence: for literals with more length bytes than the estimate counts, that it was accepted does
  not mean that a match fits; the check for the match then refuses.
- Lz4Decoder.CopyPartialMatch: with an offset of 0 the bytes of the last match are those the buffer held before.
- FseNormalize.NormalizeCount: for sources of at most 2^25 symbols.
- HufSort.Sort: the order of symbols with the same count of 164 or more, which the quicksort may change.
- HufTree.MakeNodes: which of several optimal trees is built is not told by the tree alone; that a node is taken before
  a symbol of the same count is stated for each step (`HufTree.PickLowest`).
- HufMaxHeight.SetMaxHeight: which words are lengthened is stated for each step (`HufMaxHeight.ChooseRank`), not for the
  whole.
- FseHeaderWriter.WriteNCount: for counts that are no distribution it promises no more than that checked stores are
  inside the buffer.
- HufHistogram.BuildCTable: for counts that add up to less than 2^30, the mark for nodes not yet made, and for a limit
  that leaves room for the symbols.
- HufMaxHeight.SetMaxHeight: the code is not shown to be the cheapest one of its height; nor does the program promise
  that.
- HufTableWriter.WriteCTable: the parts of a packed table are made in memory of their own and then copied.
- HufTableReader.ReadCTable: the numbering of the ranks is that of the finished table; a loop that only prepares them
  is left out.
