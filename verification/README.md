# Verified models of image decoding, kernel events and common containers

This project models, in Dafny, the parts of the emulator whose correctness is least visible from reading them, and
proves what they are for. `dafny verify dfyconfig.toml` checks all of it.

| files | what they model |
|---|---|
| `Bits`, `Arithmetic` | machine words as numbers with the bitwise operators of C; multiplication and division facts |
| `BitReverse`, `BitStream`, `HuffmanCode`, `ZHuffman` | bit order, canonical Huffman codes, and the two-level decoding table of stb_image |
| `Deflate`, `DeflateTables`, `DeflateUnique`, `InflateFailure`, `Inflate`, `InflateExample` | RFC 1951 as a relation between bits and a parse, its tables by their rules, its uniqueness, and the inflate decoder proved sound and complete against it |
| `InflateRuns`, `InflateEndless`, `InflateNeverEnds` | how many turns the inflate decoder takes, when it never ends, and a stream on which it does not |
| `GifLzw`, `GifAppendixF`, `Interlace`, `GifRaster` | GIF89a appendices E and F as specifications, and the raster decoder with its prefix table |
| `GifEncoder`, `GifPicture` | what any LZW encoder may write, and that the decoder shows the picture it was written for |
| `PngFilter`, `PngDefilter`, `PngExpand`, `PngPacking`, `Adam7` | PNG filters and interlacing as an encoder would apply them, and the in-place code that undoes them and unpacks small samples |
| `EventFlag`, `EventFlagRuns`, `EventFlagHistory` | the kernel event flag: regions under the mutex, then runs of any number of threads |
| `EventQueue`, `EventQueueRuns`, `EventQueueDelivery` | the kernel event queue: regions under the mutex, then histories of calls |
| `LruList`, `LruCache` | the intrusive least-recently-used list on the heap, refining a sequence |
| `JulianDay` | dates and Julian day numbers, with the exact 32-bit range |
| `BitRuns`, `BitArray` | the word-packed bit array and its run iterator |
| `Subsystems` | dependency-ordered start-up and shutdown |
| `Cmap` | character to glyph search of stb_truetype, formats 4, 12 and 13 |

Code that updates state in place is modelled by classes and methods with the fields, loops and branches of the source;
each method is proved against a specification that does not mention its steps. For DEFLATE the specification is a
relation saying which bits spell which parse; for PNG it is what an encoder does; for GIF it is the string table of
Appendix F and the row order of Appendix E. What a specification reads from tables or definitions of its own is pinned
by separate rules, by round trips through an encoder, or by examples. Runs of concurrent or repeated calls are sequences
of states; an arbitrary number of threads interleaves at every release of the mutex.

Unsigned words are natural numbers, with truncation written out where a value could leave its width. Reads past the end
of in-memory input give zeros, as `stbi__get8` and `stbi__zget8` do.

Findings where code and expectation differ, each with its exact condition:

- Inflate: past the end of input zero bytes are supplied, and filling the reservoir for extra bits does not notice that
  the input is used up. If zeros spell a reserved length symbol, which copies nothing, the block loop can go on for ever.
  `InflateRuns.NeverEnds` says exactly when a loop does, `Inflate.ZlibDecode` when the decoder does, and
  `InflateNeverEnds` has such a stream. No DEFLATE stream is affected (`InflateEndless.EndlessIsNoDeflate`).
- Inflate: a buffer that may grow and starts with size 0 is doubled for ever as soon as a byte is written
  (`Inflate.DoublingEnds`, `InflateNeverEnds.EmptyBufferGrows`); `Inflate.ZlibDecode` says on which streams.
- Day numbers: it is not enough that `4 * (jd + 32044) + 3` fits in 32 bits; `FloorDiv` subtracts `b - 1` first.
  `JulianDay.JdToYmdRange` and `JulianDay.YmdToJdRange` give the exact ranges, which differ: `JulianDay.SetThenGet` says
  exactly which dates can be stored and read back.
- cmap format 4: the first probe uses `>=`, so with repeated end codes the search can pick the second of two equal
  segments. `Cmap.SearchIsScan` says exactly when. The delta of a segment is not added to glyphs found through an
  offset; `Cmap.DeltaLeftOut` says exactly when this matters. There is a table for each.
- GIF: the comparison of the code with the counter just advanced is never true; the entry is right all the same. Entries
  are counted up to 8192 although the table of Appendix F stops at 4096, so a stream that defers the clear code for long
  enough is rejected, and so is one that starts with a data code; `GifAppendixF.DecodesAppendixF` says exactly when. For
  minimum code size 0, which GIF89a does not allow, the code width runs one bit behind its rule
  (`GifAppendixF.WidthRule`). Minimum code size 12, which needs codes of 13 bits, is accepted although Appendix F stops
  at 12.
- Subsystems: the failure flag of a subsystem is never reset, so starting again fails even if its Init would now succeed;
  `Subsystems.SubsystemsList.Outcome` says exactly when, `Subsystems.RetryFails` is an instance.

## Model

| member | source | states |
|---|---|---|
| `BitReverse.ReverseBit` | 3rdparty/stb/stb_image.h:4050-4057 | Four rounds of masked swaps reverse the order of the 16 low bits, whatever lies above them. |
| `BitReverse.BitReverseIsMsb` | 3rdparty/stb/stb_image.h:4059-4065 | Reversing 16 bits and shifting away the rest reverses the `bits` low bits of any number that fits in them. |
| `HuffmanCode.KraftIffCodesFit` | 3rdparty/stb/stb_image.h:4078-4092 | The Kraft inequality holds exactly if the running codes of every length fit in that length. |
| `HuffmanCode.EndCodeIsKraft` | 3rdparty/stb/stb_image.h:4081-4092 | The running code after length 15 is the Kraft sum in units of 2^-15. |
| `HuffmanCode.CodeFits` | 3rdparty/stb/stb_image.h:4081-4092 | Under the Kraft inequality the canonical code of every coded symbol fits in its length. |
| `HuffmanCode.PrefixFree` | 3rdparty/stb/stb_image.h:4081-4097 | Canonical codes are prefix-free: no code is the leading part of another symbol's code. |
| `HuffmanCode.SpellsUnique` | 3rdparty/stb/stb_image.h:4166-4202 | At most one symbol has a code that starts a given bit window. |
| `HuffmanCode.NothingUpTo` | 3rdparty/stb/stb_image.h:4171-4175 | A window starts with no code of length at most `l` exactly if its first `l` bits lie at or past the end code; this is the comparison with `maxcode`. |
| `HuffmanCode.RankInjective` | 3rdparty/stb/stb_image.h:4094-4100 | The slots that symbols take in `size` and `value` are distinct. |
| `HuffmanCode.RankBound` | 3rdparty/stb/stb_image.h:4094-4100 | Every slot is below the number of symbols, so the arrays are large enough. |
| `ZHuffmanTable.ZHuffman.Build` | 3rdparty/stb/stb_image.h:4067-4112 | The builder succeeds exactly on lists of lengths that satisfy the Kraft inequality, and then its arrays describe the canonical code of the list. |
| `ZHuffmanTable.ZHuffman.AssignFirstCodes` | 3rdparty/stb/stb_image.h:4081-4093 | First codes, first symbols and shifted end codes of all lengths; rejects exactly the lists that violate the Kraft inequality. |
| `ZHuffmanTable.ZHuffman.EnterFast` | 3rdparty/stb/stb_image.h:4101-4107 | Every fast index whose low bits spell the code gets its entry; each slot written was still empty, so fast entries never collide. |
| `ZHuffmanTable.EmptySlot` | 3rdparty/stb/stb_image.h:4101-4107 | A fast slot that a code is about to take holds no earlier entry. |
| `BitStream.LsbAppend` | 3rdparty/stb/stb_image.h:4144-4154 | Or-ing bits above those held extends an LSB-first reading of the stream. |
| `BitStream.LsbShr` | 3rdparty/stb/stb_image.h:4160-4162 | Shifting consumed bits out leaves the LSB-first reading from the next position. |
| `Deflate.CopyFrom` | 3rdparty/stb/stb_image.h:4271-4277 | An LZ77 copy keeps what was there and every byte it adds equals the byte `distance` before it, also when the copy overlaps itself. |
| `Deflate.OrderIsPermutation` | 3rdparty/stb/stb_image.h:4284 | The order in which code length code lengths are stored visits each of the 19 symbols once. |
| `DeflateTables.OrderRule` | 3rdparty/stb/stb_image.h:4284 | The order is that of RFC 1951 section 3.2.7: 16, 17, 18, 0, then outwards from 8 (8, 7, 9, 6 and so on). |
| `DeflateTables.LengthExtraRule` | 3rdparty/stb/stb_image.h:4231-4232 | Extra bits of the length symbols by rule: none for the first eight and for 285, then one more for every four symbols. |
| `DeflateTables.LengthBaseRule` | 3rdparty/stb/stb_image.h:4226-4229 | Lengths start at 3, the lengths of each symbol begin where those of the one before end, and 285 is 258 alone. |
| `DeflateTables.DistExtraRule` | 3rdparty/stb/stb_image.h:4237-4238 | Extra bits of the distance symbols by rule: none for the first four, then one more for every two symbols. |
| `DeflateTables.DistBaseRule` | 3rdparty/stb/stb_image.h:4234-4235 | Distances start at 1, the distances of each symbol begin where those of the one before end, and the last symbol ends at 32768. |
| `DeflateTables.EveryLength` | 3rdparty/stb/stb_image.h:4226-4232 | Every length up to 257 is the base of a symbol plus a number that its extra bits can hold. |
| `DeflateTables.LengthsApart` | 3rdparty/stb/stb_image.h:4226-4232 | No length below 258 belongs to two symbols below 285. |
| `DeflateTables.EveryDistance` | 3rdparty/stb/stb_image.h:4234-4238 | Every distance from 1 to 32768 is the base of a symbol plus a number that its extra bits can hold. |
| `DeflateTables.DistancesApart` | 3rdparty/stb/stb_image.h:4234-4238 | No distance belongs to two symbols. |
| `DeflateTables.OpCounts` | 3rdparty/stb/stb_image.h:4308-4318 | The repeat symbols 16, 17 and 18 stand for 3 to 6, 3 to 10 and 11 to 138 lengths. |
| `DeflateTables.CanonicalOrder` | 3rdparty/stb/stb_image.h:4081-4097 | Codes of one length increase with the symbol, and every bit string that starts with a shorter code is below the longer codes. |
| `DeflateTables.FixedCodes` | 3rdparty/stb/stb_image.h:4375-4402 | The fixed literal codes are those of RFC 1951 section 3.2.6: 0x30 on in 8 bits, 0x190 on in 9, 0 on in 7, 0xC0 on in 8. |
| `DeflateTables.FixedDistances` | 3rdparty/stb/stb_image.h:4375-4402 | The fixed distance codes are the symbols in five bits. |
| `DeflateUnique.DataUnique` | 3rdparty/stb/stb_image.h:4240-4280 | At a given position, with given codes, at most one list of literals and copies up to the end code is spelt. |
| `DeflateUnique.HeaderUnique` | 3rdparty/stb/stb_image.h:4282-4330 | At most one dynamic header (counts, code length code, run-length operations) is spelt at a position. |
| `DeflateUnique.ParseUnique` | 3rdparty/stb/stb_image.h:4404-4430 | A bit stream has at most one parse into DEFLATE blocks (RFC 1951, section 3.2.3), so decoded bytes are a function of the stream. |
| `InflateFailure.StuckInData` | 3rdparty/stb/stb_image.h:4244-4266 | If no token can follow the tokens read, no complete block data exists at that place. |
| `InflateFailure.StuckInOps` | 3rdparty/stb/stb_image.h:4302-4326 | If no run-length operation can follow those read, or the decoder gives up there, the code lengths are not completed. |
| `InflateFailure.StuckInBlocks` | 3rdparty/stb/stb_image.h:4411-4428 | If no block can follow the blocks read, the stream has no parse that stays within input and output. |
| `InflateFailure.FixedIsKraft` | 3rdparty/stb/stb_image.h:4375-4402 | The fixed code lengths of RFC 1951 section 3.2.6 satisfy the Kraft inequality, so their tables are always built. |
| `Inflate.ZBuf.FillBits` | 3rdparty/stb/stb_image.h:4144-4154 | Filling keeps the bit position, keeps the reservoir equal to the next bits of the stream with nothing above them, and leaves the exact number of bits that whole bytes up to more than 24 give. |
| `Inflate.ZBuf.Receive` | 3rdparty/stb/stb_image.h:4156-4164 | Returns the next `n` bits of the stream, first bit least significant, and advances by `n`. |
| `Inflate.ZBuf.HuffmanDecode` | 3rdparty/stb/stb_image.h:4185-4202 | Returns the one symbol whose code the stream spells here and advances past it; returns -1 only if no code is spelt, or the input is used up with fewer than 16 bits held. |
| `Inflate.ZBuf.HuffmanDecodeSlowpath` | 3rdparty/stb/stb_image.h:4166-4183 | The slow scan finds the symbol spelt or reports that there is none; its two range rejections are never taken. |
| `Inflate.ZBuf.Zexpand` | 3rdparty/stb/stb_image.h:4204-4224 | Growing keeps everything written and makes room for `n` bytes; fails only if the buffer is fixed or would pass the largest size that doubling can reach; never comes back exactly if an expandable buffer is empty and something is needed. |
| `Inflate.DoublingEnds` | 3rdparty/stb/stb_image.h:4213-4216 | The doubling loop goes on for ever exactly if it starts at size 0 and anything is needed; from any other size it ends. |
| `Inflate.ZBuf.EmitCopy` | 3rdparty/stb/stb_image.h:4266-4278 | A length and distance pair appends exactly the bytes of the overlapping LZ77 copy; fails only when they exceed the capacity. |
| `Inflate.ZBuf.CopyWindow` | 3rdparty/stb/stb_image.h:4271-4277 | The byte loop through the bytes just written equals the LZ77 copy. |
| `Inflate.ZBuf.ParseHuffmanBlock` | 3rdparty/stb/stb_image.h:4240-4280 | On success the bits read spell a token list with its end code and the output is what the tokens stand for; failure means no such list exists within input and capacity; a budget of turns runs out exactly if a run of that many turns exists (or an empty buffer keeps the decoder from it). |
| `Inflate.ZBuf.ReadLengths` | 3rdparty/stb/stb_image.h:4302-4326 | The code lengths read are the unrolling of the run-length operations spelt; failure means there are none of the right total. |
| `Inflate.ZBuf.ComputeHuffmanCodes` | 3rdparty/stb/stb_image.h:4282-4330 | Both tables are built for the lengths of the dynamic header spelt here, or no valid header is spelt. |
| `Inflate.ZBuf.ParseUncompressedBlock` | 3rdparty/stb/stb_image.h:4332-4359 | A stored block resumes at the next byte boundary and appends exactly its LEN bytes; failure means no stored block is there. |
| `Inflate.ZBuf.ParseZlibHeader` | 3rdparty/stb/stb_image.h:4361-4373 | Accepts exactly the two-byte headers with a valid check, no preset dictionary and method 8. |
| `Inflate.ZBuf.ParseZlib` | 3rdparty/stb/stb_image.h:4404-4430 | Whatever is accepted is a DEFLATE stream and the output is its meaning; a rejection means no parse fits the input and the capacity; with StreamBound turns the budget runs out exactly if the decoder reaches a block on which its loop never ends (or an empty buffer keeps it from there). |
| `Inflate.ZlibDecode` | 3rdparty/stb/stb_image.h:4442-4480 | Every stream with two bytes behind it that stands for no more bytes than doubling the buffer can reach (at least 2^31) is decoded to exactly those bytes, with StreamBound turns at the latest, except exactly if the buffer is empty at first and there are any bytes; nothing else is accepted; with StreamBound turns a buffer that is not empty makes the budget run out exactly if the decoder never ends. The tables that both sides read are pinned by the rules of `DeflateTables`. |
| `InflateExample.ExampleDecodes` | 3rdparty/stb/stb_image.h:4442-4480 | The ten bytes 78 01 4b 04 02 00 03 ce 01 85 stand for `aaaa`: a literal and an overlapping copy of length 3 and distance 1 in the fixed codes. |
| `InflateExample.Example` | 3rdparty/stb/stb_image.h:4442-4480 | The decoder returns `aaaa` for them. |
| `InflateRuns.NeverEnds` | 3rdparty/stb/stb_image.h:4240-4280 | The block loop goes on for ever exactly if it goes on for 8 times the input length plus the capacity plus 34 turns. |
| `InflateRuns.NeverEndsReserved` | 3rdparty/stb/stb_image.h:4226-4230 | A block loop that never ends reads a reserved length symbol, spelt by the zeros past the end of input. |
| `InflateRuns.GrowsOrReserved` | 3rdparty/stb/stb_image.h:4240-4280 | A run of turns without reserved length symbols is no longer than the bytes it writes. |
| `InflateEndless.ReadsUnique` | 3rdparty/stb/stb_image.h:4404-4430 | The state of the decoder at the start of a block (position, bits held, bytes written) determines which block it reads and the state behind it. |
| `InflateEndless.StoppedEnds` | 3rdparty/stb/stb_image.h:4404-4430 | Where the decoder leaves a block unread or has read the last one, no stretch of its run goes on for ever. |
| `InflateEndless.LastsForEver` | 3rdparty/stb/stb_image.h:4240-4280 | A block loop entered in a state the decoder is in, and lasting for the bound, never ends. |
| `InflateEndless.BlockCount` | 3rdparty/stb/stb_image.h:4409-4428 | No more blocks than bits of input can be read, since none starts past the end. |
| `InflateEndless.EndlessIsNoDeflate` | 3rdparty/stb/stb_image.h:4404-4430 | A stream on which the decoder never ends is not a DEFLATE stream. |
| `InflateEndless.EndlessIsReserved` | 3rdparty/stb/stb_image.h:4226-4230 | On such a stream a block gives a code to length symbol 286 or 287, and the zeros past the end spell it. |
| `InflateNeverEnds.StreamNeverEnds` | 3rdparty/stb/stb_image.h:4240-4280 | A zlib stream of 32 bytes on which the decoder never ends, for every capacity of at least 9 bytes. |
| `InflateNeverEnds.NeverDone` | 3rdparty/stb/stb_image.h:4442-4480 | On that stream every budget of turns runs out. |
| `InflateNeverEnds.EmptyBufferGrows` | 3rdparty/stb/stb_image.h:4213-4216 | A stream of one byte, decoded into an empty buffer that may grow: the doubling loop is never left. |
| `GifLzw.UnreadEnd` | 3rdparty/stb/stb_image.h:6641-6649 | Between sub-blocks the rest of the code stream is empty at a terminator and continues in the next sub-block otherwise. |
| `GifLzw.InterpretSound` | 3rdparty/stb/stb_image.h:6655-6691 | Every code keeps the string table and the code width of the decoder well formed, for minimum code sizes up to 12. |
| `GifLzw.CodeKnown` | 3rdparty/stb/stb_image.h:6666 | A code of the current width that passes the range test is in the table or is the one about to be entered, although entries past 4096 are counted but not kept. |
| `GifLzw.GrowthRule` | 3rdparty/stb/stb_image.h:6685-6688 | The test of the low bits of the next code is, in every reachable state and for every code size of Appendix F, its rule: widen when the strings entered use up the codes of the current width, up to 12 bits; the exact rule for code size 0. |
| `GifLzw.PixelCodes` | 3rdparty/stb/stb_image.h:6629-6634 | In every reachable state after a clear code, a code below it emits exactly its own pixel, whatever was entered since; only the counter can reject it. |
| `GifAppendixF.WidthRule` | 3rdparty/stb/stb_image.h:6685-6688 | The width rule of the source is that of Appendix F exactly for code sizes from 1 up. |
| `GifAppendixF.SizeZeroDiffers` | 3rdparty/stb/stb_image.h:6685-6688 | A stream of code size 0 that the source ends after two pixels and Appendix F reads on. |
| `GifAppendixF.SameStep` | 3rdparty/stb/stb_image.h:6655-6691 | One code does the same to the decoder of the source and to that of Appendix F, whose table stops at 4096 strings, unless 8191 - 2^size data codes have passed without a clear code. |
| `GifAppendixF.DecodesAppendixF` | 3rdparty/stb/stb_image.h:6655-6691 | The source rejects a stream for want of a clear code exactly if its first code is neither clear nor end code and in range, and for too many codes exactly if Appendix F reads more than 8191 - 2^size data codes in it without a clear code; any other stream it decodes as Appendix F does, with the same verdict. |
| `GifAppendixF.DataFirst` | 3rdparty/stb/stb_image.h:6666-6669 | A stream that starts with a data code: Appendix F reads it, the source rejects it. |
| `GifAppendixF.LongRunRejected` | 3rdparty/stb/stb_image.h:6671-6675 | A stream that Appendix F decodes completely and the source rejects: a clear code and then code 0 again and again. |
| `GifEncoder.RoundTrip` | 3rdparty/stb/stb_image.h:6655-6691 | Whatever an encoder may write for a list of pixels (any matching strings, clear codes anywhere, widths by table size) is decoded by Appendix F to those pixels. |
| `GifEncoder.PackedNumber` | 3rdparty/stb/stb_image.h:6650-6654 | Codes packed into bytes, first bit lowest, are read back. |
| `GifEncoder.BlocksCarry` | 3rdparty/stb/stb_image.h:6641-6649 | Sub-blocks of at most 255 bytes carry what was put into them, and end where they end. |
| `GifEncoder.FrameRoundTrip` | 3rdparty/stb/stb_image.h:6613-6696 | Frame data written by any encoder, anywhere in a file, is decoded by the source to the pixels it was written for exactly if no run of data codes without a clear code is longer than 8191 - 2^size, and is rejected for too many codes otherwise. |
| `GifEncoder.EveryPixelList` | 3rdparty/stb/stb_image.h:6613-6696 | Every list of pixels below 2^size has frame data that the source decodes to it. |
| `GifEncoder.PlainFrame` | 3rdparty/stb/stb_image.h:6613-6696 | One clear code, the pixels one by one and the end code are decoded to the pixels exactly up to 8191 - 2^size of them. |
| `Interlace.RowsOnce` | 3rdparty/stb/stb_image.h:6601-6610 | The row order of GIF89a Appendix E visits every row of the frame exactly once. |
| `Interlace.StepsFollowAppendixE` | 3rdparty/stb/stb_image.h:6785-6791 | Stepping by `step` and restarting while passes are left visits the rows in the order of Appendix E. |
| `Interlace.PlacesOnce` | 3rdparty/stb/stb_image.h:6586-6610 | Every pixel of the frame, and none outside it, is a place of exactly one pixel of the stream. |
| `Interlace.PassesInOrder` | 3rdparty/stb/stb_image.h:6785-6791 | Interlaced rows come as multiples of 8, then 4 more than these, then the other even rows, then odd rows, top down within each pass; plain rows top down. |
| `GifRaster.Gif.AdvanceRow` | 3rdparty/stb/stb_image.h:6601-6610 | At the end of a row the cursor stands at the first pixel of the next row of this pass or of the next pass that has rows. |
| `GifRaster.Gif.PutPixel` | 3rdparty/stb/stb_image.h:6586-6610 | Shows the next pixel in the next place of the frame and leaves every other place as it was; a full frame is left alone. |
| `GifRaster.Gif.OutGifCode` | 3rdparty/stb/stb_image.h:6576-6611 | Terminates because every prefix is below its own index, and emits the string of the code, first pixel first. |
| `GifRaster.Gif.EnterCode` | 3rdparty/stb/stb_image.h:6671-6679 | The new entry is the previous string plus the first pixel of the current one, also when the code is the one being entered. |
| `GifRaster.TiedAfter` | 3rdparty/stb/stb_image.h:6666-6690 | One data code takes the prefix table to the string table of Appendix F and yields the string that Appendix F assigns. |
| `GifRaster.Gif.ProcessGifRaster` | 3rdparty/stb/stb_image.h:6613-6696 | The pixels emitted are the decoding of the sub-blocks by string table with the counter of the source; success, each error and the position left behind are exactly those of that specification. |
| `GifRaster.LoadFrame` | 3rdparty/stb/stb_image.h:6767-6813 | A frame that fits the screen is decoded into it: the k-th pixel stands at the k-th place in Appendix E order, transparent colours and all other cells keep what they had. For code sizes 1 to 11 the pixels and the verdict are those of Appendix F, except exactly if the stream starts with a data code or a stretch without clear code is too long. What these specifications mean is pinned by `GifEncoder.FrameRoundTrip` and `GifPicture.ShowPicture`. |
| `GifPicture.PlaceAt` | 3rdparty/stb/stb_image.h:6586-6610 | Pixel `i * w + c` of the stream belongs to column `c` of the `i`-th row in the order of the passes. |
| `GifPicture.ShowPicture` | 3rdparty/stb/stb_image.h:6767-6813 | A picture written by any encoder with clear codes often enough is loaded, and every pixel is seen in its row and column with the red, green, blue and alpha of its palette entry, or leaves the screen as it was if that is more transparent than opaque. |
| `PngFilter.PaethNearest` | 3rdparty/stb/stb_image.h:4580-4589 | The Paeth predictor is the neighbour nearest to a + b - c, the earlier of a, b, c on a tie (PNG, section 9.4). |
| `PngFilter.FilterTypes` | 3rdparty/stb/stb_image.h:4673-4705 | The filters by their rules: the file byte plus the byte to the left, plus the byte above, plus their average rounded down, plus the Paeth predictor, modulo 256, is the byte of the row. |
| `PngDefilter.PaethFirst` | 3rdparty/stb/stb_image.h:4685-4686 | Without a row above, the Paeth predictor is the pixel to the left, which justifies the synthetic first-row filter. |
| `PngFilter.RowDetermined` | 3rdparty/stb/stb_image.h:4672-4705 | A row is determined by its filter type, the row above and its filtered bytes. |
| `PngFilter.EncodeInjective` | 3rdparty/stb/stb_image.h:4594-4716 | Filtering an image with any choice of types per row loses nothing: image and types are determined by the bytes. |
| `PngDefilter.Layout.OffsetAt` | 3rdparty/stb/stb_image.h:4690-4705 | Sample `k` of pixel `i` goes to offset i * output_bytes + k of the output row. |
| `PngDefilter.Layout.AlphaApart` | 3rdparty/stb/stb_image.h:4694-4714 | Alpha bytes never overwrite samples. |
| `PngDefilter.FirstPixelByte` | 3rdparty/stb/stb_image.h:4639-4650 | Each case of the first switch adds the prediction of PNG section 9.2 with nothing to the left; first-row filters equal a zero row above. |
| `PngDefilter.PixelByte` | 3rdparty/stb/stb_image.h:4673-4705 | Each case of the second switch adds the prediction of PNG section 9.2, first-row filters included. |
| `PngDefilter.DefilterRow` | 3rdparty/stb/stb_image.h:4620-4716 | Filtering the rebuilt row gives back the bytes of the file; alpha bytes are 255; other rows are untouched. |
| `PngDefilter.DefilterRows` | 3rdparty/stb/stb_image.h:4612-4716 | Succeeds exactly if there are enough bytes and every filter type is at most 4; then filtering the decoded rows gives the file back, and samples and full alpha stand where they belong. |
| `PngDefilter.DefilterInverts` | 3rdparty/stb/stb_image.h:4594-4716 | Any rows filtered with any types are accepted and read as those rows only. |
| `PngDefilter.PixelInPlace` | 3rdparty/stb/stb_image.h:4690-4714 | Every output pixel of 8 or 16 bit samples consists of its samples followed by full alpha if there is room for it. |
| `PngExpand.Slack` | 3rdparty/stb/stb_image.h:4735-4769 | Unpacking in place never overtakes the packed bytes still to be read: the distance is at least one less than the samples written next. |
| `PngExpand.ExpandRow` | 3rdparty/stb/stb_image.h:4721-4769 | A packed row at the end of its place becomes its scaled samples at the start of the same place; `PngPacking` says that these are the samples packed, leftmost first. |
| `PngExpand.AlphaGray` | 3rdparty/stb/stb_image.h:4770-4778 | Spreading gray samples from last to first puts every sample and a full alpha byte in place. |
| `PngExpand.AlphaRgb` | 3rdparty/stb/stb_image.h:4779-4787 | The same for three samples a pixel, although source and target overlap. |
| `PngExpand.CreatePngImageRaw` | 3rdparty/stb/stb_image.h:4594-4789 | At every depth: succeeds exactly if the bytes suffice, filter types are at most 4 and packed rows are not longer than their pixels; then the rows are the only ones with that encoding and every output pixel shows its samples and full alpha (`PngPacking.PixelRoundTrip` for packed rows). |
| `PngPacking.SampleRoundTrip` | 3rdparty/stb/stb_image.h:4735-4769 | Samples packed into bytes with the leftmost in the highest bits are unpacked to themselves, scaled. |
| `PngPacking.ByteOfFields` | 3rdparty/stb/stb_image.h:4735-4769 | The samples of a byte, read as digits with the first one most significant, give the byte back. |
| `PngPacking.FullScale` | 3rdparty/stb/stb_image.h:4591 | The largest gray sample becomes 255; palette indices are not scaled. |
| `PngPacking.PixelRoundTrip` | 3rdparty/stb/stb_image.h:4721-4787 | A pixel of a packed row is its samples, scaled, then full alpha if the output has it. |
| `PngPacking.RowSize` | 3rdparty/stb/stb_image.h:4603-4612 | A row takes as few bytes as hold its bits, filters look back by one pixel, rounded up to a byte, and output rows follow each other without gaps. |
| `Adam7.PassSizeIsCount` | 3rdparty/stb/stb_image.h:4825-4826 | The unsigned pass-size formula counts the coordinates of a pass exactly if its 32-bit sum does not wrap; for sizes the loader accepts it never does, so it is 0 exactly for empty passes. |
| `Adam7.PassesPartition` | 3rdparty/stb/stb_image.h:4819-4822 | The seven passes partition the grid: each pixel is the target of one pixel of one pass and of no other. |
| `Adam7.PassPattern` | 3rdparty/stb/stb_image.h:4819-4822 | The pass of a pixel is the entry of the 8 by 8 pattern of PNG section 8.2. |
| `Adam7.VisitedNext` | 3rdparty/stb/stb_image.h:4833-4840 | The next pixel scattered has not been written before. |
| `Adam7.PassesDetermined` | 3rdparty/stb/stb_image.h:4818-4845 | The reduced images of an interlaced file are determined by its bytes. |
| `Adam7.CreatePngImage` | 3rdparty/stb/stb_image.h:4806-4849 | Succeeds exactly on files that hold seven filtered passes; writes every pixel of the image exactly once, each as its pass has it. |
| `Adam7.DeinterlaceInverts` | 3rdparty/stb/stb_image.h:4815-4849 | When the file holds the seven reduced images of a picture, stored with any filters and at any depth, the final image shows that picture. |
| `EventFlag.KernelEventFlag.Wait` | src/kernel/eventFlag.cpp:127-168 | Entry of Wait up to its first sleep: AlreadyWaiting on an occupied single-thread flag; otherwise Ok exactly if all (AND) or one (OR) of the bits are set, with the bits as they were, clearing exactly the bits asked for; TimedOut without time; or one more waiter. |
| `EventFlag.KernelEventFlag.Resume` | src/kernel/eventFlag.cpp:186-218 | From a wake-up to the next sleep or return: canceled and deleted flags return at once, otherwise the condition is tested again with the same answers. |
| `EventFlag.KernelEventFlag.TryCancel` | src/kernel/eventFlag.cpp:251-267 | The first half of Cancel is the transition that the runs take: nothing on a busy flag, otherwise the mark, the new bits and the number of waiters. |
| `EventFlag.KernelEventFlag.FinishCancel` | src/kernel/eventFlag.cpp:271-278 | The second half of Cancel is the transition that the runs take: back to normal once nobody waits. |
| `EventFlag.KernelEventFlag.TrySet` | src/kernel/eventFlag.cpp:221-235 | One pass of Set: nothing on a busy flag; otherwise a bit is set afterwards exactly if it was set or is in the pattern. |
| `EventFlag.KernelEventFlag.TryClear` | src/kernel/eventFlag.cpp:237-249 | One pass of Clear: nothing on a busy flag; otherwise a bit is set afterwards exactly if it was set and is in the pattern. |
| `EventFlag.KernelEventFlag.TryDelete` | src/kernel/eventFlag.cpp:107-118 | The first half of the destructor is the transition that the runs take. |
| `EventFlag.KernelEventFlag.FinishDelete` | src/kernel/eventFlag.cpp:120-124 | The second half of the destructor is the transition that the runs take: it ends once nobody waits. |
| `EventFlagRuns.InvRun` | src/kernel/eventFlag.cpp:149-188 | In every state of every run of any number of threads, the waiting counter is the number of sleepers, and at most 1 on a single-thread flag. |
| `EventFlagRuns.StepWhileCanceled` | src/kernel/eventFlag.cpp:190-196 | While a Cancel is in progress every sleeper stays asleep or leaves with Canceled, and the Cancel cannot end while one sleeps. |
| `EventFlagRuns.CancelReachesAll` | src/kernel/eventFlag.cpp:251-278 | Every call asleep at any moment between the effect and the return of a Cancel has left with Canceled by then. |
| `EventFlagRuns.CancelCounts` | src/kernel/eventFlag.cpp:262-267 | The number a Cancel reports is the number of threads asleep when it takes effect. |
| `EventFlagRuns.DeleteReachesAll` | src/kernel/eventFlag.cpp:107-125 | Every call asleep at any moment between the effect of the destructor and its end has left with Deleted, and nothing else, by then. |
| `EventFlagRuns.TakingClears` | src/kernel/eventFlag.cpp:207-216 | A clearing wait that requires a bit found it set and leaves it clear. |
| `EventFlagRuns.BitsTakenOncePerRaise` | src/kernel/eventFlag.cpp:153-154 | Over every run and for every bit, clearing waits that require the bit return Ok at most as often as the bit was raised. |
| `EventFlagHistory.StepBits` | src/kernel/eventFlag.cpp:205-267 | After any step of any thread a bit is set exactly if the step was an effective Set or Cancel with it, or it was set and the step was not a clearing return, a Clear without it or a Cancel without it. |
| `EventFlagHistory.BitHistory` | src/kernel/eventFlag.cpp:127-278 | Over every run: a bit is set exactly if it was brought (by creation, Set or Cancel) and nothing has removed it since. |
| `EventFlagHistory.EntryAnswers` | src/kernel/eventFlag.cpp:149-168 | A call of Wait whose bits are there returns Ok at once; without them it times out at once if it has no time, and sleeps otherwise. |
| `EventFlagHistory.WakeAnswers` | src/kernel/eventFlag.cpp:184-218 | After a wake-up a Cancel or the destructor is noticed first, then the bits, then the time. |
| `EventFlagHistory.TriesUntilEffect` | src/kernel/eventFlag.cpp:221-262 | A thread in Set, Clear or Cancel goes on trying until its call takes effect, and no longer. |
| `EventQueue.KernelEqueue.AddEvent` | src/kernel/eventQueue.cpp:205-227 | A known key only takes over deadline and user data, also in its queued data; a new key goes to the end. |
| `EventQueue.KernelEqueue.TriggerEvent` | src/kernel/eventQueue.cpp:229-253 | Triggers the event with the key through its trigger function, or reports that there is none. |
| `EventQueue.KernelEqueue.DeleteEvent` | src/kernel/eventQueue.cpp:283-306 | Removes the event with the key, or reports that there is none. |
| `EventQueue.KernelEqueue.GetTriggeredEvents` | src/kernel/eventQueue.cpp:90-141 | The nested loops over the list leave the events and copy out the data that the recursive specification of a collection gives; `EventQueueDelivery` says what that is. |
| `EventQueueRuns.InvRun` | src/kernel/eventQueue.cpp:73-306 | Every state of every history of user, AMPR, file and timer events keeps unique keys, conserved data, user and file events triggered exactly if they were and that was not handed out, and timers with the deadline registered last. |
| `EventQueueRuns.KeysStayUnique` | src/kernel/eventQueue.cpp:205-227 | No key is registered twice in any queue reached by such a history. |
| `EventQueueRuns.AmprConserved` | src/kernel/eventQueue.cpp:262-272 | Data triggered since registration is exactly data delivered, then the current value if triggered, then the queue, in order; queued data implies triggered. |
| `EventQueueRuns.DrainAmpr` | src/kernel/eventQueue.cpp:105-133 | One event hands out a prefix of what it holds, in order, and keeps the rest. |
| `EventQueueRuns.CollectOnce` | src/kernel/eventQueue.cpp:124-128 | In one collection a triggered event appears at most once, and once more for each value in its queue; an event that is not triggered does not appear. |
| `EventQueueRuns.CollectionBounds` | src/kernel/eventQueue.cpp:100-140 | A collection of a reachable queue returns at most `num` events, each registered event at most once more than it has values queued, and user, file and timer events at most once. |
| `EventQueueRuns.CollectTimer` | src/kernel/eventQueue.cpp:107-110 | A timer that is delivered leaves the queue, and no other timer does. |
| `EventQueueRuns.TimerDelivery` | src/kernel/eventQueue.cpp:143-149 | A high-resolution timer is delivered only after a deadline registered for it has passed, and no more often than it was registered. |
| `EventQueueDelivery.CollectionExact` | src/kernel/eventQueue.cpp:90-149 | Every collection of a reachable queue returns exactly the first `num` of everything that is due, event by event in the order of registration, each followed by what has queued behind it. |
| `EventQueueDelivery.CollectionComplete` | src/kernel/eventQueue.cpp:90-149 | A collection that returns fewer than `num` events has handed out, for every event, the data of its last trigger if that was not handed out before (user and file events), all data triggered and not yet handed out in order (AMPR), or one event exactly if the deadline has come (timers); timers handed out are gone, everything else stays. |
| `EventQueueDelivery.TriggerAdds` | src/kernel/eventQueue.cpp:229-272 | A trigger makes a user or file event owe one event with the new data, and an AMPR event one more. |
| `EventQueueDelivery.ReregisterOwes` | src/kernel/eventQueue.cpp:213-222 | Registering a known event again replaces the user data of all it owes, and its deadline. |
| `EventQueueDelivery.KeysAfter` | src/kernel/eventQueue.cpp:205-306 | Which keys registration, triggering and deletion leave registered. |
| `LruCache.Cache.Attach` | src/common/lruCache.h:81-93 | Links an item behind the last one; forward and backward links of the list stay those of one chain. |
| `LruCache.Cache.Detach` | src/common/lruCache.h:95-108 | Unlinks the item at any position; all other items keep their order. |
| `LruCache.Cache.Build` | src/common/lruCache.h:70-79 | Hands out the id freed longest ago, or a new one; live and free ids keep partitioning all slots. |
| `LruCache.Cache.Insert` | src/common/lruCache.h:21-28 | Adds the new entry at the recent end and changes no other. |
| `LruCache.Cache.Touch` | src/common/lruCache.h:30-40 | A newer tick moves exactly this entry to the recent end with that tick; an older one changes nothing. |
| `LruCache.Cache.Free` | src/common/lruCache.h:42-48 | Removes exactly this entry and queues its id. |
| `LruCache.Cache.ForEachItemBelow` | src/common/lruCache.h:51-67 | Hands the callback the entries from the front up to the first past the bound, also if the callback frees the item it was handed. |
| `LruCache.PartitionFree` | src/common/lruCache.h:42-48 | Moving an id from the list to the free queue keeps live and free ids a partition of the slots. |
| `LruCache.PartitionReuse` | src/common/lruCache.h:76-78 | Reusing the oldest free id keeps the partition. |
| `LruList.HistorySorted` | src/common/lruCache.h:30-40 | With ticks that never decrease the list is always in tick order, over every history of Insert, Touch and Free. |
| `LruList.WalkIsAllBelow` | src/common/lruCache.h:51-67 | On a list in tick order the bounded walk hands out exactly the entries up to the bound. |
| `LruList.TouchMoves` | src/common/lruCache.h:30-40 | A tick that is not newer changes nothing; a newer one puts the entry last with that tick, and the others keep their order. |
| `LruList.HistoryHolds` | src/common/lruCache.h:21-48 | Over every history with ticks that never decrease: the list holds exactly the items inserted and not freed since, each with its value and the tick of its last use. |
| `LruList.KeptAre` | src/common/lruCache.h:51-67 | Of the visited entries those stay that the callback does not free, in their order. |
| `JulianDay.FloorDivIsFloor` | src/common/dateTime.cpp:11-21 | The rounding of the source is the floor of the quotient for either sign of dividend and divisor. |
| `JulianDay.DateRoundTrip` | src/common/dateTime.cpp:23-65 | Every valid date, years before 1 included, survives the trip through its day number. |
| `JulianDay.DayRoundTrip` | src/common/dateTime.cpp:23-65 | Every day number is the number of exactly one valid date. |
| `JulianDay.Epoch` | src/common/dateTime.cpp:23-65 | Day 0 is 24 November -4714 and day 2451545 is 1 January 2000. |
| `JulianDay.NextDay` | src/common/dateTime.cpp:38-65 | The date of the next day number is the next day by month lengths and leap years. |
| `JulianDay.DateOrder` | src/common/dateTime.cpp:23-36 | Comparing day numbers compares dates. |
| `JulianDay.LongYearRule` | src/common/dateTime.cpp:160-166 | The leap rule in terms of century and year of the century. |
| `JulianDay.JdToYmdRange` | src/common/dateTime.cpp:38-65 | JdToYmd computes without 32-bit overflow exactly for day numbers from -536866432 to 536838867. |
| `JulianDay.OverflowBelow` | src/common/dateTime.cpp:11-21 | A day number for which 4 * (jd + 32044) + 3 fits in 32 bits and the conversion still overflows. |
| `JulianDay.YmdToJdInRange` | src/common/dateTime.cpp:23-36 | Within that range YmdToJd does not overflow either and both conversions invert each other on 32-bit numbers. |
| `JulianDay.YmdToJdRange` | src/common/dateTime.cpp:23-36 | YmdToJd computes without 32-bit overflow exactly for valid dates from 14 May -5884291 to 15 December 5874689. |
| `JulianDay.Date.Set` | src/common/dateTime.cpp:136-142 | For a valid date that can be converted, stores a number that is not the invalid mark and that converts back to the date; for an invalid date, the invalid mark. |
| `JulianDay.Date.Get` | src/common/dateTime.cpp:144-158 | Returns zeros for the invalid mark and otherwise, where the conversion does not overflow, the valid date whose day number is stored. |
| `JulianDay.Date.LengthOfMonth` | src/common/dateTime.cpp:99-113 | For day numbers that can be converted, the length returned is the largest valid day of the stored month; 0 for the invalid mark. |
| `JulianDay.SetThenGet` | src/common/dateTime.cpp:136-158 | Get returns the date given to Set exactly if it is valid and lies between 13 July -1474604 and 18 October 1465102; zeros exactly if it is invalid; for all other dates the 32-bit arithmetic overflows. |
| `JulianDay.SetThenGetOverflows` | src/common/dateTime.cpp:136-158 | 1 January 3000000 is stored as its day number, and reading it back overflows. |
| `BitArrays.BitArray.SubRange` | src/common/bitArray.h:58-81 | The copy holds the bits of the range and nothing else; empty and invalid ranges give an empty array. |
| `BitArrays.BitArray.SetRange` | src/common/bitArray.h:95-118 | Sets exactly the bits of a valid range; other ranges change nothing. |
| `BitArrays.BitArray.UnsetRange` | src/common/bitArray.h:120-143 | Clears exactly the bits of a valid range; other ranges change nothing. |
| `BitArrays.SplicedBits` | src/common/bitArray.h:100-117 | Changing words through the masks of a range changes the bits of that range only. |
| `BitArrays.OnesOfWord` | src/common/bitArray.h:181-186 | Only the word of all ones starts, or ends, with 64 ones. |
| `BitArrays.BitArray.FirstRangeFrom` | src/common/bitArray.h:158-188 | The word scan finds the run that a scan bit by bit finds. |
| `BitArrays.BitArray.LastRangeFrom` | src/common/bitArray.h:192-226 | The downward word scan finds the run that a scan bit by bit finds. |
| `BitArrays.ForEachRange` | src/common/bitArray.h:230-231 | Iterating from begin to end terminates and visits increasing, non-adjacent, maximal runs whose union is exactly the set bits. |
| `BitRuns.RunsApart` | src/common/bitArray.h:32-38 | Runs taken one after the other are maximal and do not touch. |
| `BitRuns.RunsCover` | src/common/bitArray.h:32-38 | Together the runs cover exactly the set bits. |
| `Subsystems.SubsystemsList.Add` | src/common/subsystems.cpp:35-64 | Registers a node with all its dependencies in front of the list and changes no other. |
| `Subsystems.SubsystemsList.FindNextToInitialize` | src/common/subsystems.cpp:136-156 | Returns the newest node that is not up and has all its dependencies up; null means that no node is ready. |
| `Subsystems.SubsystemsList.Start` | src/common/subsystems.cpp:68-84 | Succeeds exactly if the node has never failed and this call of its Init does not fail; success puts it on top of what is up, failure sets its flag. |
| `Subsystems.SubsystemsList.InitAll` | src/common/subsystems.cpp:66-88 | Terminates; starts the newest ready node each time, so after its dependencies, and only nodes whose Init succeeds; success leaves only nodes with a missing or stopped dependency, failure names the one ready node that had failed before or whose Init failed in the last call. |
| `Subsystems.SubsystemsList.Outcome` | src/common/subsystems.cpp:66-88 | InitAll succeeds exactly if everything reachable is up after it, where reachable means in the least set that contains what its members make ready; and if no Init fails, exactly if nothing reachable that has to be started had failed before. |
| `Subsystems.AcyclicIsReachable` | src/common/subsystems.cpp:136-156 | Without missing and circular dependencies every subsystem is reachable. |
| `Subsystems.RetryFails` | src/common/subsystems.cpp:70-76 | A list of one subsystem whose first Init fails and whose later ones would not: starting it again fails. |
| `Subsystems.SubsystemsList.DestroyAll` | src/common/subsystems.cpp:90-101 | Destroys everything that is up in exact reverse order of its start, across any number of calls of InitAll. |
| `Subsystems.ReplayTakeDown` | src/common/subsystems.cpp:90-101 | After the calls of DestroyAll, a replay of all calls of Init and Destroy ends with nothing up and every Destroy matching the last Init. |
| `Subsystems.FullyStarted` | src/common/subsystems.cpp:136-156 | When nothing is ready any more, an acyclic system without missing dependencies is fully up. |
| `Subsystems.SubsystemsList.AllInitialized` | src/common/subsystems.cpp:66-88 | After a successful InitAll of an acyclic closed list every node is initialised. |
| `Subsystems.SubsystemsList.OnlyWhatIsReachable` | src/common/subsystems.cpp:136-156 | Whatever is up lies in every set that contains what its members make ready: start-up reaches the least such set. |
| `Cmap.FindSegment` | 3rdparty/stb/stb_truetype.h:1517-1548 | On a sorted table with a sound header the halving search returns the first segment, from the start it has chosen, whose end code is not below the character. |
| `Cmap.SearchIsScan` | 3rdparty/stb/stb_truetype.h:1531-1544 | That is the segment of a plain linear scan exactly if the character is not a repeated end code straddling the place where the search starts. |
| `Cmap.StrictSearchIsScan` | 3rdparty/stb/stb_truetype.h:1531-1544 | With strictly increasing end codes search and scan always agree. |
| `Cmap.RepeatedEndCode` | 3rdparty/stb/stb_truetype.h:1531-1532 | A sorted table with a repeated end code on which the search picks the second of two segments. |
| `Cmap.RepeatedTableGlyphs` | 3rdparty/stb/stb_truetype.h:1531-1544 | A table with a sound header and a repeated end code: a scan finds glyph 15, the source glyph 25. |
| `Cmap.RepeatedEndCodeGlyph` | 3rdparty/stb/stb_truetype.h:1531-1544 | On that table the source returns glyph 25. |
| `Cmap.FindGlyphFormat4` | 3rdparty/stb/stb_truetype.h:1516-1560 | The glyph is that of the segment found, through delta or offset; 0 outside the segment and above 0xFFFF. |
| `Cmap.DeltaLeftOut` | 3rdparty/stb/stb_truetype.h:1555-1559 | The result agrees with OpenType, which adds the delta also to glyphs found through an offset, exactly if there is no such glyph or the delta is 0. |
| `Cmap.OffsetTableGlyphs` | 3rdparty/stb/stb_truetype.h:1555-1559 | A table with a sound header on which OpenType assigns glyph 10 and the source finds glyph 7. |
| `Cmap.DeltaLeftOutGlyph` | 3rdparty/stb/stb_truetype.h:1555-1559 | On that table the source returns glyph 7. |
| `Cmap.FindGlyphGroups` | 3rdparty/stb/stb_truetype.h:1561-1583 | For ordered disjoint groups the binary search of formats 12 and 13 returns what a scan of all groups returns, and 0 if no group contains the character. |
| `Cmap.GroupsCount` | 3rdparty/stb/stb_truetype.h:1573-1578 | Format 12 counts up from the glyph of the first character of the group, format 13 gives all its characters that glyph. |
| `Cmap.GroupTableGlyphs` | 3rdparty/stb/stb_truetype.h:1561-1583 | A table of one group: the third character has glyph 12 in format 12 and glyph 10 in format 13, the next character has none. |

## Left out

- Inflate.ZBuf.ParseHuffmanBlock: takes a budget of turns, because the loop of the source need not end; the contract says exactly when a budget runs out, and `InflateRuns.NeverEnds` which budget is as good as none.
- Inflate.ZBuf.Zexpand: returns where its loop would never end.
- Inflate.ZBuf.ParseZlib: the same budget; output is not claimed for streams that use the reserved length symbols 286 and 287 or distance symbols 30 and 31, which the source does not reject.
- Inflate.ZlibDecode: acceptance is claimed for streams with at least 16 bits behind the last block, since the source gives up when fewer are left; allocation succeeds up to the largest size.
- InflateFailure.StuckInBlocks: speaks of parses that end at least 16 bits before the end of input and stay within the capacity.
- GifRaster.LoadFrame: colour tables, extensions, disposal of earlier frames and filling with the background colour are not part of this model; the colour table is a parameter.
- GifEncoder.FrameRoundTrip: code sizes 1 to 8, since pixels are bytes; larger sizes are covered by `GifRaster.LoadFrame`.
- GifPicture.ShowPicture: drives the frame decoder only; it is not a function of the source.
- GifRaster.Gif.ProcessGifRaster: the structure of the source is split into methods for reading a byte, entering a code and handling a data code.
- PngExpand.CreatePngImageRaw: the conversion of 16-bit samples to host byte order and the size checks before allocation are not part of this model (samples stay big-endian), and allocation always succeeds.
- PngExpand.ExpandRow: the three unrolled loops of the source for 4, 2 and 1 bits are one loop over the samples of a byte, with the same reads and writes in the same order.
- Adam7.CreatePngImage: models the interlaced branch; without interlacing the source calls CreatePngImageRaw directly.
- PNG chunks, palettes, transparency keys, and the JPEG, HDR, PSD, PIC, BMP, TGA and PNM loaders: parsing around the decoders or approximate arithmetic.
- EventFlag.KernelEventFlag.Resume: wake-ups and elapsed time are arbitrary, which covers signals, timeouts and spurious wake-ups; nothing is claimed about who is woken first or that anyone ever is.
- EventFlag.KernelEventFlag.TrySet: one attempt; the retry loops with sleeps in Set, Clear, Cancel and the destructor are repeated attempts in the runs.
- Event flag creation attributes, handles, names and long-wait reports: argument checking and logging.
- EventQueue.KernelEqueue.GetTriggeredEvents: the clock is a parameter; WaitForEvents, its condition variable and GetNextTimerWaitMicros are repeated collections at arbitrary times.
- EventQueue.KernelEqueue.DeleteEvent: filters with a delete function of their own, and the registry of queue handles, are not part of this model.
- EventQueueRuns.InvRun: events registered by the graphics and video output code, with trigger and reset functions of their own, do not occur in the histories.
- EventQueueRuns.KeysStayUnique: the same histories.
- EventQueueRuns.TimerDelivery: conversion of time values to nanoseconds and its saturation are not part of this model; a deadline is any number.
- LruCache.Cache.ForEachItemBelow: models callbacks without result that free at most the item they were handed; callbacks that return a bool to stop the walk are left out.
- LruCache.Cache.Free: freeing an id twice is not modelled, since the source does not check for it.
- JulianDay.Date.Set: promises nothing on signed overflow, which is undefined in the source; formatting, parsing, the time of day and the day of the week are not part of this model.
- BitArrays.BitArray.SubRange: Get, Set, Unset, Clear, Fill and the xor and complement operators would only add easy members.
- Subsystems.SubsystemsList.InitAll: whether a call of Init fails is an arbitrary function of the name and the number of the call; Init and Destroy do nothing else to the list. In the source a call fails if it reports a message that is not empty.
- Subsystems.SubsystemsList.DestroyAll: ShutdownAll differs only in the callback it makes, and messages are left out.
- Cmap.FindSegment: table offsets are unbounded numbers, and reads past the end of the font, undefined in the source, give zeros.
- Cmap.FindGlyphFormat4: formats 0 and 6 are direct table reads, and format 2 is not implemented in the source.
- The rasteriser of stb_truetype, upsampling, colour conversion and everything else in floating point.
