# Verified models of a boot and disk imaging suite

This project models three parts of the suite and proves what they promise.

**The streaming decompressor of the boot loader** (zlib 1.1.3). `Deflate.dfy` says what a stream means:
RFC 1951 as a recursive function over the whole input. The other modules follow the C code: `huft_build`
in place in its table space, the bit buffer with push-back, the circular window, the fast path, and the
two resumable state machines. `Strict.dfy` is the same without the one leniency that the C code has. What the
recursive function reads is checked from the other side: `Encoder.dfy` writes streams from blocks, tokens and
code lengths, and `Decoder.ReadIffWritten` says that a stream is read to its end exactly if it can be written so,
and then gives what was written. `Alphabets.dfy` says what the symbols stand for without the tables. In every state a machine can be suspended in, its `Meaning` is what the
rest of the stream leads to, and every step keeps it. `InflateRun.Inflate` joins this up over whole runs
in which input and output space arrive in any pieces. The fast path and the states of the slow path are
both proved against the same reference, symbol by symbol, so they agree with each other. `inftrees.h` says of
its table space of 1440 entries that the actual maximum is not known; `HuftSpace.dfy` proves a bound for every
code, and `InflateTrees.SmallTables` that 1222 entries are enough for any two codes that are accepted.

**Disk images**: `compress_volume` writes, `restore` reads back, over any bitmap, any number of files, any
way decompression hands its output over, and passes that fail and are repeated. The header text is printed
and scanned byte by byte. Neither program stops at a read or write error, and neither does the model.

**The boot-time read stack**: BIOS reads with their fallback, the one-track cache, partitions, block lists,
FAT chains, the ext2 block map, a TFTP client against an unreliable network, and the free-space scan and
memory map beside them. Each layer keeps a cache; each theorem says when the cache cannot be seen. Block
lists and FAT run over the modelled `devread`, and so over the partition, the track cache and the BIOS below it.

## What turned out to be false of the code

- The tables that `huft_build` makes do not decode every complete code for every table width. If the first
  code under some whole number of levels needs more than one further table, the table in between is made
  too wide and some lookup reads an entry that was never written. `HuftTables.Skips` is this condition on
  the lengths and the width. `HuftBuild.Build` states both directions: without a skip the tables decode
  the code, with one a lookup reads old memory; `HuftSkip.OldEntriesFail` concludes that in cleared
  memory decoding then fails, and `HuftSkip.SkipExample` is a complete code of five symbols with a skip.
  The calls that `inflate_trees_*` make never skip (`InflateTrees.NeverSkips`).
- Where the code-length code is a single code of one bit, either bit stands for it: an invalid entry keeps
  the base of the last symbol and DTREE does not look at the operation. `Deflate.ReadLength` says so. This
  matters for no stream that RFC 1951 gives a meaning: `Strict.BlocksSame` compares the decoder with a strict
  one on all inputs, and they differ only in that bad data in the header of a dynamic block may be taken for
  data that stops short. `Strict.CompleteIsStrict` has them equal for complete code-length codes;
  `Strict.LenientExample` is a stream of four bytes for which they part.
- A `get_diskinfo` that fails still stores what the registers hold. `rawread` then returns with the old drive
  and track still marked as cached, and the next read of that drive can take stale memory for the disk
  (`TrackCache.StaleTrackExample`). `TrackCache.Cache.RawRead` states when the cache stays right: exactly if no
  drive was cached or the geometry left behind agrees with its own. Resetting `buf_drive`, as the command line
  does before every command, repairs it (`TrackCache.Cache.Invalidate`).
- `tftp_read` past the end of a file reports 0 although bytes were copied, exactly when the end was not
  yet buffered and the size of the file is a multiple of the buffer's (`Tftp.Client.Read`); a file of the
  buffer's size over a faultless network shows it (`Tftp.ShortCountExample`).
- `tftp_read` at a position before the buffer, other than 0, reads the file again up to the buffer of that
  position, forgets to note that it is full, and goes on with the next. It delivers nothing if the position is
  less than 4096 bytes before the end of its buffer (`BUFFERSIZE` is a difference without parentheses); otherwise
  the bytes up to the end of that buffer come from the memory below it, and all others are right
  (`Tftp.Client.Read`, `Tftp.BackwardExample`).
- After a transfer that was given up, `tftp_read` starts again from the beginning of the file. Then it delivers
  nothing for a position behind the first buffer (`Tftp.LostExample`), and counts twice what it had copied before
  (`Tftp.CountExample`); what it does deliver is right.
- `ext2fs_block_map` takes an entry of 0xFFFFFFFF in a double indirect block for the mark of an empty cache.
  If the second cache is empty, and only then, it returns what the buffer happens to hold; otherwise it fails,
  as it should (`Ext2Map.Volume.BlockMap`, `Ext2Map.PoisonExample`).
- `ext2fs_read` reads block 0 of the file system where a file has a hole. `Ext2Map.Volume.Read` states that,
  where no entry of 0xFFFFFFFF leads it astray, it delivers the file exactly if the disk happens to hold zero
  wherever it looks for a byte in a hole; `Ext2Map.HoleExample` is a file for which it does not.
- `fat_read` does not mask FAT32 entries to 28 bits; `FatChain.ClassifyIsMeaning` says exactly when that
  matters, `FatChain.TopBitExample` is such an entry, and `FatChain.ChainIsTrue` lifts the agreement to whole
  chains.
- The seeks at the end of a file of an image are not checked, when saving or when restoring. If such a seek
  goes past the end of the disk, the next file begins just behind the last mark of the one before it. What
  comes then is not noticed, as long as the marks of every file are on the disk, counted from where it begins:
  this is exactly when `DiskImage.Save` and `ImageRestore.Restore` report no errors, and they state what is
  read and written then. It is right exactly if every marked sector exists; `DiskImage.ReachedInPlace` says
  that this means that every file with a mark begins in its place. In `ImageRestore.MisplacedExample`
  everything is reported well, and a sector that is not marked holds another's contents. The comment in the
  source, that the next write will check the bounds, is not so.
- After a seek that fails, `flushToDisk` writes the sector to wherever the disk is, over a sector that is not
  marked (`ImageRestore.WrongPlaceExample`). `ImageRestore.Restorer.RestoreFile` states exactly when: a marked
  place is missing, and neither the last place of the disk nor the one behind it is marked. If it does not
  happen, every place that exists is as it should be, errors or not. The error is reported and the restoration
  goes on; the comment above `ui_seek_error` calls it fatal, the code does not make it so.
- `mmap_avail_at` takes a range of memory that reaches the end of the address space for one without an end.
  It sees the memory as it is exactly if there is none (`MemoryMap.CoveredIsMemory`); `MemoryMap.WrapExample`
  is a map in which it finds nothing.

## Conventions

- Bit strings are sequences of booleans in stream order; `Lsb` is their value as a table index, `Msb` their
  value as a code of section 3.2.2 of RFC 1951. The bit buffer is a 32-bit word.
- The window has 2^15 bytes. `hist` is what the window held at the start, then all output, so that any
  distance up to the window size has a meaning. `InflateRun.BlocksAfter` shows that a stream which does not
  refer back past its own beginning does not depend on what was there.
- Compressed input is one contiguous array, handed over piece by piece.
- The local copies `b`, `k`, `n`, `p`, `q`, `m` of the C functions and the fields they are saved to are one
  variable each. The pointers `u[]` and `x[]` are sequences of indices.
- Which disk reads fail, which packets arrive and how much `inflate` produces are decided by scripts that
  the theorems quantify over.

## Model

| member | source | states |
|---|---|---|
| `Canonical.CodesArePrefixFree` | bootloader/inftrees.c:193-206 | the codes of section 3.2.2 of RFC 1951, which the loop counts through, are prefix free, for all lengths that fit |
| `HuftTables.WalkReachesLeaf` | bootloader/infcodes.c:121-148 | if every entry is right, following links as LEN and DIST do ends at the leaf of the code that starts the bits |
| `HuftTables.BuiltDecodes` | bootloader/infcodes.c:121-148 | then looking up any bits ends at the entry of the symbol whose code starts them and drops exactly its length; bits that start no code end at an invalid entry |
| `HuftTables.CompleteNeverSkips` | bootloader/inftrees.c:210-250 | a complete code of fewer than 2^(l+1) symbols skips no level |
| `HuftTables.SingleTableNeverSkips` | bootloader/inftrees.c:162-164 | nor does one that fits a single table |
| `HuftLayout.OpenKeepsInv` | bootloader/inftrees.c:210-250 | opening and linking a table keeps the invariant: entries before the current place in code space right, tables apart, path to the next code linked |
| `HuftLayout.AdvanceKeepsInv` | bootloader/inftrees.c:267-284 | filling the entries of a code, stepping to the next and backing up keeps it |
| `HuftLayout.SuccKeepsPath` | bootloader/inftrees.c:272-284 | after the backward increment, the tables left by backing up are exactly those on the path of the next code |
| `HuftSkip.HoleConsulted` | bootloader/inftrees.c:210-250 | the table made for a code that skips a level has an entry that is never written and that some lookup from the root reads |
| `HuftSkip.InTurnNeverSkips` | bootloader/inftrees.c:210-250 | tables that were each opened by a code ending in them mean that no level is skipped |
| `HuftSkip.OldEntriesFail` | bootloader/inftrees.c:210-250 | in cleared memory, tables that read old entries do not decode the code |
| `HuftSkip.SkipExample` | bootloader/inftrees.c:210-250 | lengths 1,3,3,3,3 are a complete code and skip a level with tables of one bit |
| `HuftSpace.OpenKeepsThrifty` | bootloader/inftrees.c:212-249 | every table but the root is paid for by one length of code: the space taken never exceeds what the codes laid out so far pay for |
| `HuftSpace.StepKeepsThrifty` | bootloader/inftrees.c:272-284 | stepping to the next code and backing up keeps this |
| `HuftSpace.WithinSpace` | bootloader/inftrees.c:232-236 | so a code that skips no level never takes more than `Space` |
| `HuftSpace.CompleteSpace` | bootloader/inftrees.c:232-236 | for a complete code, that is at most the root, one entry for each symbol, and a sum that depends on the greatest length and the width alone |
| `HuftBuild.CountLengths` | bootloader/inftrees.c:132-141 | the number of codes of each length |
| `HuftBuild.LengthRange` | bootloader/inftrees.c:150-164 | the least and the greatest length in use |
| `HuftBuild.Leftover` | bootloader/inftrees.c:167-173 | over-subscribed exactly if the Kraft sum exceeds one; otherwise the number of dummy codes that complete the set |
| `HuftBuild.SortSymbols` | bootloader/inftrees.c:176-190 | symbols in order of length and then of number |
| `HuftBuild.ChooseWidth` | bootloader/inftrees.c:215-230 | the table is wide enough for the code, and if narrower than l bits it has room for every code below it; it is paid for by its codes, by a greater length, or by the last length it shows |
| `HuftBuild.OpenTable` | bootloader/inftrees.c:212-249 | a table is allocated, linked from the right entry, and the invariant kept; or there is no space, and then a level is skipped or less space is left than suffices for the code |
| `HuftBuild.LeafEntry` | bootloader/inftrees.c:252-265 | the entry carries the operation and base of the next symbol in order, or is invalid when they are used up |
| `HuftBuild.FillEntries` | bootloader/inftrees.c:267-270 | every f-th entry is replaced and no other |
| `HuftBuild.BackwardIncrement` | bootloader/inftrees.c:272-275 | on the reversed code this is adding one to the code |
| `HuftBuild.Backup` | bootloader/inftrees.c:277-284 | stops at the last table whose prefix the next code has |
| `HuftBuild.Build` | bootloader/inftrees.c:93-291 | Z_DATA_ERROR exactly if the Kraft sum exceeds one, Z_BUF_ERROR exactly if it is below and the longest code is not one bit, else Z_OK; the tables decode the code, unless a level is skipped, and then a lookup reads old memory; earlier table space is kept; without a skip, Z_MEM_ERROR only if less than `Space` is left, and no more than that is taken |
| `InflateTrees.TreesBits` | bootloader/inftrees.c:294-320 | Z_OK exactly for an acceptable code-length code, and one lookup in the table then reads its symbols |
| `InflateTrees.NeverSkips` | bootloader/inftrees.c:343-360 | codes of as few symbols as the two alphabets have skip no level at widths 9 and 6 |
| `InflateTrees.AcceptedSpace` | bootloader/inftrees.c:343-360 | the table space that an accepted code can take, from its number of symbols and the width |
| `InflateTrees.SmallTables` | bootloader/inftrees.h:28-33 | the two codes of a dynamic block, if accepted, take at most 1222 entries together, of 1440 |
| `InflateTrees.TreesDynamic` | bootloader/inftrees.c:323-385 | Z_OK exactly for acceptable literal and distance lengths, with tables that decode both; Z_DATA_ERROR and Z_MEM_ERROR only for others |
| `InflateTrees.TreesFixed` | bootloader/inftrees.c:406-463 | tables that decode the fixed codes of section 3.2.6 of RFC 1951 |
| `Window.CopyIsLZ77` | bootloader/infcodes.c:200-219 | each byte of a copy is the one `dist` positions before it, however far the two overlap |
| `Adler32.UpdateConcat` | bootloader/infutil.c:45-47 | checksumming x and then y is checksumming their concatenation |
| `Adler32.PlainIsFold` | bootloader/adler32.c:32-46 | reducing after many bytes comes to the same as reducing at every byte (section 2.2 of RFC 1950) |
| `Adler32.PlainFits` | bootloader/adler32.c:11-12 | from halves of 16 bits, no sum over NMAX bytes exceeds 32 bits |
| `Adler32.ChecksumIs` | bootloader/adler32.c:25-48 | the low half is one more than the sum of the bytes, the high half adds each byte as often as there are bytes from it on, both modulo the base |
| `Adler32.BaseIsPrime` | bootloader/adler32.c:10 | the base is the greatest prime below 65536 |
| `Adler32.Compute` | bootloader/adler32.c:21-48 | the checksum of the byte-by-byte definition, for every buffer |
| `Window.Window.Flush` | bootloader/infutil.c:23-87 | delivers as much of what is pending as the caller takes, in order; written bytes are delivered plus pending; the check is the Adler-32 of exactly the delivered ones |
| `Window.Window.Wrap` | bootloader/infutil.h:80 | the same place in the window, with room counted anew |
| `Window.Window.NeedOut` | bootloader/infutil.h:82 | there is room for a byte, or the caller's space is used up |
| `Window.Window.OutByte` | bootloader/infutil.h:83 | the byte is appended to the history; the writer does not overtake the reader |
| `Window.Window.CopyString` | bootloader/infcodes.c:200-219 | what is written and what is left to copy together are the LZ77 copy, also when suspended |
| `Window.Window.CopyFast` | bootloader/inffast.c:94-117 | the LZ77 copy, across the end of the window and with overlap |
| `BitReader.BitReader.NeedBits` | bootloader/infutil.h:73-75 | the bit position does not move; enough bits are in the buffer or the input is used up; bits left above the valid ones agree with the input |
| `BitReader.BitReader.DumpBits` | bootloader/infutil.h:76 | the bit position moves by exactly that many |
| `BitReader.BitReader.Low` | bootloader/infcodes.c:163 | the low bits are the field of the input at the bit position |
| `BitReader.BitReader.Ungrab` | bootloader/inffast.c:21 | bytes are handed back without moving the bit position |
| `InflateCodes.LiteralMeaning` | bootloader/infcodes.c:121-159 | what a literal/length entry says is what the reference decoder does with the same bits |
| `InflateCodes.DistanceMeaning` | bootloader/infcodes.c:169-192 | the same for a distance entry |
| `InflateCodes.Fast` | bootloader/inffast.c:28-172 | the reference decoder's outcome from here is the same before and after; end of block and bad data are reported where it finds them |
| `InflateCodes.CodesState.StepStart` | bootloader/infcodes.c:104-120 | fast path or not, the meaning of the rest of the block is kept |
| `InflateCodes.CodesState.StepLen` | bootloader/infcodes.c:121-159 | keeps it through every lookup, also in the middle of a symbol |
| `InflateCodes.CodesState.StepLenExt` | bootloader/infcodes.c:160-168 | keeps it over the extra bits of a length |
| `InflateCodes.CodesState.StepDist` | bootloader/infcodes.c:169-192 | keeps it through every distance lookup |
| `InflateCodes.CodesState.StepDistExt` | bootloader/infcodes.c:193-199 | keeps it over the extra bits of a distance |
| `InflateCodes.CodesState.StepCopy` | bootloader/infcodes.c:200-219 | keeps it over a copy, finished or not |
| `InflateCodes.CodesState.StepWash` | bootloader/infcodes.c:225-236 | hands back at most a byte and ends only when all output is delivered |
| `InflateCodes.CodesState.Run` | bootloader/infcodes.c:81-250 | keeps it over a whole call, which ends only at the end of the block, on bad data, or for want of input or output space |
| `InflateBlocks.DynamicIs` | bootloader/infblock.c:218-239 | the 14-bit header splits into the counts that section 3.2.7 of RFC 1951 sends |
| `InflateBlocks.AllSent` | bootloader/infblock.c:241-249 | the order of the code-length code is a permutation: sent and cleared lengths are all of them |
| `InflateBlocks.LookUpLength` | bootloader/infblock.c:271-275 | one lookup with enough bits reads a symbol of the code-length code |
| `InflateBlocks.BlocksState.StepType` | bootloader/infblock.c:139-185 | the block header; a stored block begins at the next byte boundary |
| `InflateBlocks.BlocksState.StepLens` | bootloader/infblock.c:186-200 | bad exactly if the length and its complement disagree |
| `InflateBlocks.BlocksState.StepStored` | bootloader/infblock.c:201-217 | moves as many bytes as input, window and block allow |
| `InflateBlocks.BlocksState.StepTable` | bootloader/infblock.c:218-240 | bad exactly if there are too many symbols |
| `InflateBlocks.BlocksState.StepBTree` | bootloader/infblock.c:241-263 | the code-length code, whatever each cell of allocated memory held |
| `InflateBlocks.BlocksState.ReadRepeat` | bootloader/infblock.c:281-310 | repeats of the last length or of zero, across both codes; bad if too long or nothing to repeat |
| `InflateBlocks.BlocksState.StepDTree` | bootloader/infblock.c:264-336 | the lengths of both codes and their tables; table space runs out only on bad data |
| `InflateBlocks.BlocksState.StepCodes` | bootloader/infblock.c:337-352 | a finished block leads to the next one or to the end |
| `InflateBlocks.BlocksState.StepDry` | bootloader/infblock.c:353-357 | the end is reached only when everything is delivered |
| `InflateBlocks.BlocksState.Run` | bootloader/infblock.c:120-368 | over a whole call the meaning of the rest of the stream is kept; it ends only at the end, on bad data, for want of table space and then on bad data too, or for want of input or output space |
| `InflateRun.BlocksAfter` | bootloader/infblock.c:28-30 | a stream that does not refer back past its beginning means the same whatever was in the window |
| `Bits.LittleEndian` | bootloader/infutil.h:75 | bytes arrive lowest bit first and lowest byte first: four of them are the number of 32 bits they spell |
| `Alphabets.TilesOnce` | bootloader/inftrees.c:41-53 | where symbols cover numbers one behind the other, every number is said by exactly one symbol |
| `Alphabets.LengthCodes` | bootloader/inftrees.c:41-46 | the length symbols say the lengths from 3 to 258 without a gap, 285 says 258; the number of extra bits by symbol |
| `Alphabets.LengthOnce` | bootloader/inftrees.c:41-46 | every length has exactly one symbol, 258 two |
| `Alphabets.DistanceCodes` | bootloader/inftrees.c:47-53 | the thirty distance symbols say the distances from 1 to 32768 without a gap; the number of extra bits by symbol |
| `Alphabets.OrderIs` | bootloader/infblock.c:19-20 | the repeats and zero come first, then the lengths from 8 on, alternately upwards and downwards |
| `Alphabets.FixedLiteral` | bootloader/inftrees.c:432-441 | the fixed codes of literals and lengths are the numbers that section 3.2.6 of RFC 1951 lists |
| `Alphabets.FixedDistance` | bootloader/inftrees.c:446-449 | the fixed code of a distance symbol is its number in five bits |
| `Encoder.CodesRoundTrip` | bootloader/infcodes.c:101-193 | literals and matches in any two codes, followed by the end of block, are read back, and nothing behind them is |
| `Encoder.LengthsRoundTrip` | bootloader/infblock.c:264-316 | code lengths sent with any choice of repeats are read back, repeats across the boundary included |
| `Encoder.OrderRoundTrip` | bootloader/infblock.c:238-249 | so are the lengths of the code-length code, sent in their own order |
| `Encoder.HeaderRoundTrip` | bootloader/infblock.c:219-336 | a dynamic block has the two codes that its header was written for |
| `Encoder.BlockRoundTrip` | bootloader/infblock.c:139-336 | each kind of block is read back as what was written |
| `Encoder.StreamRoundTrip` | bootloader/infblock.c:120-368 | every stream that can be written, with any blocks in any codes, is read to its end and gives what was written |
| `Encoder.TwelveExample` | bootloader/infcodes.c:101-193 | the stream 75, 68, 2, 0 stands for twelve times the letter a |
| `Decoder.CodesThere` | bootloader/infcodes.c:101-193 | a block read to its end consists of literals and matches in its codes |
| `Decoder.HeaderThere` | bootloader/infblock.c:219-336 | the header of a dynamic block read to its end was written for its codes, which are acceptable |
| `Decoder.StreamThere` | bootloader/infblock.c:120-368 | the blocks that a stream read to its end was written from |
| `Decoder.ReadIffWritten` | bootloader/infblock.c:120-368 | a stream is read to its end exactly if it can be written by section 3.2 of RFC 1951, and then ends where its bits end and gives what was written |
| `Strict.CompleteReadsAll` | bootloader/inftrees.c:167-173 | a complete code has a symbol for any bits |
| `Strict.CompleteIsStrict` | bootloader/infblock.c:271-275 | with a complete code-length code the decoder reads what the RFC says |
| `Strict.OneCodeIsBad` | bootloader/infblock.c:264-336 | with a single one, the lengths it reads are never those of an acceptable code |
| `Strict.BlocksSame` | bootloader/infblock.c:264-336 | the decoder agrees with the strict one on every stream, except that bad data in the header of a dynamic block may be taken for data that stops short |
| `Strict.LenientExample` | bootloader/infblock.c:271-275 | a stream of four bytes that is bad by the RFC, and that the decoder takes for one that stops short |
| `InflateRun.Inflate` | bootloader/infblock.c:120-368 | however input and output space are handed out: what is delivered is a prefix of the RFC 1951 output; at Z_STREAM_END it is all of it and the input is used up to the byte after it; Z_DATA_ERROR and Z_MEM_ERROR only for bad streams; a good stream with four bytes behind it never leaves the decoder waiting for input; the check is that of the output; all this against the lenient and the strict reading, and against what was written: for every stream that can be written, and no other stream that keeps to its own output is reported to end |
| `ImageHeader.AllocRoundTrip` | tools/revosave/compress.c:389-390 | the printed length of the bitmap is found and read back |
| `ImageHeader.BlocksRoundTrip` | tools/revosave/compress.c:350 | so is the number of files, from the first header |
| `ImageHeader.SectorsRoundTrip` | tools/revosave/compress.c:350 | and the number of sectors |
| `ImageHeader.FormatsAre` | tools/revosave/compress.c:350-390 | the texts are those of the two formats, letter by letter |
| `ImageHeader.NoBlocks` | tools/autorestore/autorestore.c:522-531 | later headers do not change it |
| `DiskImage.KeptAt` | tools/revosave/compress.c:404-438 | a marked sector is found in the data by the number of marks before it |
| `DiskImage.FileLayout` | tools/revosave/compress.c:386-438 | 2048 bytes of text, the bitmap, and from byte 24064 on one sector for each mark, each found by the marks before it |
| `DiskImage.BaseInPlace` | tools/revosave/compress.c:446-453 | if every marked sector exists, every file begins in its place or has no marks |
| `DiskImage.BaseLow` | tools/revosave/compress.c:446-453 | no file begins after its place |
| `DiskImage.ReachedInPlace` | tools/revosave/compress.c:446-453 | when there are no errors: every marked sector exists exactly if every file with a mark begins in its place |
| `DiskImage.ImageOfWhole` | tools/revosave/compress.c:404-453 | the files saved are those of the image exactly if every marked sector exists |
| `DiskImage.Saver.Fetch` | tools/revosave/compress.c:421-427 | the sector asked for, or an error that is counted and something else in its place |
| `DiskImage.Saver.SaveBit` | tools/revosave/compress.c:416-437 | `cbytes` counts all sectors passed and the data grows by one sector for each mark, errors or not; errors are counted exactly if a marked sector is missing; without them, sectors passed over are read or about to be skipped and what was read is compressed or buffered |
| `DiskImage.Saver.SaveFile` | tools/revosave/compress.c:361-455 | no errors exactly if all marked sectors exist; then the file is header, padded bitmap and marked sectors, and the disk is left behind the bitmap if that is on it, else behind the last mark; in any case the file is header, bitmap and as many sectors as are marked, and `cbytes` grows by 4096 for each byte of bitmap |
| `DiskImage.Save` | tools/revosave/compress.c:326-457 | no errors exactly if the marks of every file are on the disk, counted from where it stands when the file begins; then each file holds the sectors from there; the files are the image of the bitmap exactly if every marked sector exists; in any case they have its shape and the byte count is 4096 times its length |
| `ImageRestore.PaintedTwice` | tools/autorestore/autorestore.c:579-594 | restoring over a half restored disk gives what restoring at once does |
| `ImageRestore.Restorer.Put` | tools/autorestore/autorestore.c:418-427 | the sector goes to its place if that exists; if not, one or two errors are counted, and it goes to where the disk is if the seek failed before its end, or else nowhere |
| `ImageRestore.Restorer.PutSector` | tools/autorestore/autorestore.c:402-435 | one mark further: before the first missing place the disk is painted up to the mark; after it, either a sector has gone to a place that is not marked and stays there, or the disk is at its end and all of it as it should be |
| `ImageRestore.Restorer.FlushToDisk` | tools/autorestore/autorestore.c:402-435 | the same for the next sectors; an error is counted exactly if a marked place does not exist, and all marks are passed nevertheless |
| `ImageRestore.Restorer.Pass` | tools/autorestore/autorestore.c:470-576 | a pass, with output in any pieces, ends with everything passed, or fails with a part of it; unless a sector goes astray, marked places that exist have their sectors or are as before, and nothing else has changed |
| `ImageRestore.Restorer.RestoreFile` | tools/autorestore/autorestore.c:477-612 | errors in the last pass exactly if a marked place is missing; sectors that go to places not marked exactly if, besides, neither the last place of the disk nor the one behind it is marked, and then which and where; otherwise, after any number of failed passes, every place is as after one clean pass; without errors the disk is left behind the bitmap if that is on it, else behind the last mark |
| `ImageRestore.Restore` | tools/autorestore/autorestore.c:441-620 | for any number of files, with stale files behind them: no errors exactly if the marked places of every file are on the disk, counted from where it stands when the file begins; then the sectors are there, and the disk is left at a stated place; every marked place exists with its sector, and no other place has changed, exactly if every marked place exists |
| `ImageRestore.LaidIsRight` | tools/autorestore/autorestore.c:598-610 | files laid one after the other are each in their place if every marked place exists |
| `ImageRestore.RoundTrip` | tools/revosave/compress.c:326-457 | saving and restoring on any two disks: when each half has errors, what the target then holds, and that target place start+s holds source sector s wherever bit s is set, and all else is left alone, exactly if every marked sector exists on both disks |
| `ImageRestore.WrongPlaceExample` | tools/autorestore/autorestore.c:402-435 | a disk too small: the sector for the missing place is written over one that is not marked |
| `ImageRestore.MisplacedExample` | tools/autorestore/autorestore.c:598-610 | two files on a disk of two sectors: no errors, and sector 1, which is not marked, holds the sector that belongs 176128 sectors behind the start |
| `Tftp.Network.UdpGet` | bootloader/pxe.c:801-812 | at every moment of every run with loss, duplication and reordering, only sent blocks arrive, the server is at most one block ahead, and only accepted blocks are acknowledged; on a faultless network the next block arrives |
| `Tftp.Client.Accept` | bootloader/pxe.c:860-885 | the accepted bytes are exactly the first `nextpacket` blocks; the end is noted exactly with the final short block |
| `Tftp.Client.Receive` | bootloader/pxe.c:799-885 | the block asked for next is accepted, the last one is acknowledged again, anything else ends the transfer; nothing but the block accepted last is ever acknowledged |
| `Tftp.Client.Get` | bootloader/pxe.c:792-888 | the bytes delivered are the next ones after those accepted before, `basepos` is their offset, and they are all that was asked for unless the file ends; it gives up only on silence, a packet without data or a wrong block number, and never on a faultless network |
| `Tftp.Client.Refill` | bootloader/pxe.c:1012-1018 | the buffer is the file slice that follows the last one |
| `Tftp.Client.ReadOnce` | bootloader/pxe.c:970-1041 | exactly the file's bytes at the position, for any position from the start of the buffer up to a buffer's length on; when the count is 0 nevertheless; -1 for a transfer that was given up |
| `Tftp.Client.Rewind` | bootloader/pxe.c:952-965 | reading from the start again ends with the buffer that the position is in |
| `Tftp.Client.ReadRewound` | bootloader/pxe.c:964-1019 | what is read after that: nothing, or memory from below the buffer up to its end |
| `Tftp.Client.ReadGarbled` | bootloader/pxe.c:970-1041 | a position before the buffer taken as one in it: which bytes come from below it, and that all others are the file's |
| `Tftp.Client.Retransmit` | bootloader/pxe.c:926-930 | new requests until one is served: the file's bytes for a position in the first buffer, else nothing, and a count that includes what was copied before |
| `Tftp.Client.Read` | bootloader/pxe.c:917-1041 | for every position and every course of events: in or behind the buffer by at most a buffer's length, and at 0, exactly the file's bytes; further on, nothing; before it, nothing, or that many bytes of which it is said which are the file's and what the others are; after transfers that were given up, the file's bytes for a position in the first buffer, else nothing; the count in each case; on a faultless network no transfer is given up |
| `Tftp.ShortCountExample` | bootloader/pxe.c:1021-1041 | a whole file is copied and 0 reported |
| `Tftp.BackwardExample` | bootloader/pxe.c:936-966 | the second byte of a file, read after a byte of the second buffer, comes from below the buffer |
| `Tftp.CountExample` | bootloader/pxe.c:1011-1016 | two bytes are delivered and three reported |
| `Tftp.LostExample` | bootloader/pxe.c:926-979 | nothing is delivered in the middle of a file |
| `TrackCache.NextAddress` | bootloader/bios.c:92-98 | sectors follow each other within a track, from head to head and from cylinder to cylinder |
| `TrackCache.AddressRoundTrip` | bootloader/bios.c:92-98 | cylinder, head and sector name the same sector as the linear address |
| `TrackCache.BiosDisk` | bootloader/bios.c:46-113 | on success the sectors asked for, by either way; every request stays within one track; which outcome, whether the extensions are switched off and which calls were made, for any calls that fail |
| `TrackCache.SwitchedOff` | bootloader/bios.c:83-91 | the extensions are switched off exactly if they were on and their call failed |
| `TrackCache.TryTolerates` | bootloader/bios.c:83-91 | if one call fails, a read with the extensions succeeds nevertheless, by cylinder, head and sector |
| `TrackCache.Cache.Fill` | bootloader/disk_io.c:131-186 | the buffer holds what is needed of the current track, and a track marked as present is whole unless the loop goes on to the next; for any calls that fail, which error, track and geometry are left |
| `TrackCache.Cache.RawRead` | bootloader/disk_io.c:105-215 | from a cache that is right, or on another drive, a successful read returns exactly the disk's bytes; the cache is right afterwards, except when `get_diskinfo` failed, and then exactly if no drive was cached or the geometry left behind agrees; with a BIOS that does not fail, sectors that exist and have a cylinder are read; for any calls that fail, the error, the drive, the track, the geometry and the calls made are those of `Reading` |
| `TrackCache.ReadingTolerates` | bootloader/disk_io.c:131-186 | one call that fails does no harm to a read with the extensions, nor to one that ends in the track it begins in |
| `TrackCache.ReadingErrors` | bootloader/disk_io.c:150-178 | errors are of reading or of geometry, the latter only for a sector without a cylinder |
| `TrackCache.FallbackExample` | bootloader/bios.c:83-91 | the second call made fails, and sectors 17 and 18 of a disk of 72 are read |
| `TrackCache.Cache.Invalidate` | bootloader/cmdline.c:228-232 | whatever geometry was left behind, dropping the drive makes the cache right |
| `TrackCache.StaleTrackExample` | bootloader/disk_io.c:121-130 | a read of a floppy that succeeds with bytes that are not on it, after a hard disk that did not answer |
| `TrackCache.Cache.WriteBack` | bootloader/disk_io.c:328-336 | after a write the cache still agrees with the disk |
| `TrackCache.Cache.DevRead` | bootloader/disk_io.c:218-255 | the bytes of the partition at any offset; success implies that the range is inside it; a range outside is refused; inside, with a BIOS that does not fail, sectors that can be reached are read; for any calls that fail, the outcome of `Reading` |
| `BlockList.DenotesOnce` | bootloader/disk_io.c:1293-1305 | extents laid end to end have one disk sector at every place |
| `BlockList.DenotesSome` | bootloader/disk_io.c:1293-1305 | and not none: every place before the end has exactly one |
| `BlockList.BlockFile.RunUp` | bootloader/disk_io.c:1391-1409 | the cursor denotes its sector of the extents, and may overshoot the position but not its sector |
| `BlockList.BlockFile.Seek` | bootloader/disk_io.c:1384-1409 | from any place of the cursor, also behind the position, the sector of the position is reached |
| `BlockList.BlockFile.ReadExtent` | bootloader/disk_io.c:1411-1426 | one `devread` delivers the bytes of the extents at the position |
| `BlockList.BlockFile.Read` | bootloader/disk_io.c:1353-1435 | over the partition, the track cache and the BIOS: any mix of seeks and reads delivers the bytes of the extents, with position and length clipped to the file; with a BIOS that does not fail and extents that can be reached, it succeeds |
| `FatChain.ClustersTile` | bootloader/fsys_fat.c:240-242 | cluster 2 is at the start of the data area, each cluster follows the one before it, and no two overlap |
| `FatChain.EntriesTile` | bootloader/fsys_fat.c:202-203 | the entry of cluster 0 is at the start of the FAT, and each entry follows the one before it |
| `FatChain.EntryIsBits` | bootloader/fsys_fat.c:218-226 | an entry is the number in its 12, 16 or 32 bits, lowest first |
| `FatChain.EofMarkerIs` | bootloader/fsys_fat.c:133-149 | the last eight values of 12, 16 and 28 bits end a chain |
| `FatChain.ExtractIs` | bootloader/fsys_fat.c:218-226 | reading 32 bits, shifting and masking gives the 12, 16 or 32 bit entry at any half-byte; memory behind the buffer does not matter |
| `FatChain.ClassifyIsMeaning` | bootloader/fsys_fat.c:218-234 | the entry is understood rightly, except for FAT32 entries with top bits set, and exactly for which of those |
| `FatChain.TopBitExample` | bootloader/fsys_fat.c:218-234 | entry 0x10000002 points to cluster 2 and is taken for the end |
| `FatChain.ChainIsTrue` | bootloader/fsys_fat.c:200-238 | if no FAT32 entry has a top bit set, the chain followed is the chain of the file, link for link |
| `FatChain.Fat.ReadEntry` | bootloader/fsys_fat.c:202-226 | the entry on disk, whatever the window holds; it needs no disk if the entry is in the window |
| `FatChain.Fat.Follow` | bootloader/fsys_fat.c:200-238 | reaches the link of the chain asked for, or reports its end or its corruption |
| `FatChain.Fat.Read` | bootloader/fsys_fat.c:189-260 | over the partition, the track cache and the BIOS: without an error, the slice of the concatenated cluster chain, shorter only where the chain ends, from any cached state; with one, the count is zero unless the chain ends behind that many bytes, since a failed read of data does not stop it; with a BIOS that does not fail and sectors that can be reached, the only error is a corrupt chain |
| `FatChain.Fat.ReadRoot` | bootloader/fsys_fat.c:177-187 | the root directory of FAT12 and FAT16: its bytes at the position, and behind its end a negative count, or none if the end is outside the partition |
| `Ext2Map.PathRoundTrip` | bootloader/fsys_ext2fs.c:312-388 | every block up to 12+A+A²+A³ has one path with all indices in bounds, and the path leads to it |
| `Ext2Map.NumberRoundTrip` | bootloader/fsys_ext2fs.c:312-388 | no two paths lead to one block and none past the end |
| `Ext2Map.EntryIs` | bootloader/fsys_ext2fs.c:333 | an entry of an indirect block is the number in the 32 bits at its place, lowest first |
| `Ext2Map.Volume.BlockMap` | bootloader/fsys_ext2fs.c:289-389 | the cached walk gives what the walk without caches gives, except behind an entry of 0xFFFFFFFF: there, without read errors, it returns stale data exactly if the second cache is empty, and says which; elsewhere it fails only where the uncached walk does |
| `Ext2Map.EntryExample` | bootloader/fsys_ext2fs.c:319-334 | block 12 is block 2 of the disk if the indirect block begins with 2, 0, 0, 0 |
| `Ext2Map.Volume.LoadInode` | bootloader/fsys_ext2fs.c:549-555 | a new inode drops both caches |
| `Ext2Map.Volume.DirBlock` | bootloader/fsys_ext2fs.c:725-731 | reading a directory block through the second buffer keeps the caches right, whatever block it is |
| `Ext2Map.Volume.Read` | bootloader/fsys_ext2fs.c:392-460 | every byte delivered is the one at its place, unless an entry of 0xFFFFFFFF leads to it; otherwise what is delivered is the file exactly if the disk holds zero at the place of every byte in a hole, and so if there are no holes; it stops early only at a block without a place, and without read errors it fails only where a place is not on the disk |
| `Ext2Map.Volume.ReadIsFile` | bootloader/fsys_ext2fs.c:422-440 | what was read is the file exactly if the disk holds the file's byte at every place |
| `Ext2Map.PoisonExample` | bootloader/fsys_ext2fs.c:340-360 | a disk with blocks of 1024 bytes and an inode for which the cached walk to block 268 returns a block and the uncached one none |
| `Ext2Map.HoleExample` | bootloader/fsys_ext2fs.c:422-440 | a hole that is read as the contents of block 0 |
| `XfsFreeSpace.GroupsTile` | tools/revosave/image_xfs.c:99-101 | a block number divided by the size of a group gives the group, and the remainder the block in it |
| `XfsFreeSpace.AddToHist` | tools/revosave/image_xfs.c:109-121 | the bytes of the extent are cleared and no others |
| `XfsFreeSpace.ScanFreelist` | tools/revosave/image_xfs.c:123-143 | clears exactly the blocks in the circular interval from first to last |
| `XfsFreeSpace.ScanTree` | tools/revosave/image_xfs.c:145-151 | clears exactly the blocks of leaf extents reachable from the root |
| `XfsFreeSpace.ScanBlock` | tools/revosave/image_xfs.c:153-180 | the same for one node, leaf or inner |
| `XfsFreeSpace.CountUsed` | tools/revosave/image_xfs.c:241-242 | eight times the number of blocks kept |
| `XfsFreeSpace.ClaimedIs` | tools/revosave/image_xfs.c:243-255 | the sectors claimed are eight for each block that is not free, and too many for any disk if more are free than there are |
| `XfsFreeSpace.ReadSuperblock` | tools/revosave/image_xfs.c:183-256 | a byte is 0 exactly if its block is on a free list or in an extent of some group, else 255; succeeds exactly if no group lacks its magic number and the count is not below the one the superblock claims, in 64 bits |
| `XfsFreeSpace.ScanExample` | tools/revosave/image_xfs.c:183-256 | two groups, a free list that goes round and a leaf in the second group: which three bytes of 200 are 0 |
| `MemoryMap.EndingAboveDrops` | bootloader/common.c:119-134 | every productive step lowers the number of ranges that end above `top` |
| `MemoryMap.CoveredIsMemory` | bootloader/common.c:127-130 | the code sees the memory as it is exactly if no range of memory reaches the end of the address space |
| `MemoryMap.Top` | bootloader/common.c:111-136 | the least address from `bottom` on that no memory range covers, ends of ranges being taken in 64 bits |
| `MemoryMap.AvailAt` | bootloader/common.c:111-143 | the memory that begins at `bottom`, cut to 32 bits; of the map as it is, if no range wraps |
| `MemoryMap.WrapExample` | bootloader/common.c:127-130 | a map in which a range that wraps hides all memory |

## Left out

- InflateTrees.TreesFixed: builds the tables from the lengths of section 3.2.6 of RFC 1951, as the
  `BUILDFIXED` branch does; the generated constants of `inffixed.h` are not part of this model.
- InflateRun.Inflate: models `inflate_blocks` and everything below it; the zlib header and trailer of RFC
  1950, which `inflate.c` handles, are not part of this model.
- ImageRestore.Restore: compression is the identity on bytes; the checksum of the compressed stream and
  the index file are not part of this model.
- DiskImage.Save: after a read error, only the size and the header and bitmap of each file are described.
- ImageRestore.Restore: after an error in one file, the later files are not described.
- Tftp.Client.Read: after a read that delivered nothing because of its place in an earlier buffer, the window
  is not described.
- FatChain.Fat.Read: says nothing of the window after a failed read of the FAT.
- Ext2Map.Volume.Read: says nothing of the caches after a failed disk read, and reads the disk directly.
- XfsFreeSpace.ReadSuperblock: requires that extents and lists lie inside the file system, as the code does.
- Memory allocation and its failures: allocation always succeeds.
- Parsing of block lists, FAT and ext2 mounting and directory search: would only add easy members.
- The other bitmap builders, the menu, console, PXE discovery, socket and user interface code.
