# bzip2 and zlib, modelled and proved

A Dafny model of the two compression libraries that the server bundles, libbzip2 1.0.6 (`dep/bzip2`) and
zlib 1.2.8 (`dep/zlib`), with proofs that their fast forms mean what the simple forms mean and that each
decoder undoes its encoder. Loops over arrays stay loops over arrays, and objects whose fields the C code
updates are classes; every one of them is proved against a function or predicate over sequences, and the
theorems are about those.

| files | part of the system |
|---|---|
| `Permutations`, `Rotations`, `Bwt`, `BwtTables` | cyclic rotations, the Burrows-Wheeler transform, its inverse and the two decoding tables |
| `FallbackQSort`, `FallbackSort`, `MainGtU` | the block sorter: explicit-stack quicksort, prefix doubling, the quadrant cache |
| `InitialRle`, `BzCompress`, `BzDecode` | run-length coding before the sort, the compressor's stream state machine, the FAST and SMALL output loops |
| `MoveToFront`, `MtfCoding`, `GenerateMtf`, `SlicedMtf`, `MtfDecode` | move-to-front and zero-run coding, the overlaid symbol array, the 16x16 sliced list |
| `BinaryHeap`, `HuffmanLengths`, `BzTables`, `BzCodes`, `BzBits`, `BzSymbols`, `BzHeader` | bzip2's Huffman lengths, the choice of tables, codes, bit streams, the symbol decoder and the head of a block |
| `BlockRoundTrip`, `BzStream` | one bzip2 block and a whole stream, there and back |
| `Sequences`, `Powers`, `BitStrings`, `CanonicalCode`, `TableSize`, `InflateTable` | sequences and bit strings, canonical prefix codes, the two-level decoding table and how large it gets |
| `OptimalCode` | why Huffman's construction is optimal, used for both libraries |
| `TreeHeap`, `GenBitlen`, `GenCodes`, `BuildTree`, `CodeLengths` | deflate's tree construction, overflow repair, codes and code-length coding |
| `Lz77`, `DeflateHash`, `HashChains`, `DeflateParse`, `Deflate`, `InflateWindow`, `Inflate` | the LZ77 half of deflate and inflate: hash chains, which symbols deflate has to choose, the two matchers, the circular window |
| `DeflateBits`, `DeflateTokens`, `DeflateHeader` | deflate's bit streams, literals and matches as codes with extra bits, and the head of a dynamic block |
| `DeflateBlock`, `DeflateStream` | the trees of a dynamic block, and a stream of such blocks there and back |
| `DeflateInflate` | deflate and inflate composed |
| `Crc32`, `Adler32` | the checksums and their combine operations |

The main results, hardest first:

- **Block sort.** Prefix doubling over in-place buckets lists the rotations of every non-empty block in order
  (`FallbackSort.Sort`), for periodic blocks too, with an explicit stack that never holds more than 31 segments
  (`FallbackQSort.StackBounded`).
- **Burrows-Wheeler inversion** for any order of tied rotations (`Bwt.InversionTheorem`).
- **Length-limited Huffman.** bzip2's rescaling loop ends, with a complete code inside the limit, by a Fibonacci
  bound on subtree weights (`HuffmanLengths.MakeCodeLengths`); zlib's overflow repair ends with a complete code
  inside the limit (`GenBitlen.BitLengths`). In both, the lengths measured in the tree fill the code space exactly
  and no lengths that fit it have a lower total (`OptimalCode.TreeOptimal`); weights are halved, or lengths moved,
  only if such optimal lengths exceed the limit, and frequent symbols get no longer codes
  (`HuffmanLengths.ByFrequency`). zlib's codes decode through the two-level table
  (`BuildTree.Exchange`, `InflateTable.DecodeTheorem`), whose size is a function of the lengths: the 852 and 592
  entries that inflate reserves are never exceeded (`TableSize.SizeBound`, `InflateTable.Enough`).
- **LZ77.** Over every sequence of calls the tokens of the fast and the lazy matcher expand to the input, and no call
  stops short of what its flush mode promises unless output room was refused; every symbol is what the search at its
  place prescribes, and that search misses no string of the dictionary within reach and budget (`Deflate.Run`,
  `HashChains.WalkFinds`): a literal stands only where nothing is repeated, a match is the longest, and behind a full
  flush nothing reaches back over it (`DeflateParse.LiteralIsNew`, `MatchIsLongest`, `RestartPoint`). The circular
  window replays any symbols as far as the buffers go (`Inflate.Replay`); composed they are the identity
  (`DeflateInflate.RoundTrip`), also through the bits of any number of blocks, each with trees of its own that are
  sent and read back as bits themselves (`DeflateInflate.RoundTripBits`, `DeflateStream.RoundTrip`,
  `DeflateHeader.ReceiveHeader`, `DeflateTokens.Receive`).
- **A bzip2 stream.** Every run of calls that ends the stream comes back as the input, whatever the input is cut into
  on either side, in both decoder builds and for any output buffers, every block being the greedy run-length code of its
  text (`BzCompress.Run`): run-length coding, sort, column, move-to-front, choice of tables, Huffman codes, block and
  stream headers, and all their inverses (`BzStream.RoundTrip`).
- **Checksums.** CRC-32 by matrix squaring and Adler-32 with deferred, division-free modulo, both with combine
  (`Crc32.CombineChecksums`, `Adler32.CombineChecksums`); data with their CRC behind them leave the residue of the
  standard, and every change within four bytes shows (`Crc32.Residue`, `Crc32.BurstDetected`).

Two promises turned out to have a condition. `Adler32.Adler` takes any start value: the one-byte path gives the
checksum of the reduced start exactly when one subtraction is enough, and `Adler32.UnreducedStart` is an input for
which it is not. The FAST and SMALL decoders fill every buffer alike, but they notice that a run code is cut off at
the end of a block in the same call if and only if none is or no buffer ends exactly where the text ends
(`BzDecode.SameBytes`); `BzDecode.ModesDiffer` is an input where they do not.

Constants of the C code keep their values. Where only some numbers fit a C type the model states the bound it needs
and proves it kept: 32-bit sums in `Adler32`, 8-bit depth in `TreeHeap`, 20-bit links in `BwtTables`, 32-bit bit
buffers in `BzBits`, a 16-bit one and a 32-bit one in `DeflateBits`, 16-bit costs in `BzTables`, packed weight and
depth below 2^31 in `HuffmanLengths`.

## Model

| member | source | states |
|---|---|---|
| Rotations.CmpSplit | dep/bzip2/blocksort.c:259-313 | comparing two rotations h+k bytes deep is comparing h bytes and, on a tie, the rotations shifted by h: the step that makes prefix doubling sound |
| Rotations.CmpTrans | dep/bzip2/blocksort.c:347-469 | cyclic comparison to any depth is a total preorder (transitive, strict if either side is) |
| Bwt.LFMono | dep/bzip2/decompress.c:559-564 | the mapping from last column to first column keeps the order of bytes and, among equal bytes, of rows |
| Bwt.InverseIsPerm | dep/bzip2/decompress.c:557-564 | filling tt from cftab yields a permutation, and it is the two-sided inverse of that mapping |
| Bwt.StepAdvances | dep/bzip2/decompress.c:559-566 | for every listing of the rotations in order, ties in any order, one step through tt goes from a row to a row equal to the rotation one byte further on |
| Bwt.InversionTheorem | dep/bzip2/decompress.c:559-576 | for every block and every sorted listing of its rotations, walking nblock steps from tt[origPtr] over the last column reads back the block, periodic blocks included |
| FallbackQSort.Sink | dep/bzip2/blocksort.c:43-49 | one insertion with stride g reorders only the segment; with stride 1 it extends a sorted suffix by one |
| FallbackQSort.SimpleSort | dep/bzip2/blocksort.c:32-59 | the two-pass insertion sort leaves lo..hi a reordering of itself, sorted by class, nothing outside touched |
| FallbackQSort.ScanLow | dep/bzip2/blocksort.c:136-146 | the upward scan keeps the four regions and stops only at an entry above the median |
| FallbackQSort.ScanHigh | dep/bzip2/blocksort.c:147-157 | the downward scan keeps the four regions and stops only at an entry below the median |
| FallbackQSort.Partition | dep/bzip2/blocksort.c:132-162 | the loop ends with equal, smaller, larger, equal regions that meet, unHi == unLo-1, and lo..hi only reordered |
| FallbackQSort.SwapRuns | dep/bzip2/blocksort.c:66-75 | exchanges two runs that do not overlap, entry by entry, and nothing else |
| FallbackQSort.Split | dep/bzip2/blocksort.c:132-170 | after the equal runs are gathered, lo..n is below, n+1..m-1 equals and m..hi is above the median, or all entries were equal |
| FallbackQSort.SizesHalve | dep/bzip2/blocksort.c:172-178 | pushing the larger part first halves the size bound of the next stack level |
| FallbackQSort.StackSplit | dep/bzip2/blocksort.c:172-178 | replacing the top segment by its two parts keeps: entry k has at most N/2^k elements, segments are disjoint |
| FallbackQSort.StackBounded | dep/bzip2/blocksort.c:111-111 | for segments shorter than 2^31 the stack never holds more than 31 entries, so assertion 1004 cannot fail |
| FallbackQSort.QSort3 | dep/bzip2/blocksort.c:93-180 | for every pseudo-random choice of median the segment ends sorted by class and only reordered; termination included |
| FallbackSort.CountBytes | dep/bzip2/blocksort.c:231-234 | ftabCopy counts each byte, ftab the bytes up to each byte |
| FallbackSort.PlaceBytes | dep/bzip2/blocksort.c:236-241 | fmap becomes a permutation of the rows grouped by first byte, ftab the start of each group |
| FallbackSort.InitHeaders | dep/bzip2/blocksort.c:243-257 | a header bit is set exactly at the start of each group, and the alternating sentinel bits stand behind the block |
| FallbackSort.RadixDepth | dep/bzip2/blocksort.c:231-260 | after the radix pass the headers delimit exactly the classes of rotations with equal first byte, in ascending order |
| FallbackSort.Classify | dep/bzip2/blocksort.c:266-271 | eclass[x] is the bucket of the rotation h bytes on from x |
| FallbackSort.ClassCompare | dep/bzip2/blocksort.c:266-271 | comparing classes is comparing the next h bytes, in both directions |
| FallbackSort.Doubles | dep/bzip2/blocksort.c:259-313 | for rotations that agree on h bytes, ordering by class is ordering by 2h bytes |
| FallbackSort.Scan | dep/bzip2/blocksort.c:278-290 | the unaligned, word-wise, then bitwise scan finds the first bit that differs, and stays below the sentinel |
| FallbackSort.MarkHeaders | dep/bzip2/blocksort.c:299-304 | within a sorted bucket a header is set exactly where the class changes, other bits kept |
| FallbackSort.RefineBucket | dep/bzip2/blocksort.c:294-305 | sorting one bucket and marking it takes its rows from depth h to depth 2h and leaves every other row's class as it was |
| FallbackSort.Pass | dep/bzip2/blocksort.c:273-306 | from headers that delimit the h-byte classes, one pass reaches the 2h-byte classes; nNotDone == 0 means every class is a singleton |
| FallbackSort.Reconstruct | dep/bzip2/blocksort.c:322-328 | from fmap and the byte counts alone the destroyed block is rebuilt, every j staying below 256 |
| FallbackSort.Sort | dep/bzip2/blocksort.c:212-329 | for every non-empty block fmap ends as a permutation listing the rotations in non-descending order and the block is as before; the doubling loop ends |
| MainGtU.ByQuadrant | dep/bzip2/blocksort.c:423-458 | at equal bytes, unequal quadrants decide two undecided rotations rightly |
| MainGtU.CompareBytes | dep/bzip2/blocksort.c:358-410 | the twelve leading byte comparisons, read in the overshoot area without wrapping, either decide rightly or leave the same question that many bytes on |
| MainGtU.CompareEight | dep/bzip2/blocksort.c:416-458 | eight byte-and-quadrant comparisons either decide rightly or advance the question by eight bytes |
| MainGtU.GtU | dep/bzip2/blocksort.c:347-469 | for rotations that differ the answer is the plain cyclic comparison, given quadrants that never contradict it; the work budget falls by at most nblock/8 + 2 |
| MainGtU.Shifts | dep/bzip2/blocksort.c:992-1003 | the shift is the least that brings the bucket size to 65534 or less, so every quadrant value fits 16 bits (assertion 1002) |
| MainGtU.SetQuadrant | dep/bzip2/blocksort.c:999-1001 | writing a quadrant and its overshoot copy keeps the copy equal to the front |
| MainGtU.RanksSet | dep/bzip2/blocksort.c:997-1004 | once every rotation of the bucket is done, each has its shifted rank, which fits 16 bits, and no other quadrant was written |
| MainGtU.StillConsistent | dep/bzip2/blocksort.c:964-985 | after the lossy shifted ranks of one sorted big bucket are stored, unequal quadrants at equal bytes still never contradict rotation order |
| MainGtU.UpdateQuadrants | dep/bzip2/blocksort.c:989-1004 | every rotation of the bucket gets its rank in the bucket divided by 2^shifts, for the least shifts that bring the bucket size to 65534 or less, at most 65535; every other quadrant stays; hence in a bucket of at most 65534 a later rotation has the larger quadrant; the meaning and the overshoot copy are kept |
| MainGtU.ZeroConsistent | dep/bzip2/blocksort.c:795-798 | all-zero quadrants have that meaning |
| BlockRoundTrip.FindOrigPtr | dep/bzip2/blocksort.c:1083-1088 | finds the row of rotation 0, which is always there (assertion 1003) |
| BlockRoundTrip.BlockSort | dep/bzip2/blocksort.c:1031-1089 | the fallback path sorts the rotations, keeps the block and returns the row of rotation 0 |
| InitialRle.UnrlePair | dep/bzip2/bzlib.c:224-246 | decoding the code of a run of 1 to 255 bytes in front of anything that does not continue it gives the run |
| InitialRle.UnrleCoded | dep/bzip2/bzlib.c:216-247 | decoding the codes of a list of runs gives the runs, with no code cut off |
| InitialRle.RunsUnique | dep/bzip2/bzlib.c:260-284 | runs of 1 to 255 bytes, two neighbours having the same byte only if the first is 255 long, are determined by the text they spell |
| InitialRle.CodeOfText | dep/bzip2/bzlib.c:216-284 | hence their code is the code of that text, and decodes to it |
| InitialRle.RleRead | dep/bzip2/bzlib.c:216-284 | every text has such a code, and decoding gives the text back |
| InitialRle.CodeOfBoth | dep/bzip2/bzlib.c:260-284 | where one list of runs goes on from another without a cut, both codes together are the code of both texts together |
| BzCompress.EState.AddPair | dep/bzip2/bzlib.c:216-247 | the pending run is coded at the end of the block with at most five bytes, and inUse names exactly the bytes of the block |
| BzCompress.EState.AddChar | dep/bzip2/bzlib.c:260-284 | decoded blocks, then the block, then the pending run stay equal to the input consumed, now one byte longer, and the runs stay as long as they can be: one is closed only by another byte or at 255 |
| BzCompress.EState.FlushRL | dep/bzip2/bzlib.c:252-256 | nothing stays pending, the input consumed is still accounted for, and nblock is at most nblockMAX + 9 |
| BzCompress.EState.CopyInput | dep/bzip2/bzlib.c:289-329 | input moves without loss until the block is full, the input is used up, or the bytes announced at the flush are |
| BzCompress.EState.CopyOutput | dep/bzip2/bzlib.c:334-356 | output moves in order until the room or the block is used up; what is written and what is left stay together what the blocks became |
| BzCompress.EState.HandleCompress | dep/bzip2/bzlib.c:361-403 | the loop ends and loses neither an input byte nor an output byte; with room left over it has caught up with the input; the result says whether anything moved |
| BzCompress.EState.Compress | dep/bzip2/bzlib.c:407-464 | every action in every mode keeps conservation of input and output and answers by the calling discipline: a run returns BZ_RUN_OK exactly when something moved and has read everything if there is room left; a flush or a finish is complete or out of room; an action out of sequence changes nothing |
| BzCompress.EState.ContinueFlush | dep/bzip2/bzlib.c:442-450 | a flush is complete, all output being out, or returns BZ_FLUSH_OK with no room left |
| BzCompress.EState.ContinueFinish | dep/bzip2/bzlib.c:452-461 | a finish ends the stream with everything out, or has no room left and returns BZ_FINISH_OK exactly when something moved |
| BzCompress.EState.NothingPending | dep/bzip2/bzlib.c:139-144 | an empty run state means that the finished blocks decode to all the input consumed |
| BzCompress.SeamsText | dep/bzip2/bzlib.c:252-329 | every block handed over is the run-length code of its text with runs as long as they can be, and so are a block that was not cut by a flush and what follows it, taken together |
| BzCompress.EState.CutGreedily | dep/bzip2/bzlib.c:252-329 | at any moment the blocks handed over, the block being filled and the pending run are what cutting the code of the text greedily gives |
| BzCompress.Run | dep/bzip2/bzlib.c:407-464 | over every run of calls: every call keeps the calling discipline; blocks handed over, current block, pending run and unread input stand together for the input supplied; every block is the run-length code of its text, runs going on to 255 bytes and across the seam to the next block unless a flush or the end came between, and was handed over only when full or on such a demand, of which there are no more than calls that make one; what is written is a prefix, as long as the room used, of what the blocks became; a completed flush or finish leaves nothing behind; no block is longer than 100000k - 10 bytes and only the last ends the stream |
| BwtTables.MakeCftab | dep/bzip2/decompress.c:500-503 | cftab[c] counts the bytes below c in the column |
| BwtTables.LinkFast | dep/bzip2/decompress.c:560-564 | each word of tt ends as the column byte plus 256 times the inverse link of its row |
| BwtTables.SetLL4 | dep/bzip2/bzlib_private.h:458-462 | the nibble is stored and every other nibble kept |
| BwtTables.SetLL | dep/bzip2/bzlib_private.h:467-470 | a 20-bit number is stored in 16+4 bits, every other number kept |
| BwtTables.Get | dep/bzip2/bzlib_private.h:464-473 | reading back gives the number stored |
| BwtTables.LinkSmall | dep/bzip2/decompress.c:530-534 | the column in ll16 is replaced in place by the forward links |
| BwtTables.TurnStep | dep/bzip2/decompress.c:539-544 | one turn of the pointer reversal extends the inverted part of the cycle and meets no turned row before origPtr |
| BwtTables.Reverse | dep/bzip2/decompress.c:536-545 | the do-while loop ends with exactly the cycle through origPtr inverted and all other links kept |
| BzDecode.IndexIntoF | dep/bzip2/bzlib.c:687-698 | the binary search finds the byte whose range of rows contains the index |
| BzDecode.ByteOfRow | dep/bzip2/bzlib_private.h:475-479 | the byte found from the row number alone is the column byte that the FAST table stores |
| BzDecode.LinksInverse | dep/bzip2/decompress.c:530-564 | the SMALL links and the FAST links are inverse to each other |
| BzDecode.DState.GetFast | dep/bzip2/bzlib_private.h:444-449 | the m-th fetch from tt returns the m-th byte of the walk, and the range check does not fire |
| BzDecode.DState.GetSmall | dep/bzip2/bzlib_private.h:475-479 | the m-th fetch from ll16 and ll4 returns the same byte |
| BzDecode.DState.NewRunFast | dep/bzip2/bzlib.c:636-662 | starting a run takes the bytes and the length that run-length decoding of the block prescribes, at the block's end too |
| BzDecode.DState.NewRunSmall | dep/bzip2/bzlib.c:782-800 | the same of the SMALL form |
| BzDecode.DState.UnrleFast | dep/bzip2/bzlib.c:589-682 | one call continues the decoded text by at most the room given, and stops only finished, out of room, or with corruption found because a run code is cut off |
| BzDecode.DState.UnrleSmall | dep/bzip2/bzlib.c:759-804 | the same of the SMALL form |
| BzDecode.Open | dep/bzip2/decompress.c:524-576 | in either mode the tables, the first position and the first byte stand for the same block |
| BzDecode.Served | dep/bzip2/bzlib.c:775-780 | at any time the bytes emitted are a prefix of the decoded text, all of it at the end, and a regular end means that no run code was cut off |
| BzDecode.Decode | dep/bzip2/bzlib.c:589-804 | for any sequence of output buffers the text is dealt out over them, up to a reported corruption, which only a cut-off run code causes |
| BzDecode.SameBytes | dep/bzip2/bzlib.c:589-804 | SMALL and FAST fill every output buffer alike for every column and origPtr; FAST reports corruption exactly if a run code is cut off and the buffers have room for the text, SMALL exactly if they have room for more; so both agree on it if and only if no code is cut off or no buffer ends exactly at the end of the text |
| BzDecode.ModesDiffer | dep/bzip2/bzlib.c:589-804 | four zero bytes and a buffer of four: a cut-off run code that only FAST reports in that call |
| GenerateMtf.MakeMapsE | dep/bzip2/compress.c:106-115 | numbers the bytes in use in ascending order |
| GenerateMtf.MakeMapsD | dep/bzip2/decompress.c:27-36 | lists the same bytes in the same order |
| GenerateMtf.ToFront | dep/bzip2/compress.c:189-205 | the shifting search returns the position of the byte and leaves the list with it moved to the front |
| GenerateMtf.Writer.PutRun | dep/bzip2/compress.c:174-188 | appends the bijective base-2 digits of the run, writing no more symbols than the run has zeros |
| GenerateMtf.ColumnByte | dep/bzip2/compress.c:166-167 | ptr[i], not yet overwritten, still gives byte i of the last column |
| GenerateMtf.UnreadNext | dep/bzip2/compress.c:135-140 | after the step for rotation i, writes to half-words 0..i only, every pointer from i + 1 on is still there |
| GenerateMtf.Generate | dep/bzip2/compress.c:120-231 | the symbol array laid over ptr ends as the coding of the last column, mtfFreq counts each symbol, and nMTF is at most nblock + 1 |
| MtfCoding.ValueDigits | dep/bzip2/compress.c:174-188 | the RUNA and RUNB digits of a run have the value of the run |
| MtfCoding.DigitsShort | dep/bzip2/compress.c:165-165 | there are no more digits than zeros, which is why wr never passes i |
| MtfCoding.DecodeRun | dep/bzip2/decompress.c:379-398 | reading the digits of a run accumulates the run |
| MtfCoding.RoundTrip | dep/bzip2/compress.c:163-228 | decoding the coding of any list of numbers, with any run pending, gives the list and stops at EOB |
| MtfCoding.DecodeTail | dep/bzip2/decompress.c:358-369 | a list longer than the alphabet, such as the decoder's 256 entries, decodes valid symbols alike |
| MtfCoding.DecodeLong | dep/bzip2/decompress.c:390-390 | a block is at least as long as any run in it, so refusing runs beyond two million refuses no block of 900k |
| SlicedMtf.Mtf.constructor | dep/bzip2/decompress.c:358-369 | the initial array holds 0..255 in order |
| SlicedMtf.Mtf.Near | dep/bzip2/decompress.c:429-444 | within the first line the entry is returned and the list is moved to front |
| SlicedMtf.PassOn | dep/bzip2/decompress.c:455-460 | handing the last entry of line k-1 to line k keeps the lines disjoint and in bounds and moves the list one line nearer its new order |
| SlicedMtf.Mtf.Far | dep/bzip2/decompress.c:446-473 | for every other position the drifting lines end as the list moved to front, compaction included |
| SlicedMtf.PackStep | dep/bzip2/decompress.c:465-471 | compacting line k overwrites no entry still to be read |
| SlicedMtf.Mtf.Pack | dep/bzip2/decompress.c:463-472 | compaction leaves the list as it was |
| SlicedMtf.Mtf.Move | dep/bzip2/decompress.c:423-474 | the sliced array refines move-to-front on a list of 256 for every position |
| MtfDecode.Decoder.ReadRun | dep/bzip2/decompress.c:379-398 | the run loop reads exactly the digits and their value; its refusal of huge weights refuses only runs longer than the block may be |
| MtfDecode.Decoder.StoreRun | dep/bzip2/decompress.c:399-415 | the run is written and counted, or refused exactly when it does not fit |
| MtfDecode.Decoder.Symbols | dep/bzip2/decompress.c:375-486 | the symbol loop computes the decoding function; it reports an error on a valid coding only if the block would be too long |
| BinaryHeap.HeapMin | dep/bzip2/huffman.c:101-102 | the first entry of a heap is the lightest |
| BinaryHeap.UpHeap | dep/bzip2/huffman.c:33-42 | sifting up the last entry restores the heap, entries only rearranged; the sentinel stops it |
| BinaryHeap.DownHeap | dep/bzip2/huffman.c:44-59 | sifting down the first entry restores the heap, entries only rearranged |
| BinaryHeap.PopMin | dep/bzip2/huffman.c:101-102 | removes a lightest node; the heap holds exactly the other nodes |
| BinaryHeap.Insert | dep/bzip2/huffman.c:107-109 | the heap holds exactly one node more |
| HuffmanLengths.MergeHeavy | dep/bzip2/huffman.c:29-31 | joining the two lightest trees, the sum reaches the Fibonacci number two above the taller height and the taller is itself Fibonacci heavy |
| HuffmanLengths.Merge | dep/bzip2/huffman.c:101-109 | one merge keeps the forest: weights, heights, Fibonacci bounds, and the order in which weights are taken |
| HuffmanLengths.DepthHeight | dep/bzip2/huffman.c:117-118 | the depth found by following parents is within the height that the packed low byte records for the root |
| HuffmanLengths.BuildTree | dep/bzip2/huffman.c:84-112 | the merge loop ends with one tree of 2*alphaSize - 1 nodes over the leaves, their weights kept |
| HuffmanLengths.Measure | dep/bzip2/huffman.c:114-121 | len is each leaf's depth, and tooLong is set exactly when one exceeds the limit |
| HuffmanLengths.TreeKraft | dep/bzip2/huffman.c:114-121 | the depths of the leaves of the tree have Kraft sum exactly 1 |
| HuffmanLengths.RescaleLowers | dep/bzip2/huffman.c:142-146 | halving never raises the total, and once it no longer lowers it the total is at most twice the number of symbols |
| HuffmanLengths.LongCodeHeavy | dep/bzip2/huffman.c:120-123 | a code above a limit of 12 or more needs total weight 610 or more, beyond 2 * 258 |
| OptimalCode.Equalise | dep/bzip2/huffman.c:100-110 | any lengths that fit the code space can be changed, at no cost and still fitting, so that the two lightest members have equal length: the exchange argument, with a parity step for a single longest code |
| OptimalCode.MergeBound | dep/bzip2/huffman.c:100-110 | a lower bound on the cost after merging the two lightest is one before, plus the merged weight |
| OptimalCode.TreeOptimal | dep/zlib/trees.c:662-688 | the leaf depths of a tree built by merging two lightest roots at a time fill the code space exactly and cost no more than any lengths that fit it |
| HuffmanLengths.RootsStep | dep/bzip2/huffman.c:101-105 | each node's two sons were two lightest of the roots of their time, and it took their place |
| HuffmanLengths.DepthsOptimal | dep/bzip2/huffman.c:114-121 | the lengths measured in the tree fit the code space and no lengths that fit it cost less for the leaf weights |
| OptimalCode.HeavierShorter | dep/bzip2/huffman.c:100-121 | in lengths of the least cost that fit the code space, the heavier of two members has no longer a code |
| HuffmanLengths.RescaledIs | dep/bzip2/huffman.c:142-146 | after k halvings a weight w is 2 + (w - 2) / 2^k, rounded down |
| HuffmanLengths.ByFrequency | dep/bzip2/huffman.c:79-80 | lengths optimal for the start weights are optimal for the frequencies themselves if all are positive, and more frequent symbols, as far as the halvings tell them apart, have no longer codes |
| HuffmanLengths.MakeCodeLengths | dep/bzip2/huffman.c:63-148 | for every frequency table and every limit of 12 or more the rescaling loop ends, all lengths are in 1..maxLen, their Kraft sum is exactly 1, they are optimal for the weights of the last round, and weights are halved only while some lengths that fit the code space at the least cost exceed the limit, never if the total is below 610; if they were not and every frequency is positive, no lengths that fit the code space have a smaller sum of frequency times length; in any case a symbol whose weight after the halvings, from its frequency or 1 for none, is larger has no longer a code |
| BzTables.InitialTables | dep/bzip2/compress.c:279-316 | the initial tables favour disjoint consecutive stretches of the alphabet that together cover every symbol that occurs; each stretch stops at the first symbol with which its frequencies reach an equal share of what is left, or at the end, and every second one in between leaves that symbol to the next if it has another |
| BzTables.PairCost | dep/bzip2/compress.c:359-384 | adding the lengths of two tables at once in the halves of a word gives both costs of a full group, neither half running over |
| BzTables.GroupCosts | dep/bzip2/compress.c:352-393 | 16-bit counting gives the exact cost of a group in every table, on the fast track and on the slow one |
| BzTables.Assign | dep/bzip2/compress.c:324-440 | every group of fifty gets the first of its cheapest tables, and the frequencies tallied for a table are those of the symbols in its groups |
| BzTables.Choose | dep/bzip2/compress.c:266-453 | the tables are the initial ones improved exactly four times, every pass giving each group of fifty the first of the tables that were cheapest for it before, and each table the lengths fitted to the groups that chose it; selectors and lengths are those of the last pass, the lengths complete codes of 1 to 17 bits; there are 2, 3, 4, 5 or 6 tables for fewer than 200, 600, 1200, 2400 symbols or more |
| BzCodes.AssignCodes | dep/bzip2/huffman.c:152-166 | each symbol gets the first code of its length plus the number of earlier symbols of that length |
| BzCodes.CodeFits | dep/bzip2/huffman.c:160-165 | with Kraft sum at most 1 a code fits its length |
| BzCodes.FirstBeyond | dep/bzip2/huffman.c:193-197 | the codes of a length stay above every extension of shorter codes |
| BzCodes.MakePerm | dep/bzip2/huffman.c:180-183 | perm lists the symbols by length and, within a length, by number |
| BzCodes.CreateDecodeTables | dep/bzip2/huffman.c:170-200 | limit, base and perm are the last code, the offset and the order of each length |
| BzCodes.PrefixAbove | dep/bzip2/decompress.c:90-97 | a proper prefix of a code lies above its length's limit, the whole code at or below it: the search stops at the right length |
| BzCodes.Named | dep/bzip2/decompress.c:98-101 | the entry of perm found through base is the symbol |
| BzCodes.CompleteKraft | dep/bzip2/huffman.c:63-166 | the lengths made by the Huffman construction fill the code space exactly |
| BzBits.BitWriter.Write | dep/bzip2/compress.c:73-78 | the stream grows by the n bits of v, most significant first |
| BzBits.BitWriter.Need | dep/bzip2/compress.c:58-67 | moving whole bytes out changes no bit and leaves fewer than eight |
| BzBits.BitWriter.Finish | dep/bzip2/compress.c:46-54 | the bytes written are the stream padded with fewer than eight zero bits |
| BzBits.BitWriter.Collect | dep/bzip2/compress.c:604-610 | taking the finished bytes away between blocks loses no bit |
| BzBits.BitReader.GetBits | dep/bzip2/decompress.c:43-65 | n bits are taken from the front, or, exactly when the input so far is too short, nothing is taken and the call can be repeated |
| BzBits.Source.Pull | dep/bzip2/decompress.c:43-65 | over any pieces of input, returning and going on between them, the next n bits are read exactly when the pieces hold so many |
| BzSymbols.Send | dep/bzip2/compress.c:548-593 | the stream grows by the code of each symbol in the table of its group of fifty |
| BzSymbols.SymbolReader.Begin | dep/bzip2/decompress.c:76-88 | a new group takes the next selector; for encoder output there is one |
| BzSymbols.SymbolReader.Match | dep/bzip2/decompress.c:90-101 | bits are added until the limit admits the code; the result is the symbol sent, or a request for more input that loses nothing |
| BzSymbols.SymbolReader.Next | dep/bzip2/decompress.c:74-102 | every value read is the next symbol sent, however the input bytes are cut up |
| BzSymbols.Receive | dep/bzip2/decompress.c:74-102 | for lengths in 1..20 with Kraft sum at most 1, any chunks of the stream give a prefix of the symbols sent, and once the stream is complete all of them up to the end-of-block symbol, with not a bit of what follows used up |
| BzHeader.RanksInverse | dep/bzip2/compress.c:461-477 | undoing the move-to-front coding of any selectors gives them back, and every rank names a table |
| BzHeader.Rank | dep/bzip2/compress.c:464-476 | shifting while searching is moving to the front, and the rank is the place of the selector |
| BzHeader.Unrank | dep/bzip2/decompress.c:307-313 | the decoder moves the same place to the front |
| BzHeader.PutMap | dep/bzip2/compress.c:494-511 | the mapping table is one flag a row of sixteen bytes, then the flags of the rows in use |
| BzHeader.TakeMap | dep/bzip2/decompress.c:266-281 | reading a mapping table gives back the flags of all 256 bytes |
| BzHeader.TakeRanks | dep/bzip2/decompress.c:291-300 | unary ranks are read back, and none is refused |
| BzHeader.PutTable | dep/bzip2/compress.c:530-538 | a table goes out as its first length and two bits for each step to the next |
| BzHeader.TakeTable | dep/bzip2/decompress.c:317-329 | reading the steps gives back every table of lengths in 1..20, and none is refused |
| BzHeader.PutHead | dep/bzip2/compress.c:461-539 | mapping table, numbers of tables and selectors, selectors and tables go out in this order |
| BzHeader.TakeHead | dep/bzip2/decompress.c:266-314 | what was sent comes back without error, up to the coding tables |
| BlockRoundTrip.ChoiceCodes | dep/bzip2/compress.c:444-459 | the tables and selectors chosen give every symbol a code, and there are fewer than 32768 and at most 2 + 900000/50 selectors (assertion 3003) |
| BlockRoundTrip.SendBlock | dep/bzip2/compress.c:616-653 | a block goes out as marker, checksum, origPtr, head and symbols, all of its own making, and is restored |
| BlockRoundTrip.SymbolsEnded | dep/bzip2/compress.c:221-230 | the end-of-block symbol is the last of a block and occurs nowhere before, so the decoder needs no count |
| BlockRoundTrip.DecodeColumn | dep/bzip2/decompress.c:350-486 | from the encoder's symbols the decoder rebuilds the last column and its byte counts |
| BlockRoundTrip.OpenBlock | dep/bzip2/decompress.c:488-576 | from the column and origPtr both decoder modes start on a walk that yields the block |
| BlockRoundTrip.ReceiveBlock | dep/bzip2/decompress.c:241-505 | from the bits alone, arriving in any pieces, the decoder gets the checksum and the state that emits the block, uses up exactly the bits of the block, and refuses nothing |
| BzStream.CompressBlock | dep/bzip2/compress.c:602-667 | a block adds the header if it is the first, its data if it is not empty, and the trailer with the combined checksum if it is the last |
| BzStream.CompressAll | dep/bzip2/compress.c:602-667 | the bytes taken away block by block are the stream, padded with fewer than eight zero bits, and its blocks stand for the text of those handed over; they begin with the bytes 66, 90, 104 and 48 + level, go on with 31 41 59 26 53 59, or 17 72 45 38 50 90 if there is no block (hexadecimal), and the 80 bits before the padding begin with 177245385090 |
| BzStream.StreamMarked | dep/bzip2/compress.c:622-665 | the bytes of a stream show the header, the marker of the first block and the marker of the end at their places |
| BzStream.Decompressor.ReadHeader | dep/bzip2/decompress.c:222-235 | what follows a block is recognised as the next block or the end of the stream |
| BzStream.Decompressor.WriteBlock | dep/bzip2/bzlib.c:817-841 | output of a block continues its text, fills the buffer unless the block is done, and a finished block has the checksum stored |
| BzStream.Decompressor.Decompress | dep/bzip2/bzlib.c:808-860 | one call, across as many blocks as fit, continues the text of the stream, stops only with the buffer full or at the end of the stream, and finds both kinds of checksum right |
| BzStream.DecompressAll | dep/bzip2/bzlib.c:808-860 | any buffers are dealt the text of the stream in order, and with a byte to spare its end is found |
| BzStream.PackedIs | dep/bzip2/bzlib.c:334-356 | if pack names what the block compressor writes for each block, what a run may write is the stream |
| BzStream.RoundTrip | dep/bzip2/bzlib.c:407-464 | every run of calls that ends the stream yields bytes that are a stream of the format for blocks whose text is the input supplied, padded with fewer than eight zeros; decompressed in any pieces, into any buffers, in either memory layout, they give back exactly the input; with room for it all the end of the stream is reached; the bytes have the header and the markers of the format as numbers |
| BitStrings.SuccessorIdx | dep/zlib/inftrees.c:241-250 | the successor of a code has, read in reverse, the backward-incremented index |
| CanonicalCode.CodeFits | dep/zlib/trees.c:588-595 | the codes that are assigned fit their lengths if the set is not over-subscribed |
| CanonicalCode.PrefixFree | dep/zlib/trees.c:575-607 | no two symbols' codes begin the same bit string |
| CanonicalCode.Covers | dep/zlib/inftrees.c:130-138 | if the set is complete, every long enough bit string begins with the code of some symbol |
| CanonicalCode.Trim | dep/zlib/trees.c:575-607 | unused symbols at the end of the lengths change neither completeness nor any code |
| TableSize.FillTo | dep/zlib/inftrees.c:268-276 | in a complete set, from any code on the codes fill the rest of a stretch of the code space, and their number is at least the places that were left at the first one's length and one more for every bit the last is longer |
| TableSize.SubsBound | dep/zlib/inftrees.c:256-289 | the sub-tables of the first root indices hold no more entries than the codes in them and what a single table of the last one's depth wastes: depths do not overlap, so the waste telescopes |
| TableSize.SizeBound | dep/zlib/inftrees.h:38-51 | the table of a complete set has at most 2^root entries, one for every symbol longer than root and 2^(15-root) - (15-root) - 1 more; exactly 2^root if no code is longer |
| TableSize.EnoughLengths | dep/zlib/inftrees.h:40-49 | no complete set of at most 286 lengths needs more than 852 entries with 9 root bits |
| TableSize.EnoughDistances | dep/zlib/inftrees.h:40-50 | no complete set of at most 30 lengths needs more than 592 entries with 6 root bits |
| InflateTable.CountLengths | dep/zlib/inftrees.c:107-110 | count[l] is the number of symbols of length l |
| InflateTable.Extremes | dep/zlib/inftrees.c:114-127 | min and max are the least and greatest length in use |
| InflateTable.CheckLengths | dep/zlib/inftrees.c:131-136 | left is negative exactly for over-subscribed sets and else the code space left over |
| InflateTable.SortSymbols | dep/zlib/inftrees.c:141-147 | work lists the coded symbols by length and, within a length, by number |
| InflateTable.NextHuff | dep/zlib/inftrees.c:241-250 | the backward increment of a reversed code is the reversed next code, or zero after the last |
| InflateTable.FillEntries | dep/zlib/inftrees.c:232-239 | the entry is put at exactly the indices of the current table whose low bits are the code |
| InflateTable.EnterCode | dep/zlib/inftrees.c:217-239 | entering one code leaves all codes up to it decodable and disturbs none entered before |
| InflateTable.SubBits | dep/zlib/inftrees.c:268-276 | the size of a sub-table admits every code that shares its root index, and a table of half the size would not, unless it has one bit more than the root or the code at hand needs all of it |
| InflateTable.SpentNew | dep/zlib/inftrees.c:278-283 | the space counted after a new sub-table is the root table and the sizes of all root indices up to the new one, in order |
| InflateTable.StartSub | dep/zlib/inftrees.c:259-289 | a new sub-table is linked at its root index behind all tables so far, or the space limit is reported, which happens only when the space counted is above it |
| InflateTable.BuildTable | dep/zlib/inftrees.c:199-306 | the loop ends with every code entered, in the root table or in a linked sub-table; for a complete set the space counted is the size of the table of those lengths, and the limit is reported only if it is exceeded |
| InflateTable.Enough | dep/zlib/inftrees.h:38-51 | with the root bits inflate asks for, the table of every complete set of at most 286 lengths or 30 distances fits the space reserved, also where a short or long code changes the root bits |
| InflateTable.Build | dep/zlib/inftrees.c:32-306 | -1 exactly for the refused sets, 1 exactly for the complete sets whose table is larger than the space reserved, and never 1 for 286 lengths at 9 bits or 30 at 6; otherwise a table with every code entered, or the two invalid-code entries if there is no symbol, or an invalid-code entry for the unused code of a single one-bit code |
| InflateTable.LookLong | dep/zlib/inffast.c:293-296 | a code longer than the root is found through the root entry and then the sub-table, with root plus remaining bits dropped |
| InflateTable.DecodeTheorem | dep/zlib/inftrees.c:149-186 | for every complete set and every bit string, root then sub-table lookup gives the only symbol whose canonical code is a prefix, and the bits dropped are its length |
| GenCodes.BiReverse | dep/zlib/trees.c:1154-1164 | the first bit of the code becomes the lowest bit of the result, for all bits |
| GenCodes.FirstCodes | dep/zlib/trees.c:588-590 | next_code starts at the first canonical code of each length |
| GenCodes.Assign | dep/zlib/trees.c:575-607 | every coded symbol gets the bit-reversal of its canonical code |
| GenCodes.EncodeDecode | dep/zlib/trees.c:575-607 | a bit buffer that starts with a code gen_codes assigned decodes to that symbol and its length in the table inflate_table built |
| DeflateBits.SplitValue | dep/zlib/trees.c:213-221 | or-ing a value into a nearly full 16-bit buffer, and shifting it down for the rest, splits its bits and loses none |
| DeflateBits.BitBuffer.SendBits | dep/zlib/trees.c:213-228 | the stream grows by the bits of the value, lowest first |
| DeflateBits.BitBuffer.Windup | dep/zlib/trees.c:1186-1201 | fewer than eight zeros bring the stream to a byte boundary |
| DeflateBits.Accumulator.PullByte | dep/zlib/inflate.c:489-495 | a byte goes in above the bits held, and hold stays within 32 bits |
| DeflateBits.Accumulator.Drop | dep/zlib/inflate.c:510-514 | the n oldest bits go and the others stay |
| DeflateBits.Input.Need | dep/zlib/inflate.c:498-502 | pulling bytes, across as many pieces of input as it takes, loses no bit and fails only if the whole input has fewer bits |
| DeflateBits.Input.Take | dep/zlib/inflate.c:498-514 | where the input goes on with an n-bit number it is that number that is read, and exactly its bits are used up |
| DeflateTokens.InitLengths | dep/zlib/trees.c:256-275 | every length code names an interval of lengths, the decoder's base of the code is its start, and the last length has a code of its own |
| DeflateTokens.InitFar | dep/zlib/trees.c:286-294 | in units of 128 every distance from 257 to 32768 falls into the interval its code names, and the decoder's bases are the starts of all thirty intervals |
| DeflateTokens.InitStatics | dep/zlib/trees.c:234-294 | for every length and every distance the code, the number of extra bits and their value are those from which the decoder's base and extra tables make it again |
| DeflateTokens.SendToken | dep/zlib/trees.c:1068-1104 | a literal is its code; a match is length code, extra bits, distance code, extra bits |
| DeflateTokens.CompressBlock | dep/zlib/trees.c:1060-1115 | the stream grows by the bits of every token in order and the end-of-block code |
| DeflateTokens.LookPartial | dep/zlib/inflate.c:1031-1045 | looking up an accumulator that holds only part of the stream: if the entry wants no more bits than are there it is that of the symbol sent, otherwise the code sent is not there in full; a link in the root table drops the root bits |
| DeflateTokens.LookUp | dep/zlib/inflate.c:1031-1047 | pulling bytes until the entry fits gives the symbol sent and drops exactly its code, or loses nothing and waits |
| DeflateTokens.TokenReader.ReadLen | dep/zlib/inflate.c:1021-1069 | the next literal is handed on, or the end of the block found, or the base of a length and its extra bits are set |
| DeflateTokens.TokenReader.ReadDist | dep/zlib/inflate.c:1080-1106 | the base of the distance and its extra bits are set |
| DeflateTokens.TokenReader.ReadDistExt | dep/zlib/inflate.c:1107-1122 | length and distance of the match are those that were sent |
| DeflateTokens.TokenReader.Run | dep/zlib/inflate.c:1021-1122 | the modes go on until the block ends or, with a part of it still to come, all input is used up, and can then be taken up again |
| DeflateTokens.Receive | dep/zlib/inflate.c:1021-1122 | for every block and complete codes, any pieces of the bits give a prefix of the tokens sent; once the block is there in full, all of them and its end, and not a bit of what follows is used up |
| TreeHeap.PqDownHeap | dep/zlib/trees.c:453-476 | sifting down restores the heap order by frequency and then depth, entries only rearranged |
| TreeHeap.PqRemove | dep/zlib/trees.c:432-437 | removes a least node; the heap holds exactly the others |
| TreeHeap.PqReplace | dep/zlib/trees.c:685-686 | puts a new node in place of the least |
| TreeHeap.Heapify | dep/zlib/trees.c:657-660 | makes a heap of any array, holding the same nodes |
| GenBitlen.Clamping | dep/zlib/trees.c:512-517 | clamping depths at max_length makes the excess of code space exactly overflow/2 units, and overflow is even |
| GenBitlen.FirstPass | dep/zlib/trees.c:505-527 | lengths are clamped depths, bl_count counts the leaves of each length, overflow counts the clamped nodes |
| GenBitlen.PassDepths | dep/zlib/trees.c:510-528 | without overflow every length is the node's depth; with overflow some leaf lies deeper than max_length |
| GenBitlen.LeafAbove | dep/zlib/trees.c:535-536 | while there is excess, some leaf above max_length can be moved down: the search never runs off |
| GenBitlen.LowestAbove | dep/zlib/trees.c:535-536 | the downward search finds the deepest such length |
| GenBitlen.Moved | dep/zlib/trees.c:537-543 | one repair step removes one unit of excess and keeps the number of leaves |
| GenBitlen.Repair | dep/zlib/trees.c:534-544 | the loop ends with the code space filled exactly and as many leaves as before |
| GenBitlen.Reassign | dep/zlib/trees.c:551-564 | the leaves get lengths with exactly the repaired counts, longer ones for earlier leaves in the order of frequency |
| GenBitlen.BitLengths | dep/zlib/trees.c:488-565 | for every tree of at most 2^max_length leaves the lengths have Kraft sum exactly 1, none exceeds max_length, only leaves are coded, bl_count matches, and the lengths are the depths unless some depth exceeds max_length |
| BuildTree.Builder.Gather | dep/zlib/trees.c:632-641 | the heap holds exactly the symbols that occur, max_code is the last of them |
| BuildTree.Builder.AtLeastTwo | dep/zlib/trees.c:648-655 | at least two symbols are coded, added only when there are fewer |
| BuildTree.Builder.TakeTwo | dep/zlib/trees.c:667-671 | the two nodes taken are the rarest and the next rarest, listed in front of those taken before |
| BuildTree.Builder.MergeStep | dep/zlib/trees.c:667-686 | one merge keeps: roots in the heap, all nodes taken listed by frequency, fathers recorded |
| BuildTree.ListOptimal | dep/zlib/trees.c:662-690 | depths in the tree that the list of removed nodes describes fit the code space and no lengths that fit it cost less for the frequencies |
| BuildTree.Builder.Build | dep/zlib/trees.c:617-699 | for any frequencies every symbol that occurs, and if there are two no other, gets a code of 1 to max_length bits, the code is complete and no lengths that fit the code space cost less; only if some such optimal lengths exceed max_length it may cost more, and then rarer symbols never have shorter codes; symbols beyond max_code have length 0 |
| BuildTree.Exchange | dep/zlib/trees.c:617-699 | the tables inflate_table builds from the lengths of build_tree decode every code that build_tree assigned; space runs out exactly if the table of those lengths is larger than reserved, and never for 286 symbols at 9 bits or 30 at 6 |
| CodeLengths.SendRun | dep/zlib/trees.c:768-785 | one run is sent as the symbols that section 3.2.7 of RFC 1951 prescribes |
| CodeLengths.SendTree | dep/zlib/trees.c:750-795 | the whole array is sent as its run coding |
| CodeLengths.ScanTree | dep/zlib/trees.c:705-744 | each bit-length symbol's count grows by exactly the times send_tree sends it, so every symbol sent has a code |
| CodeLengths.EmitRead | dep/zlib/trees.c:766-794 | applying the run coding from any point in a run rebuilds the lengths |
| CodeLengths.Put | dep/zlib/inflate.c:943-981 | the lengths grow as the application of the symbol prescribes, with both repeat errors |
| CodeLengths.BothRead | dep/zlib/inflate.c:936-981 | applying the symbols of two arrays sent one after the other gives both arrays, whatever they are |
| DeflateHeader.BlCodes | dep/zlib/trees.c:820-822 | the number of code length codes sent is at least four and no more than needed: the last one sent is in use and all after it are not |
| DeflateHeader.OrderLaw | dep/zlib/trees.c:71-76 | after 16, 17, 18 and 0 the code lengths come by their distance from 8, the smaller of two first |
| DeflateHeader.FirstPlain | dep/zlib/trees.c:820-822 | the first length other than 0 is sent as itself, so one of the lengths 1 to 15 is in use and four codes are always sent |
| DeflateHeader.BuildBlTree | dep/zlib/trees.c:801-831 | the tree of code lengths is complete, of at most 7 bits, and has a code for every symbol that both trees are sent as |
| DeflateHeader.SendAllTrees | dep/zlib/trees.c:836-862 | the stream grows by the three counts, the lengths of the code length codes in order, and the codes and extra bits of both trees |
| DeflateHeader.TakeCounts | dep/zlib/inflate.c:897-913 | the three counts are those sent and not too many |
| DeflateHeader.TakeLens | dep/zlib/inflate.c:915-922 | the lengths of all nineteen code length codes are those of the sender, those not sent being 0 |
| DeflateHeader.ReadSym | dep/zlib/inflate.c:938-973 | from the bits of a symbol and its extra bits, in any pieces, that symbol and value are read and exactly those bits used up |
| DeflateHeader.ReadLens | dep/zlib/inflate.c:936-983 | the lengths of both trees come back from their bits without error, and exactly those bits are used up |
| DeflateHeader.ReceiveHeader | dep/zlib/inflate.c:897-992 | the head of every block, in any pieces, gives back the lengths of both trees without error, and not a bit of what follows is used up |
| DeflateBlock.TallyAll | dep/zlib/trees.c:1010-1030 | the frequencies are how often each literal, length and distance code occurs, the end of the block once |
| DeflateBlock.MakeTrees | dep/zlib/trees.c:617-699 | the trees built for those frequencies are complete and every token of the block can be coded with them |
| DeflateStream.FlushBlock | dep/zlib/trees.c:907-1003 | for any tokens in range the stream grows by a block type, the trees built for them and their codes |
| DeflateStream.Send | dep/zlib/trees.c:907-1003 | the bytes are the blocks one after the other, the last marked as such, and fewer than eight zeros; a block begins with the bit that marks the last, then 0 and 1 |
| DeflateStream.ReceiveBlock | dep/zlib/inflate.c:828-1122 | from its bits alone, in any pieces, a block's trees and tokens are read without error, and exactly its bits are used up |
| DeflateStream.ReceiveAll | dep/zlib/inflate.c:828-1122 | every block of the stream comes back, and the last one is recognised |
| DeflateStream.RoundTrip | dep/zlib/trees.c:907-1003 | any tokens in range in any number of blocks become bytes of the format, and those bytes, cut into any pieces, give back every block's tokens without error; a block begins with the bit that marks the last, then 0 and 1 |
| Lz77.CopyAdd | dep/zlib/inflate.c:1160-1165 | a copy may be made in pieces |
| Lz77.CopyOfRepeat | dep/zlib/deflate.c:1148-1289 | a text that repeats itself at a distance is what copying from that distance produces, overlaps included |
| Lz77.CopyRepeats | dep/zlib/inflate.c:1163-1165 | and conversely |
| DeflateHash.PrimedStep | dep/zlib/deflate.c:161-167 | after two consecutive bytes the rolling hash is the hash of the last three |
| DeflateHash.PrimedNext | dep/zlib/deflate.c:161-167 | and stays primed for the next byte, older bytes having left the mask |
| DeflateHash.ThirdByte | dep/zlib/deflate.c:1247-1252 | with HASH_BITS 8 or more, equal hashes and equal first two bytes mean equal third bytes |
| HashChains.ChainsInserted | dep/zlib/deflate.c:186-189 | inserting a string keeps: every live chain link goes to an earlier position with the same hash, and misses none: between a string and its link there is no other known string of that hash |
| HashChains.ChainsSlide | dep/zlib/deflate.c:1419-1451 | sliding the window and rebasing head and prev keeps that, except of the strings that leave the window |
| HashChains.WalkFinds | dep/zlib/deflate.c:1286-1288 | a walk along the links comes to every known string of the hash beyond the limit, unless it has met as many later ones as it may look at |
| HashChains.ChainFinds | dep/zlib/deflate.c:1148-1289 | so does the walk that longest_match makes from the head |
| Deflate.EmitMatch | dep/zlib/deflate.h:330-339 | appending a match token to tokens that expand to the first n bytes makes them expand to n + length bytes |
| Deflate.SameThird | dep/zlib/deflate.c:1247-1256 | the third byte that longest_match never compares is equal |
| Deflate.State.InsertString | dep/zlib/deflate.c:186-189 | the string enters its chain and is known from then on; the head returned leads to positions with the same hash, and no later string of that hash is known |
| Deflate.State.ReadBuf | dep/zlib/deflate.c:1076-1101 | bytes move from the input to the window without loss |
| Deflate.State.Slide | dep/zlib/deflate.c:1419-1451 | the upper half becomes the lower, absolute positions of the string and of the match stay as they were |
| Deflate.State.Rehash | dep/zlib/deflate.c:1471-1489 | the strings left over from the previous call enter their chains, as far as the lookahead goes, and none is passed over |
| Deflate.State.FillWindow | dep/zlib/deflate.c:1390-1494 | ends with enough lookahead or no input, loses no byte, moves neither the string nor the match in the text, and every string left over before is known or still left over |
| Deflate.State.Compare | dep/zlib/deflate.c:1247-1272 | the length returned is exactly how far the two strings agree, up to MAX_MATCH |
| Deflate.State.LongestMatch | dep/zlib/deflate.c:1148-1289 | a result above prev_length is a true repetition within lookahead and MAX_DIST; unless nice, no chain member within the search budget is longer |
| Deflate.State.SearchSettles | dep/zlib/deflate.c:1148-1289 | what the chain says of the strings reached holds of all known ones: one within reach that agrees on more bytes has as many later ones of its hash in front of it as the search may look at |
| Deflate.State.NothingNear | dep/zlib/deflate.c:1660-1664 | if there is no head, or it is too far back, no known string within reach agrees on three bytes |
| Deflate.State.FastSearch | dep/zlib/deflate.c:1649-1668 | the search of a round of deflate_fast finds a repetition of three bytes or more whenever one is to be found: a known string within MAX_DIST is beaten, or the length is nice, fills the lookahead, or the chain budget was used up before it |
| Deflate.State.BetterMatch | dep/zlib/deflate.c:1762-1786 | the same of deflate_slow, where there is no search beyond max_lazy, a quarter of the budget beyond good_match, and a short or far match is dropped |
| Deflate.State.PassMatch | dep/zlib/deflate.c:1674-1704 | stepping over a match, with or without inserting its strings, keeps the chains and the hash |
| Deflate.State.PassPrevious | dep/zlib/deflate.c:1791-1813 | the same for the lazy matcher, up to max_insert |
| Deflate.State.FastStep | dep/zlib/deflate.c:1649-1711 | one round makes one search, tallies its match if it found three bytes or more, and a literal only if it did not |
| Deflate.State.Fast | dep/zlib/deflate.c:1628-1722 | deflate_fast consumes input without loss and keeps that every symbol is what the search at its place prescribes; when it reports a block or the stream done, its tokens expand to all of it |
| Deflate.State.SlowSearch | dep/zlib/deflate.c:1752-1786 | the current string is entered and searched for; the new match is valid if it beats the previous one, which is still the match remembered at the previous byte, with the search it came from |
| Deflate.State.SlowStep | dep/zlib/deflate.c:1752-1837 | one round makes one search: the previous match is tallied if the new one is no longer, the deferred literal otherwise, and with nothing deferred the byte is, with its search |
| Deflate.State.Slow | dep/zlib/deflate.c:1730-1853 | deflate_slow likewise, with at most one deferred literal in between |
| Deflate.State.Forget | dep/zlib/deflate.c:931-938 | a full flush forgets every string and empties the window without touching the text |
| Deflate.State.Call | dep/zlib/deflate.c:897-946 | one call in any flush mode keeps conservation; unless output room is refused it reads all its input, leaves less than MIN_LOOKAHEAD without a flush, and completes a flush or the stream; the history begins anew exactly when it completes a full flush |
| Deflate.Run | dep/zlib/deflate.c:897-946 | over every run from lm_init, at any level of the table, every call does what its flush mode promises unless room was refused; the tokens expand to a prefix of the input, short by exactly the deferred, lookahead and unread bytes, and to all of it after a completed flush; no distance exceeds the window less MIN_LOOKAHEAD; every symbol is the one that the search at its place, and for deflate_slow at the next, prescribes, over the strings entered with the symbols before it; each search sees a full lookahead or all there is up to the end of a flushing call; the history begins anew at the ends of completed full flushes and nowhere else |
| DeflateParse.ParsedNext | dep/zlib/deflate.c:1649-1711 | a symbol that its search prescribes, where the symbols before it end and with their strings known, joins them |
| DeflateParse.KnownLater | dep/zlib/deflate.c:1674-1704 | every string that passing a symbol enters, those of a match of deflate_fast only up to max_insert, is known to every later search of the same history |
| DeflateParse.LiteralIsNew | dep/zlib/deflate.c:1660-1711 | deflate_fast sends a literal only where no known string within reach agrees on three bytes, unless the chain budget was used up before it |
| DeflateParse.RepeatIsTaken | dep/zlib/deflate.c:1649-1711 | so what repeats three bytes from where an earlier symbol began is sent as a match, under the same condition |
| DeflateParse.MatchIsLongest | dep/zlib/deflate.c:1148-1289 | no known string within reach agrees on more bytes than a match of either strategy, unless it is nice, fills the lookahead or has the longest length, or the budget was used up |
| DeflateParse.NotBettered | dep/zlib/deflate.c:1787-1813 | deflate_slow takes a match only if, as far as it looks there, no known string at the next place agrees on more bytes |
| DeflateParse.RestartPoint | dep/zlib/zlib.h:307-311 | after a completed full flush no match reaches back to what came before it, so decompression can begin there |
| InflateWindow.RingByte | dep/zlib/inflate.c:1148-1153 | the byte d back in the history is at next - d, or past the wrap at wsize + next - d |
| InflateWindow.RingReplace | dep/zlib/inflate.c:405-409 | output of a window or more replaces the ring |
| InflateWindow.RingExtend | dep/zlib/inflate.c:411-424 | output that fits behind wnext extends it |
| InflateWindow.RingWrap | dep/zlib/inflate.c:413-419 | output that wraps round overwrites the oldest bytes |
| Inflate.State.UpdateWindow | dep/zlib/inflate.c:379-427 | the window again holds exactly the last min(total, wsize) bytes of the history |
| Inflate.State.Locate | dep/zlib/inflate.c:1148-1154 | the bytes found in the window are the ones the distance names |
| Inflate.State.MatchStep | dep/zlib/inflate.c:1123-1167 | a piece of a match, from window or output, is a piece of the plain copy of the whole history; BAD exactly for a distance beyond both |
| Inflate.State.FastContiguous | dep/zlib/inffast.c:217-266 | a copy that starts in one stretch of the window and goes on from the output is the plain copy |
| Inflate.State.FastWrapped | dep/zlib/inffast.c:227-266 | so is one that starts at the window's end, goes on at its start, then in the output |
| Inflate.State.FastMatch | dep/zlib/inffast.c:186-281 | all cases of inflate_fast make the plain copy, or report a distance too far back |
| Inflate.State.Leave | dep/zlib/inflate.c:1230-1237 | on return the window stands for the history with the call's output |
| Inflate.State.Call | dep/zlib/inflate.c:1123-1237 | one call writes the next part of the expansion and stops only out of room or symbols or for a symbol that reaches too far |
| Inflate.Replay | dep/zlib/inflate.c:1123-1237 | for any split of the symbols and of the output into calls, each call writes no more than its room, and with room to spare everything its symbols stand for; the bytes written are the expansion of the symbols; an error means a distance outside the text or the window |
| DeflateInflate.RoundTrip | dep/zlib/deflate.c:897-946 | inflating what deflate produced gives back a prefix of the input, as long as the buffers were filled, and the whole input when deflate has flushed and the last buffer has a byte to spare; with room for the whole input it has one |
| DeflateInflate.RoundTripBits | dep/zlib/trees.c:907-1003 | the same through the bits of dynamic blocks, the symbols being divided into blocks and the bytes into pieces in any way |
| Crc32.StepXor | dep/zlib/crc32.c:110-116 | one step of the register is linear over exclusive or |
| Crc32.RegisterXor | dep/zlib/crc32.c:110-116 | hence a difference in the register only shifts, whatever bytes follow |
| Crc32.RegisterFour | dep/zlib/crc32.c:240-243 | four bytes at once are 32 steps of the register combined with the word they form |
| Crc32.MakeCrcTable | dep/zlib/crc32.c:90-133 | every entry of the eight tables is the register of its byte followed by zero bytes, byte-swapped in the last four |
| Crc32.Crc32Bytes | dep/zlib/crc32.c:204-236 | the byte-at-a-time form computes the bitwise definition (section 8 of RFC 1952) |
| Crc32.LittleUpdate | dep/zlib/crc32.c:241-243 | DOLIT4 advances the register by four bytes |
| Crc32.Crc32Little | dep/zlib/crc32.c:247-278 | the little-endian form equals the definition, for any alignment |
| Crc32.BigUpdate | dep/zlib/crc32.c:281-283 | DOBIG4 does so on the byte-swapped register |
| Crc32.Crc32Big | dep/zlib/crc32.c:287-320 | the big-endian form equals the definition, for any alignment |
| Crc32.MatrixTimes | dep/zlib/crc32.c:327-341 | multiplying by the operator of k zero bits advances the register by k zero bits |
| Crc32.MatrixSquare | dep/zlib/crc32.c:344-352 | squaring the operator of k zero bits gives that of 2k |
| Crc32.OneBit | dep/zlib/crc32.c:369-375 | the initial matrix is the operator of one zero bit |
| Crc32.Combine | dep/zlib/crc32.c:355-408 | the alternating squaring loop applies the operator of len2 zero bytes for every positive length |
| Crc32.CombineTheorem | dep/zlib/crc32.c:355-408 | the checksum of a concatenation is the first checksum after that many zero bytes, combined with the second |
| Crc32.CombineChecksums | dep/zlib/crc32.c:411-417 | crc32_combine of the two checksums and the second length is the checksum of the concatenation |
| Crc32.Residue | dep/zlib/crc32.c:204-236 | from any start, data followed by their own checksum, low byte first, have the checksum 0x2144df1c |
| Crc32.ZeroInFront | dep/zlib/crc32.c:204-236 | a zero byte in front of any data changes their checksum; that of one zero byte is 0xd202ef8d |
| Crc32.BurstDetected | dep/zlib/crc32.c:204-236 | whatever comes before and after, two texts that differ within four consecutive bytes have different checksums |
| Adler32.RawMod | dep/zlib/adler32.c:104-129 | the modulo may be put off to the end, from any start |
| Adler32.RefAppend | dep/zlib/adler32.c:104-129 | the sums of a concatenation continue from those of its first part, which is what cutting into blocks relies on |
| Adler32.NoOverflow | dep/zlib/adler32.c:15-16 | over NMAX bytes neither sum leaves 32 bits, from any two 16-bit halves |
| Adler32.OneMoreOverflows | dep/zlib/adler32.c:15-16 | over one byte more the second sum can, even from reduced sums: NMAX is the largest |
| Adler32.ShortBound | dep/zlib/adler32.c:92-101 | fewer than sixteen bytes keep the sums within one subtraction and within MOD28 |
| Adler32.Mod28Is | dep/zlib/adler32.c:32-42 | the division-free MOD28 is the remainder below 2^28 |
| Adler32.Mod28Fails | dep/zlib/adler32.c:38-42 | and not for all 32-bit numbers, so its use rests on the bound |
| Adler32.Mod32Is | dep/zlib/adler32.c:43-47 | the division-free MOD is the remainder for all 32-bit numbers |
| Adler32.Mod63Is | dep/zlib/adler32.c:48-59 | the division-free MOD63 is the remainder for all lengths below 2^63 |
| Adler32.One | dep/zlib/adler32.c:77-86 | the one-byte path gives the checksum of the reduced start exactly when one subtraction settles the second sum |
| Adler32.Short | dep/zlib/adler32.c:92-102 | the short path computes the per-byte definition in both builds, from any halves |
| Adler32.Long | dep/zlib/adler32.c:104-132 | so does the blocked path |
| Adler32.Adler | dep/zlib/adler32.c:65-133 | in both builds and for any start value the result is the per-byte checksum of the reduced start (section 2.2 of RFC 1950) if and only if the buffer is not one byte that needs two subtractions; the null buffer gives 1 |
| Adler32.ReducedSettles | dep/zlib/adler32.c:77-86 | reduced sums always meet that condition, so every run begun from 1 is right |
| Adler32.UnreducedStart | dep/zlib/adler32.c:77-86 | halves 65520 and 65535 with one zero byte do not |
| Adler32.CombineMod | dep/zlib/adler32.c:148-160 | the conditional subtractions reduce both sums, in both builds |
| Adler32.CombineTheorem | dep/zlib/adler32.c:136-162 | combining the sums of two parts gives the sums of the concatenation |
| Adler32.CombineChecksums | dep/zlib/adler32.c:136-162 | adler32_combine of two checksums is the checksum of the concatenation; a negative length gives 0xffffffff |

## Left out

- HuffmanLengths.MakeCodeLengths: assumes that the start weights total less than 2^23, beyond which weight << 8 would overflow 32 bits (a block has at most 900000 symbols).
- BuildTree.Builder.Build: takes frequencies as unbounded numbers; lit_bufsize keeps their total below 2^16 in the C code.
- MainGtU.GtU: needs at least as many bytes as the overshoot area, as mainSort does, and says nothing of the answer for rotations that tie, which in C depends on quadrants; the budget falls by at most nblock/8 + 2.
- BzCompress.Run: what the block compressor writes is a parameter, any function of the blocks so far; `BzStream.RoundTrip` says what follows when it is the one modelled.
- Deflate.State.FlushBlock: sending a block is left out and whether its output fits is answered by a parameter, so every theorem holds for any output buffers; the choice between stored, fixed and dynamic blocks is not modelled.
- Deflate.State.Call: deflate's return codes, Z_BUF_ERROR for a repeated flush and the stream header are not modelled.
- BlockRoundTrip.BlockSort: always takes the fallback path, which the C code takes below 10000 bytes and when the main sort's budget runs out.
- BlockRoundTrip.ReceiveBlock: reads all symbols before it decodes them, copies the decoded column into an array of exact length, and refuses randomised blocks, which the compressor never writes.
- DeflateTokens.TokenReader.ReadLen: literals and matches are handed on at once; when they are written out is the subject of `Inflate`.
- DeflateStream.ReceiveBlock: refuses stored and fixed blocks, which the modelled sender never writes.
- The rest of mainSort: radix tables, bucket scanning, mainSimpleSort and mainQSort3, and when the budget gives up; BZ2_blockSort's contract is reached through the fallback sort.
- The table and register arithmetic of bzip2's CRC, which is a parameter, and legacy randomised blocks.
- The aliasing of eclass with the block bytes; the block is instead rebuilt from an array of unknown contents. Words of header bits are modelled as single bits.
- zlib and gzip headers and trailers, stored blocks, the fixed trees, opt_len and static_len, and the reading of bits inside inflate_fast.
- deflate_stored, deflate_rle, deflate_huff, deflateParams, deflateSetDictionary, deflateBound, inflateSync, FASTEST and UNALIGNED_OK, and the zeroing above high_water.
- Deflate.Run: says nothing of the one or two strings at the very end of a flushed call's input, which are entered with the next call as far as its input goes (`Deflate.State.FillWindow` states that); a string at distance exactly MAX_DIST is found only as the head of its chain, and the string where the history begins never, as in C.
- match_start is a signed position, since in C it can pass below zero across a slide while the distance stays right.
- adler32 of a null buffer with length 1 reads the buffer in C and is not modelled; disjoint bits joined by or are added.
- The checksum updates in read_buf and inflate, and total_in and total_out.
- INFLATE_STRICT and INFLATE_ALLOW_INVALID_DISTANCE_TOOFAR_ARRR; corrupt streams beyond the error they report.
- Unrolled copies and comparisons are loops. Allocation, files, gz layers, infback and the precomputed tables are not part of this model.
