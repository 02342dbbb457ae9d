# Verified models of the xenoPWM kernel tree

This project models the algorithmic core of the Linux 4.1 library sources carried by xenoPWM, and the PWM driver
itself, and proves what they are for. Each module states an independent meaning (a sorted matrix of rotations, a
match relation, a plain map, a stack, a stable insertion sort, bit-by-bit definitions) and proves that the code
computes it, for every input or in every interleaving.

| files | what they model |
|---|---|
| `ByteStrings.dfy`, `Bwt.dfy`, `Bunzip.dfy`, `BlockCrc.dfy` | bzip2: counting pass, sequence vector, inverse Burrows-Wheeler walk, run-length output, block checksum |
| `Huffman.dfy`, `SymbolStream.dfy` | bzip2: limit/base/permute tables, canonical Huffman decoding, the stream of symbols over several tables |
| `Mtf.dfy`, `Block.dfy` | bzip2: move-to-front and run symbols; a whole block from its bits to the bytes written out |
| `FileCrc.dfy`, `BunzipFile.dfy` | bzip2: the checksum of a file bit by bit; a file of many blocks |
| `Idr.dfy` | idr: radix tree with "subtree full" bitmaps against a plain id-to-pointer map |
| `GenPool.dfy`, `GenPoolAlone.dfy` | genalloc: lock-less bitmap claims, rollback and release, interleaved at every load and cmpxchg; what a claim does when left alone |
| `Klist.dfy`, `KlistSteps.dfy` | klist: reference counts, iterators and removal waiters while the list changes; what every call does |
| `Kfifo.dfy`, `KfifoCalls.dfy` | kfifo with one reader and one writer; what a whole call copies |
| `Llist.dfy`, `LlistFlow.dfy` | llist with many adders and one deleter; nothing added is lost |
| `Crc32.dfy`, `CrcSlice.dfy` | CRC-32: zero-append in logarithmic time, combination, table generator, slicing |
| `Glob.dfy`, `GlobText.dfy` | glob_match against a recursive match relation; what written patterns mean |
| `ListSort.dfy` | list_sort: bottom-up merge sort on doubly linked lists |
| `Lru.dfy` | lru_cache: four lists, hash chains, pending changes, eviction order |
| `Bitmap.dfy` | find_next_bit, bitmap_set/clear, zero-area search, IOMMU allocation, best fit |
| `Pwm.dfy` | the driver: PWM threads against PWM_INIT and PWM_SET |
| `Bits.dfy`, `Basics.dfy` | shifts and exclusive-or on naturals; options, wrapping ints, distinct sequences, intervals, division |

## How the models are built

Code that updates state in loops is a method on arrays or class fields, proved against a specification function or
predicate. Concurrent code is a step relation in which a load, store or compare-and-exchange of shared memory, or a
lock-protected section, is one step, and the theorems speak of the state after any run. One step of the llist model does
two things: `AddLoad` joins the load of head->first with the store to the next of the last new node, which no other
thread reads before the compare-and-exchange. Words are natural numbers with explicit bounds (`Bits`), or sequences of
bits (`Bitmap`); indices that wrap do so by an explicit remainder, and ints by `CInt.Wrap`.

Results where the code and its comments or intentions differ:

- Huffman counts are kept in unsigned chars. `Huffman.CorrectIffCountsFit` shows that, for codes within the Kraft
  bound, decoding is right exactly when no length has more than 255 symbols; `Huffman.ByteCodeMisread` is the complete
  code of 256 eight-bit symbols, which fails.
- A negated class in a glob pattern accepts the string terminator, after which the matcher reads past it.
  `Glob.OverrunPossibleIff` shows that a pattern allows this for some string exactly when some negated class can be
  reached in it, a condition on the pattern alone. A run that reads past the terminator is the outcome `Overrun`.
- The comment at lib/lru_cache.c:243-248 says that calls are starving + hits + misses. A get refused because its label
  is pending counts in none of them (`LruModel.RefusalUncounted`); the sum is exact with the refusals added
  (`LruModel.EveryRun`). The field comment for `used` mentions in_use only; it counts to_be_changed as well.
- The header promises that a successful lc_try_lock means no pending changes. That depends on callers committing before
  they unlock, which lc_unlock does not check: `LruModel.TryLockMeansClean` has the exact condition.
- PWM_INIT does not check the slot count. `Pwm.OverrunIff` shows that the slot array is overrun exactly when a
  PWM_INIT follows five that succeeded.
- A bzip2 block that fills the buffer to the last byte is refused if it ends in a run: the check for a run is `>=`, the
  one for a literal leaves room for one more. `MoveToFront.PackUnpack` shows that a block is read back exactly when it
  is shorter than the buffer, or just as long without ending in a run (`MoveToFront.FullRunRefused`). A run whose length
  leaves the int range ends the model of the loop; `MoveToFront.WiderCounter` shows that no block that fits has one.
- `chunk->avail` can be negative for a moment. A free clears its bits before it adds to `avail`; if another allocation
  takes those bits and is charged first, the counter goes below zero (`GenPool.AvailGoesNegative`, two allocations on
  a chunk of eight bytes, avail at -7). `GenPool.NegativeIff` has the exact condition: the bytes given back and not yet
  refunded exceed the bytes of the clear bits and of the claims not yet charged. Without a free in flight `avail` is
  never negative (`GenPool.NotNegative`).
- While `avail` is negative, the unsigned comparison in gen_pool_alloc lets almost any size pass. Ownership and the final
  balance hold as long as the size, rounded in 32 bits and kept in an int, counts its bits right;
  `GenPool.MiscountedIff` says exactly for which sizes it does not, and `GenPool.MiscountedNeedsNegative` that such a
  size is admitted only with a free in flight. In the state of the run above a request of 2^32 - 7 bytes is admitted
  with a count of -7; after the refund, avail is the whole chunk with every bit of it set
  (`GenPool.HugeRequestBreaksBalance`, `GenPool.HugeRequestReached`).
- HIGH_TIME, LOW_TIME and the range are ints that wrap. A cycle that sees one duty programs the whole period of its
  range exactly when the duty is regular, that is, when what remains after its wrapped high half is an int
  (`Pwm.Halves`); duty 2148 on a range of 10, which PWM_SET accepts, loses 2^32 ns in every cycle (`Pwm.WrappedCycle`).
- PWM_SET does not check the duty. The bound of one period per PWM_SET holds in every interleaving if and only if the
  duties are regular and their swing, the larger of the sums of rises and of falls of the high time, is no more than one
  period per PWM_SET (`Pwm.PeriodPerSetIff`, computed from the range and the duties alone). Duties within a range of at
  least 10 always meet this (`Pwm.TimingWithin`); a duty of 1000 on a range of 10 does not (`Pwm.OutOfRangeExceeds`).
- In idr, going up to the top layer of a four-layer tree shifts an int by 32. Both readings of that shift lead to the
  same state (continue at the top or restart there), and an id that wraps to a negative int ends in -ENOSPC, which is
  what the model returns.
- In list_sort, a comparison that is not a total preorder still leaves a closed ring of the same nodes
  (`ListSort.SortList`). A list longer than 2^20 saturates the top slot; sorting stays correct and the sentinel slot empty.

## Model

| member | source | states |
|---|---|---|
| `CountingSort.LandingOrder` | xenoPWM/kernel_source/lib/decompress_bunzip2.c:485-497 | the counting pass places entries in strictly increasing order of (byte, index): it is a stable sort |
| `CountingSort.OrderIsPermutation` | xenoPWM/kernel_source/lib/decompress_bunzip2.c:492-497 | the sequence vector is a permutation of the block |
| `BurrowsWheeler.TransformExists` | xenoPWM/kernel_source/lib/decompress_bunzip2.c:480-484 | every non-empty byte string has a transform (last column and row index) |
| `BurrowsWheeler.VectorRotates` | xenoPWM/kernel_source/lib/decompress_bunzip2.c:492-497 | row t[j] of the sorted rotations is row j rotated by one, repeated rows included |
| `BurrowsWheeler.WalkSpells` | xenoPWM/kernel_source/lib/decompress_bunzip2.c:564-572 | for every non-empty s, periodic or not, the walk along the vector from the original row spells exactly s |
| `Bunzip.WalkInverts` | xenoPWM/kernel_source/lib/decompress_bunzip2.c:564-572 | whatever the packed block spells is the original string whenever the column is a transform of it |
| `Bunzip.BunzipData.Accumulate` | xenoPWM/kernel_source/lib/decompress_bunzip2.c:485-491 | byteCount[c] becomes the number of entries with a smaller byte |
| `Bunzip.BunzipData.LinkSorted` | xenoPWM/kernel_source/lib/decompress_bunzip2.c:492-497 | dbuf keeps its bytes and gains a stable sorting order as links, packed above the byte |
| `Bunzip.BunzipData.Unsort` | xenoPWM/kernel_source/lib/decompress_bunzip2.c:485-512 | data error iff origPtr is out of range; on the transform of s the loaded block is s |
| `Bunzip.BunzipData.DecodeNext` | xenoPWM/kernel_source/lib/decompress_bunzip2.c:564-593 | one hop and the repeat countdown: the bytes still owed by the block do not change |
| `Bunzip.BunzipData.WriteCopies` | xenoPWM/kernel_source/lib/decompress_bunzip2.c:544-563 | pending copies are written until they or the buffer run out; what was written and what is still owed add up, and the checksum covers what was written |
| `Bunzip.BunzipData.Drain` | xenoPWM/kernel_source/lib/decompress_bunzip2.c:522-603 | for any buffer length, the bytes written are the next bytes of the block's expansion, the rest is still owed, and the checksum is carried over them; at the end of the block it is compared with the recorded one |
| `Bunzip.BunzipData.FinishBlock` | xenoPWM/kernel_source/lib/decompress_bunzip2.c:595-603 | a good block's checksum is folded into the total: every bit of the total moves one place up, the top one to the bottom, and the bits of the checksum are added without carry; after a mismatch the total differs from the recorded one, which is what bunzip2 tests |
| `FileCrc.RotatedBit` | xenoPWM/kernel_source/lib/decompress_bunzip2.c:597-598 | bit k of a word is bit (k + 1) mod 32 of the rotated word |
| `FileCrc.FoldsOnce` | xenoPWM/kernel_source/lib/decompress_bunzip2.c:597-598 | the bits said so leave one value for the next total |
| `FileCrc.TotalBits` | xenoPWM/kernel_source/lib/decompress_bunzip2.c:597-598 | for any list of block checksums, bit k of the total is the parity of bit (k - (n - 1 - i)) mod 32 of checksum i over all i |
| `Bunzip.BunzipData.DrainAll` | xenoPWM/kernel_source/lib/decompress_bunzip2.c:707-718 | calls with a buffer of any positive length write, put together, exactly what the block owes, and the checksum compared at the end is that of all of it |
| `BlockCrc.FeedIsLookup` | xenoPWM/kernel_source/lib/decompress_bunzip2.c:555-557 | one table entry and a byte shift are eight single-bit steps of the checksum |
| `BlockCrc.CrcAppend` | xenoPWM/kernel_source/lib/decompress_bunzip2.c:553-557 | the checksum of a block does not depend on how it is cut into buffers |
| `BlockCrc.BuildTable` | xenoPWM/kernel_source/lib/decompress_bunzip2.c:653-659 | entry i is byte i at the top of a word, after eight single-bit steps |
| `BlockCrc.Update` | xenoPWM/kernel_source/lib/decompress_bunzip2.c:555-557 | the table step feeds one byte bit by bit |
| `Bunzip.BunzipData.FreshBlockOwes` | xenoPWM/kernel_source/lib/decompress_bunzip2.c:498-510 | a block whose text is the run-length encoding of x owes exactly x |
| `RunLength.ExpandEncode` | xenoPWM/kernel_source/lib/decompress_bunzip2.c:573-593 | expanding the reference run-length encoding gives back every byte string |
| `Huffman.GroupData.Build` | xenoPWM/kernel_source/lib/decompress_bunzip2.c:270-343 | the tables describe the code given by the lengths, with counts as kept in unsigned chars |
| `Huffman.GroupData.FillPermute` | xenoPWM/kernel_source/lib/decompress_bunzip2.c:304-312 | permute lists the symbols in stable order of length |
| `Huffman.GroupData.FillLimits` | xenoPWM/kernel_source/lib/decompress_bunzip2.c:316-342 | limit and base are the code-space bounds and offsets of every length |
| `Huffman.GroupData.FindLength` | xenoPWM/kernel_source/lib/decompress_bunzip2.c:394-396 | scanning limit finds the least length whose code space contains the bits |
| `Huffman.GroupData.NextSymbol` | xenoPWM/kernel_source/lib/decompress_bunzip2.c:391-403 | the table lookup equals the reference decoder and gives back exactly maxLen minus the length found |
| `Huffman.DecodeCodeword` | xenoPWM/kernel_source/lib/decompress_bunzip2.c:391-403 | maxLen bits starting with a symbol's codeword, however they continue, decode to that symbol and its length |
| `Huffman.DecodedWasCodeword` | xenoPWM/kernel_source/lib/decompress_bunzip2.c:391-403 | conversely, a decoded symbol was spelled by its codeword |
| `Huffman.CorrectIffCountsFit` | xenoPWM/kernel_source/lib/decompress_bunzip2.c:313-342 | within the Kraft bound every codeword is read back iff no length has more than 255 symbols |
| `Huffman.WrappedMisreads` | xenoPWM/kernel_source/lib/decompress_bunzip2.c:313-315 | a wrapped count makes the last codeword of that length unreadable |
| `Huffman.ByteCodeMisread` | xenoPWM/kernel_source/lib/decompress_bunzip2.c:313-315 | the code of 256 eight-bit symbols is complete and is not read back |
| `SymbolStream.ReadSpelled` | xenoPWM/kernel_source/lib/decompress_bunzip2.c:357-403 | bits made of the codewords of symbols, with a table per fifty symbols, are read back as those symbols, and the bits after the end symbol are left |
| `SymbolStream.SpelledRead` | xenoPWM/kernel_source/lib/decompress_bunzip2.c:357-403 | conversely, the bits used by a stream that is read are the codewords of its symbols, ending with the first end symbol |
| `SymbolStream.StreamExists` | xenoPWM/kernel_source/lib/decompress_bunzip2.c:357-403 | within the Kraft bound any symbols of the alphabet have such bits |
| `SymbolStream.Select` | xenoPWM/kernel_source/lib/decompress_bunzip2.c:359-366 | symbol n is decoded with the table of selector n / 50, and fails exactly when there is no such selector |
| `SymbolStream.ReadStream` | xenoPWM/kernel_source/lib/decompress_bunzip2.c:357-403 | the loop with its countdown and bit position reads the stream the definition describes |
| `RunSymbols.ValueSnoc` | xenoPWM/kernel_source/lib/decompress_bunzip2.c:412-431 | the k-th run symbol adds 2^k, doubled for RUNB |
| `RunSymbols.ValueOfDigits` | xenoPWM/kernel_source/lib/decompress_bunzip2.c:416-431 | every run length has run symbols that count to it |
| `RunSymbols.DigitsOfValue` | xenoPWM/kernel_source/lib/decompress_bunzip2.c:416-431 | and only one sequence of them |
| `MoveToFront.PackUnpack` | xenoPWM/kernel_source/lib/decompress_bunzip2.c:404-478 | the symbols of a block, move-to-front positions and run lengths, lead to exactly that block iff it is shorter than the buffer, or just as long and not ending in a run; otherwise to an error |
| `MoveToFront.FullRunRefused` | xenoPWM/kernel_source/lib/decompress_bunzip2.c:438-447 | a run as long as the buffer is refused |
| `MoveToFront.UnpackPack` | xenoPWM/kernel_source/lib/decompress_bunzip2.c:404-478 | a stream that leads to a block is, up to its end symbol, the stream of that block and of no other |
| `MoveToFront.WiderCounter` | xenoPWM/kernel_source/lib/decompress_bunzip2.c:409-447 | a stream that overruns the run counter leads to no block however wide the counter; any other means the same for every wider counter |
| `SymbolStage.SymbolReader.MoveFront` | xenoPWM/kernel_source/lib/decompress_bunzip2.c:462-473 | the shifting loop moves the entry at the position to the front of the table and returns its byte |
| `SymbolStage.SymbolReader.WriteRun` | xenoPWM/kernel_source/lib/decompress_bunzip2.c:443-446 | t copies of the front byte are appended and counted |
| `SymbolStage.SymbolReader.ReadSymbols` | xenoPWM/kernel_source/lib/decompress_bunzip2.c:347-478 | the loop stores the block the symbols stand for, with the count of every byte, or reports the error they lead to |
| `BlockRoundTrip.StreamExists` | xenoPWM/kernel_source/lib/decompress_bunzip2.c:404-484 | every non-empty byte string whose encoding is shorter than the buffer is carried by some symbols |
| `BlockRoundTrip.LoadBlock` | xenoPWM/kernel_source/lib/decompress_bunzip2.c:404-512 | on the symbols of the transform of the encoding of x, the block loaded is the encoding of x |
| `BlockRoundTrip.DecodeBlock` | xenoPWM/kernel_source/lib/decompress_bunzip2.c:404-617 | on the symbols of x, exactly x is written whatever the buffer length, and the block is accepted iff the recorded checksum is the complement of the checksum of x |
| `BitsRoundTrip.CompressedReads` | xenoPWM/kernel_source/lib/decompress_bunzip2.c:357-478 | the bits of x are read as symbols that carry x |
| `BitsRoundTrip.CompressedExists` | xenoPWM/kernel_source/lib/decompress_bunzip2.c:357-512 | every non-empty byte string that fits has its bits, for any tables within the Kraft bound and any bits after them |
| `BitsRoundTrip.DecodeBits` | xenoPWM/kernel_source/lib/decompress_bunzip2.c:357-617 | from bits to output: on the bits of x exactly x is written, the bits after the block are left, and the block is accepted iff the recorded checksum is that of x |
| `FileRoundTrip.FileAttestsTotal` | xenoPWM/kernel_source/lib/decompress_bunzip2.c:721-723 | the recorded file checksum equals the total iff each of its bits is the parity just described |
| `FileRoundTrip.DecodeFile` | xenoPWM/kernel_source/lib/decompress_bunzip2.c:706-725 | a file of any number of blocks is accepted iff the recorded checksums of all blocks and of the file are right, and then the texts of the blocks have been written, in order |
| `IdrTree.BitMeansFull` | xenoPWM/kernel_source/lib/idr.c:172-190 | in a well-formed tree a bitmap bit is set iff every id below it is taken |
| `IdrTree.MarkStep` | xenoPWM/kernel_source/lib/idr.c:183-189 | marking a full child moves the only possible inconsistency one level up |
| `IdrTree.AddChildKeeps` | xenoPWM/kernel_source/lib/idr.c:269-280 | creating a missing layer keeps the tree well formed and the map unchanged |
| `IdrTree.MoveTopKeeps` | xenoPWM/kernel_source/lib/idr.c:313-321 | moving an empty top upward keeps the tree well formed and the map unchanged |
| `IdrTree.AddTopKeeps` | xenoPWM/kernel_source/lib/idr.c:338-344 | a new top over the old one keeps the tree well formed and the map unchanged |
| `IdrTree.EmptySlotKeeps` | xenoPWM/kernel_source/lib/idr.c:519-529 | clearing the path leaves a tree right but for one count |
| `IdrTree.NothingToClear` | xenoPWM/kernel_source/lib/idr.c:519-525 | for an id that is not taken, clearing the path changes nothing |
| `IdrTree.DropLayer` | xenoPWM/kernel_source/lib/idr.c:531-536 | freeing an emptied layer keeps the map and moves the count adjustment to its parent |
| `IdrTree.ShrinkKeeps` | xenoPWM/kernel_source/lib/idr.c:563-578 | dropping a top whose only child is the first keeps the tree well formed and the map unchanged |
| `Idr.Idr.SubAlloc` | xenoPWM/kernel_source/lib/idr.c:220-287 | the least free id from start on, or every id up to the capacity (or up to 2^31) is taken |
| `Idr.Idr.BuildUp` | xenoPWM/kernel_source/lib/idr.c:297-345 | the tree grows until it covers the id, and no further; the map is unchanged |
| `Idr.Idr.GetEmptySlot` | xenoPWM/kernel_source/lib/idr.c:289-352 | growing and searching ends with the least free id from start on, or with the id space exhausted |
| `Idr.Idr.MarkFull` | xenoPWM/kernel_source/lib/idr.c:172-190 | after a leaf bit was set, every bitmap is right again and the map is unchanged |
| `Idr.Idr.FillSlot` | xenoPWM/kernel_source/lib/idr.c:358-367 | the id maps to the pointer, every other id as before |
| `Idr.Idr.Alloc` | xenoPWM/kernel_source/lib/idr.c:450-473 | success returns the least unused id in range and adds it to the map; ENOSPC only when the whole range is taken; errors leave the map alone |
| `Idr.Idr.ClearPath` | xenoPWM/kernel_source/lib/idr.c:508-529 | reports whether the id was taken and clears its path, or changes nothing |
| `Idr.Idr.FreeEmpty` | xenoPWM/kernel_source/lib/idr.c:531-540 | no layer on the path is left that counts nothing, layers off the path are untouched; the map is unchanged and the tree well formed |
| `Idr.Idr.ShrinkTop` | xenoPWM/kernel_source/lib/idr.c:563-578 | the top is dropped exactly when it has the first child alone, and nothing else changes |
| `Idr.Idr.Remove` | xenoPWM/kernel_source/lib/idr.c:550-580 | the id leaves the map, every other id keeps its pointer, taken or not, in range or not; no empty layer is left on the path, and a top that has become the parent of the first child alone is dropped |
| `Idr.Idr.GetNext` | xenoPWM/kernel_source/lib/idr.c:736-777 | the first id from start on with a pointer other than NULL, or there is none |
| `Idr.Idr.Find` | xenoPWM/kernel_source/lib/idr.c:642-665 | returns the pointer of the abstract map, NULL where it has none |
| `Idr.Idr.Replace` | xenoPWM/kernel_source/lib/idr.c:793-822 | swaps the pointer of a taken id and returns the old one; EINVAL and ENOENT exactly otherwise |
| `GenPool.EveryInterleaving` | xenoPWM/kernel_source/lib/genalloc.c:270-379 | each set bit has exactly one owner, no BUG_ON fires, and with nothing in flight avail is the size minus the bytes of the set bits |
| `GenPool.StepTouchesOwnBits` | xenoPWM/kernel_source/lib/genalloc.c:44-142 | a step changes a bit only when its own allocation takes it or gives it back |
| `GenPool.FailedClaimRestores` | xenoPWM/kernel_source/lib/genalloc.c:296-302 | from one search to the next, with any number of other allocations and frees interleaved, an allocation has cleared each bit as often as it set it, and its charges and refunds cancel |
| `GenPool.NetIsHolding` | xenoPWM/kernel_source/lib/genalloc.c:44-142 | over any run, what an allocation set and did not clear is what it came to hold |
| `GenPool.LedgersBalance` | xenoPWM/kernel_source/lib/genalloc.c:296-306 | charged bytes and bytes held uncharged equal the set bits and the bytes owed, whatever is in flight |
| `GenPool.AvailBalance` | xenoPWM/kernel_source/lib/genalloc.c:296-306 | avail is the bytes of the clear bits plus uncharged claims less refunds outstanding, at every moment |
| `GenPool.NegativeIff` | xenoPWM/kernel_source/lib/genalloc.c:369-372 | avail is negative exactly when the refunds outstanding exceed the clear bits and uncharged claims, so only with a free in flight |
| `GenPool.NegativeInRuns` | xenoPWM/kernel_source/lib/genalloc.c:369-372 | the same after every run of a new chunk |
| `GenPool.NotNegative` | xenoPWM/kernel_source/lib/genalloc.c:369-372 | without a free in flight avail is not negative |
| `GenPool.AvailGoesNegative` | xenoPWM/kernel_source/lib/genalloc.c:285-306 | a run of two allocations on eight bytes that ends with avail at -7 |
| `GenPool.MiscountedIff` | xenoPWM/kernel_source/lib/genalloc.c:283-283 | the int count of a request is wrong exactly when the sum leaves 32 bits or the quotient leaves the int range |
| `GenPool.MiscountedNeedsNegative` | xenoPWM/kernel_source/lib/genalloc.c:283-288 | such a request is admitted only while avail is negative, so with a free in flight |
| `GenPool.HugeRequestBreaksBalance` | xenoPWM/kernel_source/lib/genalloc.c:283-306 | with avail at -n, a request of 2^32 - n bytes is admitted with a count of -n, and after the refund avail is the whole chunk with every bit set |
| `GenPool.HugeRequestReached` | xenoPWM/kernel_source/lib/genalloc.c:283-306 | a run of a new chunk reaches such a state |
| `GenPool.WordStartIsFloor` | xenoPWM/kernel_source/lib/genalloc.c:87-89 | the words of the map start at the multiples of the word width |
| `GenPool.CasOk` | xenoPWM/kernel_source/lib/genalloc.c:44-72 | a cmpxchg moves exactly the bits of its mask between the map and the allocation, and a clear is never refused |
| `GenPoolAlone.CasSendsBack` | xenoPWM/kernel_source/lib/genalloc.c:44-57 | a claim is sent back exactly when a bit of its own piece of the word is set in the value it saw |
| `GenPoolAlone.CasBlocked` | xenoPWM/kernel_source/lib/genalloc.c:85-103 | sent back, it gives up the bits taken so far, or searches at once if there are none |
| `GenPoolAlone.CasStale` | xenoPWM/kernel_source/lib/genalloc.c:49-55 | if the word has changed, nothing is changed and the next attempt sees its new value |
| `GenPoolAlone.CasTakes` | xenoPWM/kernel_source/lib/genalloc.c:44-72 | otherwise exactly the bits of the range in this word are set by a claim or cleared by the others, and the loop goes on in the next word or is done |
| `GenPoolAlone.LoopAlone` | xenoPWM/kernel_source/lib/genalloc.c:85-142 | from a free range of any number of words, loads and cmpxchgs of the claim alone end with exactly that range set; from a taken one, undo and release end with it cleared |
| `GenPoolAlone.RefusedAlone` | xenoPWM/kernel_source/lib/genalloc.c:296-302 | on a range that is not free the claim ends searching, with nothing taken |
| `GenPoolAlone.RoundCovers` | xenoPWM/kernel_source/lib/genalloc.c:283-283 | the count is the least number of bits that covers the bytes |
| `GenPoolAlone.AllocateAlone` | xenoPWM/kernel_source/lib/genalloc.c:270-315 | a request for a free place ends live, with exactly its bits set and its bytes taken from avail |
| `GenPoolAlone.FreeAlone` | xenoPWM/kernel_source/lib/genalloc.c:352-379 | a free ends with exactly the bits cleared and the bytes added to avail |
| `GenPool.StepKeeps` | xenoPWM/kernel_source/lib/genalloc.c:85-142 | every step of every allocation keeps exclusive ownership and the balance |
| `GenPool.EndInChunk` | xenoPWM/kernel_source/lib/genalloc.c:367-367 | a live allocation ends inside the chunk |
| `GenPool.LiveTotal` | xenoPWM/kernel_source/lib/genalloc.c:304-306 | with only live allocations, the charged bytes are the set bits times the unit |
| `Klist.EveryInterleaving` | xenoPWM/kernel_source/lib/klist.c:109-364 | linked iff referenced; count is one if not killed plus the parked iterators; a finished pass returned every node that stayed exactly once, in list order; a klist_remove past its delete and not woken has its node linked and dead |
| `Klist.StepKeeps` | xenoPWM/kernel_source/lib/klist.c:184-223 | every add, delete, remove and iterator step keeps counts, links, passes and waiters consistent |
| `Klist.NextKeeps` | xenoPWM/kernel_source/lib/klist.c:334-364 | advancing skips only killed nodes and may release the node left behind without losing the pass |
| `Klist.DropKeeps` | xenoPWM/kernel_source/lib/klist.c:184-208 | dropping a reference releases a node only when killed and with no iterator on it |
| `Klist.DropWaiters` | xenoPWM/kernel_source/lib/klist.c:184-203 | a waiter is woken exactly when dropping the reference takes its node off the list |
| `Klist.StepWakes` | xenoPWM/kernel_source/lib/klist.c:184-259 | in every step the waiters whose node leaves the list are woken, and no others |
| `KlistSteps.AddsAtEnds` | xenoPWM/kernel_source/lib/klist.c:95-140 | klist_add_head and klist_add_tail put the node at the head and at the tail, alive and with one reference, and change nothing else |
| `KlistSteps.AddsBehind` | xenoPWM/kernel_source/lib/klist.c:147-155 | klist_add_behind puts it right behind the given node |
| `KlistSteps.AddsAhead` | xenoPWM/kernel_source/lib/klist.c:163-171 | klist_add_before puts it right before the given node |
| `KlistSteps.DelMeans` | xenoPWM/kernel_source/lib/klist.c:205-232 | a killed node leaves at once if no iterator is on it, and otherwise stays in its place, dead |
| `KlistSteps.RemoveMeans` | xenoPWM/kernel_source/lib/klist.c:238-259 | klist_remove registers, kills in the same way, and returns only when woken |
| `KlistSteps.NextSkips` | xenoPWM/kernel_source/lib/klist.c:334-364 | klist_next stops at the first node behind the old one that is not dead, at the end iff all of them are, and the old node leaves iff it is dead and nobody else is on it |
| `KlistSteps.LooksSomewhere` | xenoPWM/kernel_source/lib/klist.c:342-349 | the place behind the old node is there to look from |
| `KlistSteps.InitMeans` | xenoPWM/kernel_source/lib/klist.c:281-288 | the iterator starts on the given node iff it is listed |
| `KlistSteps.ExitMeans` | xenoPWM/kernel_source/lib/klist.c:312-318 | the iterator goes, and its node leaves iff it is dead and nobody else is on it |
| `Kfifo.EveryInterleaving` | xenoPWM/kernel_source/lib/kfifo.c:102-186 | what was read is a prefix of what was written, the wrapped fill level is true and within capacity, no copy overwrites an unread element |
| `Kfifo.Distances` | xenoPWM/kernel_source/lib/kfifo.c:33-36 | used and unused computed from wrapped indices are the true ones |
| `Kfifo.SlotMeaning` | xenoPWM/kernel_source/lib/kfifo.c:102-124 | the two-part copy puts element k at its absolute position modulo the size |
| `Kfifo.WriterSlotFree` | xenoPWM/kernel_source/lib/kfifo.c:102-138 | the writer's slot holds no unread element |
| `KfifoCalls.PutCommits` | xenoPWM/kernel_source/lib/kfifo.c:102-138 | whatever else happens between its start and its commit, a put adds the first min(asked, free) elements |
| `KfifoCalls.GetReturns` | xenoPWM/kernel_source/lib/kfifo.c:140-186 | a get takes out, and a peek copies and leaves, the oldest min(asked, stored) elements |
| `KfifoCalls.PutAlone` | xenoPWM/kernel_source/lib/kfifo.c:102-138 | left alone, a put gets to its commit |
| `Llist.EveryRunIsAStack` | xenoPWM/kernel_source/lib/llist.c:38-81 | results at the successful cmpxchgs are those of a sequential stack, and the list in memory is that stack |
| `Llist.DelCasCurrent` | xenoPWM/kernel_source/lib/llist.c:65-81 | when the deleter's cmpxchg succeeds, the next it read is still current |
| `Llist.DrainedReversedIsArrival` | xenoPWM/kernel_source/lib/llist.c:83-103 | after any run of batched adds, deletes and drains, the chain a drain returns is the list in memory, and reversed it is in order of arrival, batches from last node to first |
| `Llist.StepOrder` | xenoPWM/kernel_source/lib/llist.c:38-81 | every step keeps the list ordered by latest arrival |
| `Llist.ReverseDrained` | xenoPWM/kernel_source/lib/llist.c:83-103 | llist_reverse_order on a drained chain yields it in order of arrival |
| `Llist.ReversedTwice` | xenoPWM/kernel_source/lib/llist.c:91-103 | reversing twice gives the chain back |
| `Llist.ReverseOrder` | xenoPWM/kernel_source/lib/llist.c:91-103 | relinks the chain in place into its reverse |
| `LlistFlow.NoBatchLost` | xenoPWM/kernel_source/lib/llist.c:38-48 | in every run a batch is in flight or was pushed, together as often as it was begun |
| `LlistFlow.NoNodeLost` | xenoPWM/kernel_source/lib/llist.c:38-81 | in every run a node is in flight, on the list, or was popped or drained, together as often as it was brought |
| `LlistFlow.NoCallLost` | xenoPWM/kernel_source/lib/llist.c:65-81 | every call of the deleter but the one in progress, and every llist_del_all, has one result |
| `LlistFlow.AddAlone` | xenoPWM/kernel_source/lib/llist.c:38-48 | an undisturbed addition puts its batch on top |
| `LlistFlow.DelAlone` | xenoPWM/kernel_source/lib/llist.c:65-81 | an undisturbed deletion takes the top node, or finds the list empty |
| `CrcCore.StepsLinear` | xenoPWM/kernel_source/lib/crc32.c:149-155 | shifting is linear over exclusive-or |
| `CrcCore.MulLinear` | xenoPWM/kernel_source/lib/crc32.c:213-225 | the product is linear |
| `CrcCore.MulCommutes` | xenoPWM/kernel_source/lib/crc32.c:213-225 | the product commutes |
| `CrcCore.MulUnit` | xenoPWM/kernel_source/lib/crc32.c:213-225 | x^0, the top bit, is the unit |
| `CrcCore.MulPower` | xenoPWM/kernel_source/lib/crc32.c:213-225 | multiplying by x^n in GF(2) is shifting by n bits |
| `CrcCore.PowerDouble` | xenoPWM/kernel_source/lib/crc32.c:262-264 | squaring x^n gives x^(2n) |
| `CrcCore.PolyIsPower32` | xenoPWM/kernel_source/lib/crc32.c:242-242 | the polynomial word is x^32 |
| `CrcCore.CrcZeros` | xenoPWM/kernel_source/lib/crc32.c:227-238 | feeding n zero bytes is shifting by 8n bits |
| `CrcCore.CrcCombine` | xenoPWM/kernel_source/lib/crc32.c:227-267 | crc(seed, a ++ b) is crc(seed, a) shifted past b, plus crc(0, b) |
| `CrcShift.Gf2Multiply` | xenoPWM/kernel_source/lib/crc32.c:213-225 | the product of two polynomials: the sum over the bits of x of y shifted accordingly |
| `CrcShift.Accumulate` | xenoPWM/kernel_source/lib/crc32.c:215-224 | after round i the product accounts for the low i + 1 bits of x |
| `CrcShift.ShiftWords` | xenoPWM/kernel_source/lib/crc32.c:249-265 | with power x^(32*2^i) at step i, the result is the crc shifted by 32 bits per word |
| `CrcShift.GenericShift` | xenoPWM/kernel_source/lib/crc32.c:239-267 | equals feeding len zero bytes one bit at a time |
| `CrcSlice.FirstRow` | xenoPWM/kernel_source/lib/gen_crc32table.c:41-47 | row 0 entry i is i shifted by eight bits |
| `CrcSlice.Generate` | xenoPWM/kernel_source/lib/gen_crc32table.c:35-55 | row k entry i is i shifted by 8(k+1) bits |
| `CrcSlice.CrcAsShift` | xenoPWM/kernel_source/lib/crc32.c:149-155 | feeding bytes one at a time is one shift of the seed with all of them added in |
| `CrcSlice.FeedWord` | xenoPWM/kernel_source/lib/crc32.c:105-107 | four bytes fed bit by bit are one 32-bit shift of the crc with the loaded word added |
| `CrcSlice.FeedTwoWords` | xenoPWM/kernel_source/lib/crc32.c:105-112 | eight bytes fed bit by bit are the first word shifted by 64 bits plus the second shifted by 32 |
| `CrcSlice.DoCrc4IsSteps` | xenoPWM/kernel_source/lib/crc32.c:61-64 | four table lookups are a shift of the word by 32 bits, or by 64 from the upper four rows |
| `CrcSlice.Body` | xenoPWM/kernel_source/lib/crc32.c:57-131 | slice-by-4 and slice-by-8 return the bit-at-a-time CRC for every seed, buffer and alignment |
| `Glob.GlobCorrect` | xenoPWM/kernel_source/lib/glob.c:40-122 | backing up only to the last star accepts exactly the strings that match |
| `Glob.NewStar` | xenoPWM/kernel_source/lib/glob.c:64-69 | once a later star is reached, the earlier one need not be retried |
| `Glob.OverrunPossibleIff` | xenoPWM/kernel_source/lib/glob.c:70-100 | some string makes the matcher read past its terminator iff the pattern reaches a negated class |
| `Glob.ScanClass` | xenoPWM/kernel_source/lib/glob.c:70-97 | membership in the class spans and its end, or malformed |
| `Glob.GlobMatch` | xenoPWM/kernel_source/lib/glob.c:40-122 | terminates; matched iff the match relation holds; overrun only with a reachable negated class |
| `GlobText.ParsesBack` | xenoPWM/kernel_source/lib/glob.c:70-101 | class spans whose text reads clearly are parsed back from it |
| `GlobText.TextMeans` | xenoPWM/kernel_source/lib/glob.c:55-112 | a pattern written from tokens matches exactly the strings the tokens stand for |
| `GlobText.EscapedMatchesItself` | xenoPWM/kernel_source/lib/glob.c:103-112 | a string with every character escaped matches exactly itself |
| `GlobText.PlainIsLiteral` | xenoPWM/kernel_source/lib/glob.c:83-112 | a character without a meaning of its own, or a bracket nothing closes, stands for itself |
| `StableSort.MergeSorts` | xenoPWM/kernel_source/lib/list_sort.c:19-39 | merging the sorted forms of two consecutive stretches is the stable insertion sort of both |
| `StableSort.SortSorts` | xenoPWM/kernel_source/lib/list_sort.c:90-103 | the reference sort is sorted and a permutation |
| `StableSort.SortStable` | xenoPWM/kernel_source/lib/list_sort.c:90-103 | nodes that compare equal keep their order |
| `ListSort.MergeChains` | xenoPWM/kernel_source/lib/list_sort.c:19-39 | two chains become one in stable order; no other link changes |
| `ListSort.MergeBothWays` | xenoPWM/kernel_source/lib/list_sort.c:48-70 | the merge loop links the finished part both ways and attaches the rest |
| `ListSort.WalkBack` | xenoPWM/kernel_source/lib/list_sort.c:72-84 | the back links of the rest are set up to the end |
| `ListSort.MergeAndRestore` | xenoPWM/kernel_source/lib/list_sort.c:48-88 | the merged list is a closed ring around head; links elsewhere are unchanged |
| `ListSort.Carry` | xenoPWM/kernel_source/lib/list_sort.c:127-130 | the carry loop merges taken slots and stops at an empty one, at the latest at the sentinel |
| `ListSort.AddNode` | xenoPWM/kernel_source/lib/list_sort.c:122-139 | slots hold consecutive stretches, sorted, with binary sizes; the sentinel stays empty |
| `ListSort.SlotsAreBinaryDigits` | xenoPWM/kernel_source/lib/list_sort.c:127-138 | below the top, a slot is in use iff that bit of the node count is one |
| `ListSort.Collect` | xenoPWM/kernel_source/lib/list_sort.c:141-143 | merging the slots upward sorts everything below the top slot |
| `ListSort.SortList` | xenoPWM/kernel_source/lib/list_sort.c:104-146 | for any length and any comparison, the ring becomes a closed ring of the same nodes; for a total preorder, the ring of the stable sort; links elsewhere are unchanged |
| `ListSort.PrevInvertsNext` | xenoPWM/kernel_source/lib/list_sort.c:42-47 | in a ring, prev undoes next at every node |
| `LruModel.EveryRun` | xenoPWM/kernel_source/lib/lru_cache.c:323-641 | after every run each element is on exactly the list its fields call for, labels are unique, counters are right, STARVING means free and lru are empty, lru is in order of last use |
| `LruModel.EvictsOldest` | xenoPWM/kernel_source/lib/lru_cache.c:335-357 | a recycling get takes a free element if any, else the one unreferenced longest, never a referenced one; and succeeds exactly when it may |
| `LruModel.ReferencedStays` | xenoPWM/kernel_source/lib/lru_cache.c:375-452 | no operation relabels an element that has references |
| `LruModel.CommitPublishes` | xenoPWM/kernel_source/lib/lru_cache.c:548-561 | a commit makes exactly the pending labels findable |
| `LruModel.GetHides` | xenoPWM/kernel_source/lib/lru_cache.c:375-452 | a get hides exactly the recycled element's old label |
| `LruModel.TryLockMeansClean` | xenoPWM/kernel_source/lib/lru_cache.c:67-75 | after a successful lc_try_lock there is no pending change iff the set was not unlocked since those changes without a commit |
| `LruModel.LockedWhilePending` | xenoPWM/kernel_source/include/linux/lru_cache.h:285-304 | a change, an unlock without a commit, and lc_try_lock succeeds with the change pending |
| `LruModel.RefusalUncounted` | xenoPWM/kernel_source/lib/lru_cache.c:243-248 | two calls of which the statistics count one |
| `LruModel.NextKeeps` | xenoPWM/kernel_source/lib/lru_cache.c:375-641 | every operation keeps the invariant |
| `LruModel.StepReferences` | xenoPWM/kernel_source/lib/lru_cache.c:375-452 | a get takes one reference on the element it returns, a put gives one back, and nothing else changes a count |
| `LruModel.ReferencesInRuns` | xenoPWM/kernel_source/lib/lru_cache.c:375-586 | at any moment an element has as many references as gets have returned it, less its puts |
| `LruModel.GetReturns` | xenoPWM/kernel_source/lib/lru_cache.c:375-452 | the exact condition for a get to return an element, which then carries the label |
| `LruModel.StepLabels` | xenoPWM/kernel_source/lib/lru_cache.c:323-641 | what every operation does to the two labels of every element |
| `LruModel.StepFlags` | xenoPWM/kernel_source/lib/lru_cache.c:375-586 | when every operation sets and clears dirty, locked and starving |
| `LruModel.StepStats` | xenoPWM/kernel_source/lib/lru_cache.c:375-452 | what every operation adds to each of the counters |
| `LruModel.LockReturns` | xenoPWM/kernel_source/lib/lru_cache.c:67-75 | the two locks are taken exactly when no flag is set, or when not locked |
| `LruModel.SettleAll` | xenoPWM/kernel_source/lib/lru_cache.c:553-558 | the commit loop settles every label and moves every pending element into use |
| `Lru.LruCache.constructor` | xenoPWM/kernel_source/lib/lru_cache.c:99-170 | a fresh cache has every element free |
| `Lru.LruCache.Find` | xenoPWM/kernel_source/lib/lru_cache.c:263-281 | walking one hash chain finds the label iff some element carries it, pending ones only on request |
| `Lru.LruCache.LcFind` | xenoPWM/kernel_source/lib/lru_cache.c:294-297 | succeeds iff the label is committed |
| `Lru.LruCache.IsUsed` | xenoPWM/kernel_source/lib/lru_cache.c:309-313 | true iff an element with the label, pending or not, has references |
| `Lru.LruCache.PrepareForChange` | xenoPWM/kernel_source/lib/lru_cache.c:335-357 | takes the head of free or the tail of lru, rehashes it under the new label and moves it |
| `Lru.LruCache.LcGet` | xenoPWM/kernel_source/lib/lru_cache.c:375-452 | refines the specification of get, with the hash chains kept right |
| `Lru.LruCache.LcPut` | xenoPWM/kernel_source/lib/lru_cache.c:573-586 | refines put and returns the remaining references |
| `Lru.LruCache.LcCommitted` | xenoPWM/kernel_source/lib/lru_cache.c:548-561 | refines commit |
| `Lru.LruCache.LcDel` | xenoPWM/kernel_source/lib/lru_cache.c:323-333 | refines delete, with the element unhashed |
| `Lru.LruCache.LcSet` | xenoPWM/kernel_source/lib/lru_cache.c:620-641 | refines set, with the element rehashed; out-of-range indices change nothing |
| `Lru.LruCache.LcTryLock` | xenoPWM/kernel_source/lib/lru_cache.c:67-75 | locks iff not dirty, locked or starving |
| `Lru.LruCache.LcTryLockForTransaction` | xenoPWM/kernel_source/include/linux/lru_cache.h:280-283 | locks iff not locked |
| `Lru.LruCache.LcUnlock` | xenoPWM/kernel_source/include/linux/lru_cache.h:300-304 | clears dirty and locked |
| `Bitmap.FindNext` | xenoPWM/kernel_source/lib/find_bit.c:31-54 | the first bit from start on with the wanted value, or the size; for any word width |
| `Bitmap.Fill` | xenoPWM/kernel_source/lib/bitmap.c:252-291 | exactly the bits of the range take the value, all others stay |
| `AreaSearch.AlignUpLeast` | xenoPWM/kernel_source/lib/bitmap.c:318-319 | masking rounds up to the least aligned value |
| `AreaSearch.FindZeroArea` | xenoPWM/kernel_source/lib/bitmap.c:307-330 | the least aligned index from start on with nr free bits before size, or more than size if there is none |
| `AreaSearch.SpanMeaning` | xenoPWM/kernel_source/lib/iommu-helper.c:9-17 | the masked test says that first and last entry lie in different segments |
| `AreaSearch.IommuAreaAlloc` | xenoPWM/kernel_source/lib/iommu-helper.c:19-40 | the least index that is free, aligned, ends before the last bit and stays in one segment; exactly its bits are set; -1 iff there is none |
| `AreaSearch.BestFit` | xenoPWM/kernel_source/lib/genalloc.c:543-565 | the first of the shortest maximal free runs of at least nr bits, or size if there is none |
| `Pwm.PwmSet` | xenoPWM/main.c:108-125 | the duty of the first slot with the pin changes, and nothing else; not found iff there is none |
| `Pwm.SetMeans` | xenoPWM/main.c:108-125 | for any number of slots, a PWM_SET changes the duty and history of the first slot with the pin and nothing else |
| `Pwm.SetIsPwmSet` | xenoPWM/main.c:108-125 | the step of the run model is what the ioctl does to the array |
| `Pwm.RunDuties` | xenoPWM/main.c:78-125 | after any run a slot has the pin it was created with, and its duties are those of the PWM_SETs of that pin made since, if no earlier slot has it |
| `Pwm.CycleMeans` | xenoPWM/main.c:35-41 | a cycle adds the high time of the duty at its start and the low time of the duty at its middle |
| `Pwm.OthersRun` | xenoPWM/main.c:35-41 | the steps of a task leave all slots and all other tasks alone |
| `Pwm.Halves` | xenoPWM/main.c:14-17 | high and low time of one duty, computed in wrapping ints, add up to the quantum times the range plus 2^32 times the slip, and to the period alone iff the duty is regular |
| `Pwm.FittingIsRegular` | xenoPWM/main.c:14-17 | when neither product leaves the int range the duty is regular and the high time is the product |
| `Pwm.WrappedCycle` | xenoPWM/main.c:14-17 | duty 2148 on a range of 10 makes a cycle 2^32 ns short |
| `Pwm.StepKeeps` | xenoPWM/main.c:35-41 | no step moves whole cycles further off than the high time rose or fell, and the cycles that slipped |
| `Pwm.Deviation` | xenoPWM/main.c:35-124 | for every range and every int duty, in every interleaving: cycles are short by at most the rises and over by at most the falls of the high time, apart from slips, and regular duties do not slip |
| `Pwm.Reached` | xenoPWM/main.c:35-124 | for every range and regular duties both extremes are reached by a run |
| `Pwm.Irregular` | xenoPWM/main.c:35-124 | with an irregular duty a run exceeds one period per PWM_SET |
| `Pwm.PeriodPerSetIff` | xenoPWM/main.c:35-124 | one period per PWM_SET bounds every interleaving iff the duties are regular and their swing is within it |
| `Pwm.TimingBound` | xenoPWM/main.c:35-124 | under that condition total sleep over N cycles is within N*(PERIOD_NS mod R) + k*PERIOD_NS of N periods, in every interleaving with k PWM_SETs |
| `Pwm.TimingWithin` | xenoPWM/main.c:35-124 | ranges of at least 10 and duties within them always meet the condition |
| `Pwm.OutOfRangeExceeds` | xenoPWM/main.c:108-125 | a duty of 1000 on a range of 10, set between the halves of a cycle, exceeds one period |
| `Pwm.OverrunIff` | xenoPWM/main.c:78-106 | the slot array is overrun iff a PWM_INIT follows five that succeeded |
| `Pwm.SixInitsOverrun` | xenoPWM/main.c:78-106 | six successful PWM_INITs write past the slot array |

## Left out

- bzip2: the file and block headers, refilling the input buffer and the shift register of get_bits; bits are a sequence, and the byte table, selectors, code lengths and origPtr are parameters. An empty block is not entered.
- SymbolStage.SymbolReader.ReadSymbols: stops with its own outcome when the run counter or the sum it is added to leaves the int range; what the code does then is not modelled.
- Bunzip.BunzipData.Drain: covers one block; `FileRoundTrip.DecodeFile` goes through the blocks one after the other, while the code may fill the rest of one output buffer from the next block.
- idr: the pointer tree is modelled by position (level and prefix of a layer), so sharing of layers, the lookup hint and the prefix field are not captured; failing layer allocation, RCU, idr_for_each, idr_alloc_cyclic and IDA are not part of this model.
- genalloc: one chunk; the search function may return any place in range, and the searches themselves are in `Bitmap.dfy`. The loop over the chunks of a pool, and when it finds a place in a later chunk, is not modelled.
- GenPool.EveryInterleaving: runs hold requests whose bits are counted right (not `Miscounted`); a request whose count wraps is outside the runs, and `GenPool.HugeRequestBreaksBalance` shows what one does.
- klist: the get and put callbacks and klist_node_attached; lock-protected sections are single steps.
- kfifo: elements have size one, records and user copies are left out; steps are sequentially consistent in all protocol models.
- llist: the llist_add_batch chain is prepared by the caller and owned by it until the cmpxchg succeeds.
- crc32: the big-endian variant and big-endian hosts; it is the mirror image of the little-endian one.
- glob_match: characters are compared as values; the results cover patterns and strings without embedded terminators.
- list_sort: nodes are array indices and NULL is -1, so pointers into other objects are not modelled; cmp is a function of its two nodes, and the periodic callback to it has no effect.
- lru_cache: reference counts and statistics do not wrap; lc_reset, lc_index_of and printing are left out; labels are not LC_FREE and lc_set does not duplicate a label.
- bitmap: sums of indices do not wrap at the word size; searches promise a result for areas of at least one bit.
- Pwm.TimingBound: speaks of the programmed sleep as an unbounded sum of the ints passed to it, not of the time that passes; int arithmetic wraps, as the kernel is built; a range of 0 divides by zero in the thread, which then does no cycle, and after an overrun of the slot array nothing is claimed.
- GPIO, ioctl plumbing, device registration, kobject, devres, dma-debug, assoc_array, btree, BCH, LZMA, inflate and the other library files.
