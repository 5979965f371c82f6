# A verified model of a console Wi-Fi library's core

DSWiFi connects two ARM processors to a wireless network: one drives the hardware, the other runs the
application, and they share memory. With it comes a copy of Mbed TLS that runs on the larger console.
This project models the parts of both on which everything else rests, and proves them:

- **The buffer heap** (`HeapBlocks`, `HeapLists`, `HeapMemory`, `HeapTaking`, `HeapRelease`, `HeapVerify`, `BufferHeap`,
  `HeapRuns`): a first-fit allocator over one byte buffer, with an address-ordered list of all blocks and an unordered
  list of the free ones. Headers are bytes of the same memory that callers write to.
- **The packet rings** (`PacketRing`): a lock-free ring of variable-length packets between the two processors, as a
  state machine over single memory accesses, in any interleaving.
- **AES** (`Gf256`, `AesSpec`, `AesTables`, `Aes`, `AesExamples`): tables, key schedules and the unrolled rounds, against
  FIPS 197 and its examples.
- **Modes of a block cipher** (`KeyWrapSpec`, `KeyWrap`, `KeyWrapExamples`, `Xts`, `StreamModes`, `Cfb`, `Cbc`, `Padding`,
  `CipherLayer`, `ConstantTime`, `ModeExamples`): for an abstract pair of permutations. `Instances` shows that AES is one.
- **Hashing** (`Sha1Spec`, `Sha1`, `Sha1Examples`, `Hmac`, `HmacSha1`, `Pbkdf2`): streaming SHA-1, HMAC for an abstract digest and on
  an actual SHA-1 context, and PBKDF2.
- **Smaller cores** (`Crc16`, `AccessPoints`): the check sum of the stored settings, and the table of access points.

`Octets`, `ByteNumbers`, `Buffers`, `Pieces`, `Counters`, `Arithmetic` and `AesMode` hold what several of them share.
Specifications are functions and predicates on values; the code itself is methods with loops over arrays and the
fields of classes, proved against those functions. What the code and such a function share is fixed by the published
examples of the standards, or written out byte by byte, in the modules named `...Examples` and beside the functions.
`dafny verify dfyconfig.toml` checks everything.

## How the model reads the code

- A `size_t` of the heap and a word of the rings and of the branch-free primitives has 32 bits. Key wrapping is proved
  for 32-bit and 64-bit `size_t`, with the limits that are compiled in for each. In `Sha1` a length is any number, and
  what is counted of it is its value modulo 2^32, as in the code.
- Shifted halves that are or-ed without common bits (the bit length of SHA-1) are added, as numbers.
- The memory of the heap is a function from addresses to bytes, and a header is eight little-endian words in it. Every
  read and store of the code goes to these bytes, wherever a pointer leads; the maps of headers, the block sequence and
  the free list are ghosts, tied to the bytes by `BufferHeap.Heap.Intact`. The methods of the release run on any memory:
  the ghost flag `good` says whether there is an intact heap to make promises about.
- In the heap, `sizeof(memory_header)` is 32 and the alignment 4. The heap has no mutex, debug counters or backtraces.
- A step of a ring is one access to shared memory: a word, a byte of a packet, or an index. The producer's order is
  that of `source/arm7/ntr/rx_queue.c`: payload, zero word behind it, write index, size word. The write index is thus
  stored before the size word; it is read by the producer alone, so nothing depends on that order.
- A buffer that is only read is a sequence; one that is written is an array, not overlapping the others. `Context.Encrypt` and `Context.Decrypt` of AES return the block, and the caller stores it.
- Ghost arguments such as the bytes seen so far say where in a message a resumed context is.
- Spinning on a lock is left to succeed; a lock that is refused is a parameter.

## Where the code and what is said of it differ

- A packet of size zero is committed like any other, but its size word is the stop word: the ring stops for good
  (`PacketRing.EmptyHeadStalls`). `PacketRing.ArrivesBeforeEmpty` says exactly which packets arrive all the same.
- A pointer that was never handed out is turned down by `buffer_alloc_free`, unless the bytes before it read as the
  header of a block that is. A caller's own data can read so (`HeapRuns.LookalikeReleased`). `BufferHeap.Heap.Free` says
  exactly which pointers pass, and `HeapRuns.Session` under which rule for callers nothing of the kind matters.
- A packet size near 2^32 makes the total size wrap around, and the allocator grants a region that cannot hold it
  (`PacketRing.HugeSizeIsGranted`); a grant fits if and only if the size does not wrap (`PacketRing.GrantFits`).
- KWP wraps plaintexts of up to 2^32 - 1 bytes, as table 1 of SP 800-38F allows, but unwrapping refuses the ciphertexts
  of the seven longest ones with their padding (`KeyWrapSpec.UnwrapAfterWrap`). It takes a 64-bit `size_t` to get there.
- The tests for fewer than three semiblocks can never fail: the length tests before them exclude it. They are not modelled.
- `mbedtls_sha1_update` counts a call with 2^32 bytes or more modulo 2^32, and the padding is then wrong
  (`Sha1.LongPieceMiscounted`, `Sha1.PaddedRight`). With a 32-bit `size_t` there is no such call.
- PBKDF2 takes an iteration count of zero for one; RFC 2898 asks for a positive count.
- Zero padding does not come back from decryption when the last, partial block ends with a zero (`CipherLayer.RoundTrip`).
- A comment in `source/common/wifi_shared.h` says that an access point is removed when its counter reaches the timeout;
  the code removes it when the counter exceeds it (`AccessPoints.Table.Tick`).

## Model

| member | source | states |
|---|---|---|
| HeapBlocks.TakeTiling | mbedtls/library/memory_buffer_alloc.twl.c:253-332 | Handing out a free block, whole or split, keeps the tiling: blocks adjoin, cover the buffer, are aligned, and no two neighbours are free. |
| HeapBlocks.TakeWastesLittle | mbedtls/library/memory_buffer_alloc.twl.c:253-300 | A block that is handed out has fewer than 36 bytes more than were asked for; wherever 36 bytes are left over, all but a header of 32 becomes a free block. |
| HeapBlocks.ReleaseTiling | mbedtls/library/memory_buffer_alloc.twl.c:405-463 | Releasing a block with its regrouping on either side or both keeps the same tiling. |
| HeapBlocks.TakeLive | mbedtls/library/memory_buffer_alloc.twl.c:253-332 | Handing out a block adds exactly that block to the live ones and touches no other. |
| HeapBlocks.ReleaseLive | mbedtls/library/memory_buffer_alloc.twl.c:392-474 | Releasing a block removes exactly that block from the live ones. |
| HeapBlocks.NothingLive | mbedtls/library/memory_buffer_alloc.twl.c:618-630 | A tiled buffer without live blocks is one free block over the whole buffer, as check_all_free tests. |
| HeapBlocks.ReleaseAllRestores | mbedtls/library/memory_buffer_alloc.twl.c:618-630 | Releasing all live blocks, in any order, leaves the single initial block. |
| HeapLists.ChainSplit | mbedtls/library/memory_buffer_alloc.twl.c:296-332 | The header stores of a split keep prev and next mirrored along the blocks. |
| HeapLists.ChainAbsorb | mbedtls/library/memory_buffer_alloc.twl.c:411-462 | The header stores of a merge keep prev and next mirrored, and erase the absorbed header. |
| HeapLists.FreeUnlink | mbedtls/library/memory_buffer_alloc.twl.c:259-272 | Unlinking the k-th entry, first, inner or last, leaves a well linked, repeat-free list without it. |
| HeapLists.FreeInherit | mbedtls/library/memory_buffer_alloc.twl.c:445-456 | A header that takes over the links of another takes its place in the free list. |
| HeapLists.FreePrepend | mbedtls/library/memory_buffer_alloc.twl.c:468-474 | Prepending to the free list when nothing was merged. |
| HeapRelease.LinksBefore | mbedtls/library/memory_buffer_alloc.twl.c:407-421 | After merging into the block before, the free list is unchanged and holds exactly the free blocks. |
| HeapRelease.LinksAfter | mbedtls/library/memory_buffer_alloc.twl.c:425-463 | After merging with the block after, the released block stands where that one stood. |
| HeapRelease.LinksBothUnlink | mbedtls/library/memory_buffer_alloc.twl.c:433-443 | When both neighbours are free, the merged block first leaves its own place in the free list. |
| HeapRelease.LinksBoth | mbedtls/library/memory_buffer_alloc.twl.c:433-456 | When both neighbours are free, unlinking one place and inheriting the other leaves exactly the free blocks, once each. |
| HeapRelease.LinksNone | mbedtls/library/memory_buffer_alloc.twl.c:468-474 | With no free neighbour the block is prepended, and the list holds exactly the free blocks. |
| HeapRelease.ReleaseSteps | mbedtls/library/memory_buffer_alloc.twl.c:405-463 | The two regrouping steps, one after the other, are the release of the block sequence. |
| BufferHeap.OverflowTest | mbedtls/library/memory_buffer_alloc.twl.c:214-217 | The test `len / n != size` on the wrapped product finds exactly the products that overflow. |
| BufferHeap.FlagBits | mbedtls/include/mbedtls/memory_buffer_alloc.h:32-33 | The two verification flags are bits 0 and 1. |
| BufferHeap.Heap.Init | mbedtls/library/memory_buffer_alloc.twl.c:562-594 | Alignment, the minimal size, and one free block over the aligned buffer. |
| BufferHeap.Heap.FindFit | mbedtls/library/memory_buffer_alloc.twl.c:227-239 | The first entry of the free list that is large enough, or none exactly if none is. |
| HeapTaking.FitMeans | mbedtls/library/memory_buffer_alloc.twl.c:227-239 | No fit means that every free block is smaller than the request; a fit is large enough, one that is exactly as large included, and all listed before it are smaller. |
| BufferHeap.Heap.Unlink | mbedtls/library/memory_buffer_alloc.twl.c:259-272 | The stores that take an entry out of the free list. |
| BufferHeap.Heap.Inherit | mbedtls/library/memory_buffer_alloc.twl.c:445-456 | The stores with which one header takes the place of another in the free list. |
| HeapMemory.FieldStored | mbedtls/library/memory_buffer_alloc.twl.c:33-46 | A store to one field of a header, as bytes of memory, changes that field and no other, and no byte outside the header. |
| HeapMemory.HeaderLayout | mbedtls/library/memory_buffer_alloc.twl.c:33-46 | The words of a header lie in the order of the fields of memory_header: magic1 at 0, size at 4, alloc at 8, the four pointers from 12, magic2 at 28. |
| HeapMemory.ShowsPut | mbedtls/library/memory_buffer_alloc.twl.c:33-46 | A store to one header leaves every other header in memory as it was. |
| HeapMemory.PayloadUncovered | mbedtls/library/memory_buffer_alloc.twl.c:354-357 | No byte of what a block holds belongs to any header. |
| HeapTaking.TakeWholeOk | mbedtls/library/memory_buffer_alloc.twl.c:255-293 | The header fields after the branch without a split are those of an intact heap whose block is handed out. |
| HeapTaking.SplitStoredOk | mbedtls/library/memory_buffer_alloc.twl.c:296-332 | Any headers that the stores of a split can leave are those of an intact heap with the block split, and the new header overlaps none. |
| BufferHeap.Heap.TakeWholeBlock | mbedtls/library/memory_buffer_alloc.twl.c:255-293 | The branch that hands out a whole block keeps the heap intact and changes only bytes of headers. |
| BufferHeap.Heap.SplitBlock | mbedtls/library/memory_buffer_alloc.twl.c:296-332 | The branch that splits a block keeps the heap intact and changes only bytes of headers, the new one included. |
| BufferHeap.Heap.Calloc | mbedtls/library/memory_buffer_alloc.twl.c:199-358 | NULL exactly for a zero factor, an overflow, or no free block that fits, and then nothing changes; otherwise the first fit, its bytes zero, and no other byte of memory changed but in headers; never an exit. |
| HeapRelease.BeforeStates | mbedtls/library/memory_buffer_alloc.twl.c:405-421 | On an intact heap the first test finds exactly a free block before, and its stores leave the headers of the merged blocks. |
| HeapRelease.AfterStates | mbedtls/library/memory_buffer_alloc.twl.c:423-463 | The second test finds exactly a free block after, and its stores leave the headers and the free list of the released block. |
| HeapRelease.LastState | mbedtls/library/memory_buffer_alloc.twl.c:468-474 | Whether or not anything was merged, the release is complete after the last test. |
| HeapRelease.JoinDone | mbedtls/library/memory_buffer_alloc.twl.c:433-456 | Leaving the own place in the list, if there is one, and inheriting the other leaves exactly the free blocks, once each. |
| BufferHeap.Heap.RegroupBefore | mbedtls/library/memory_buffer_alloc.twl.c:405-421 | Merging with a free block before; on any memory, nothing is merged or stored if there is no block before. |
| BufferHeap.Heap.RegroupAfter | mbedtls/library/memory_buffer_alloc.twl.c:423-463 | Merging with a free block after; on any memory, nothing is merged or stored if there is no block after. |
| BufferHeap.Heap.ReleaseBlock | mbedtls/library/memory_buffer_alloc.twl.c:392-474 | The body of the release. Behind the header of a handed-out block it releases that block and changes only bytes of headers; behind one without neighbours, real or not, it puts that header in front of the free list. |
| BufferHeap.Heap.Free | mbedtls/library/memory_buffer_alloc.twl.c:360-479 | For a pointer in or outside the buffer: goes on if and only if the pointer is in the buffer, the 32 bytes before it pass verify_header with alloc 1, and, if asked for, the chain verifies afterwards. A block that is handed out there is released and the heap stays intact; a pointer that is turned down changes nothing; a header that is not a block goes to the front of the free list. |
| HeapVerify.FoundByHeader | mbedtls/library/memory_buffer_alloc.twl.c:377-390 | Where a block starts, verify_header and the alloc test accept exactly if it is handed out. |
| HeapVerify.HandedOutPasses | mbedtls/library/memory_buffer_alloc.twl.c:360-390 | The pointer to a block that is handed out passes all three tests. |
| HeapRuns.LookalikeReleased | mbedtls/library/memory_buffer_alloc.twl.c:360-479 | A run in which data of a caller read as a header: the release of a pointer that was never handed out goes on, and the free list then begins inside a block that is handed out. |
| HeapRuns.UnlikeRejected | mbedtls/library/memory_buffer_alloc.twl.c:360-390 | The same run with data of the caller that hold 1 where alloc would be, but no magic word: the release exits and changes nothing. |
| HeapRuns.SmallRequest | mbedtls/library/memory_buffer_alloc.twl.c:199-358 | Six bytes from a buffer at an odd address: eight bytes at the expected address, and the rest of the expected size behind a header of its own. |
| HeapVerify.HeaderGood | mbedtls/library/memory_buffer_alloc.twl.c:113-151 | Every header of an intact heap passes verify_header. |
| HeapVerify.GoodBytes | mbedtls/library/memory_buffer_alloc.twl.c:113-151 | A header is good if and only if its bytes pass: 55 AA 00 FF at 0 and 66 99 11 EE at 28, an alloc word of 0 or 1, and in neither list two equal pointers other than null. |
| BufferHeap.Heap.VerifyHeader | mbedtls/library/memory_buffer_alloc.twl.c:113-151 | The five tests in order: the result is 0 if and only if the bytes at the address pass, byte by byte. |
| BufferHeap.Heap.VerifyChain | mbedtls/library/memory_buffer_alloc.twl.c:153-197 | On any memory the walk ends, and it returns 0 if and only if the headers from the first one on are good, mirror each other and end with a null. |
| HeapVerify.NextPrefix | mbedtls/library/memory_buffer_alloc.twl.c:176-194 | A header that points back to the last one was not visited before, so the walk never goes in a circle. |
| HeapVerify.ValidChained | mbedtls/library/memory_buffer_alloc.twl.c:153-197 | On an intact heap verify_chain finds nothing. |
| BufferHeap.Heap.Store | mbedtls/library/memory_buffer_alloc.twl.c:354-357 | A store by a caller that stays within a block that is handed out keeps the heap intact. |
| HeapRuns.GrantedRange | mbedtls/library/memory_buffer_alloc.twl.c:354-357 | What calloc returns is aligned, large enough, in the buffer, and disjoint from every live block and its header. |
| HeapRuns.SizesAddUp | mbedtls/library/memory_buffer_alloc.twl.c:562-594 | Headers and sizes of all blocks add up to the length of the heap. |
| HeapRuns.AllocateAgrees | mbedtls/library/memory_buffer_alloc.twl.c:199-358 | After an allocation every block that was held reads as before, the new one reads as zeros, and its pointer is new. |
| HeapRuns.DeallocateAgrees | mbedtls/library/memory_buffer_alloc.twl.c:360-479 | After a release every other block that is held reads as before. |
| HeapRuns.WriteAgrees | mbedtls/library/memory_buffer_alloc.twl.c:354-357 | A store into one block changes what that block reads, and no other. |
| HeapRuns.HeldApart | mbedtls/library/memory_buffer_alloc.twl.c:354-357 | What is held behind different pointers never overlaps. |
| HeapRuns.Session | mbedtls/library/memory_buffer_alloc.twl.c:199-484 | Any run of calloc, free, stores into what was given, and verification settings: as long as the program releases and stores only what it holds, every call goes on, verify_chain returns 0 after each, and behind every pointer memory reads exactly what the program left there. The run stops only where the program breaks that rule, which it can check itself. |
| HeapRuns.ReleaseEverything | mbedtls/library/memory_buffer_alloc.twl.c:618-630 | Freeing all live blocks in any order restores the initial state of the actual heap. |
| PacketRing.StepOk | source/arm7/ipc.c:51-120 | Every access of either CPU keeps the ring invariant: no assertion fails, no access leaves the buffer, sent packets are received ones plus those in the buffer. |
| PacketRing.RunOk | source/arm7/ipc.c:51-120 | The invariant holds after every interleaving, from the cleared state on. |
| PacketRing.DeliveredInOrder | source/arm9/wifi_arm9.c:25-88 | In every interleaving the consumer has delivered a prefix of the committed packets, whole, unaltered and in order; the read index stays 4-aligned and at most size - 4. |
| PacketRing.GrantedRegionIsFree | source/arm7/ntr/rx_queue.c:20-61 | While the producer writes, the granted region and its stop word overlap no byte that is still to be read. |
| PacketRing.HeadStep | source/arm9/wifi_arm9.c:25-88 | Each access of either CPU delivers a head that is not empty, or keeps it and comes no further from delivering it; each of the consumer comes closer. |
| PacketRing.HeadIsDelivered | source/arm9/wifi_arm9.c:25-88 | In every continuation, however the two interleave, a head that is not empty has been delivered when the consumer has had four accesses more than the packet has octets. |
| PacketRing.ArrivesBeforeEmpty | source/arm9/wifi_arm9.c:25-88 | From any point of any run: the pending packets before the first empty one arrive in every continuation with enough accesses of the consumer; none of the others arrives in any. |
| PacketRing.AllArriveExactly | source/arm9/wifi_arm9.c:25-88 | Everything committed can still arrive if and only if no pending packet is empty. |
| PacketRing.EmptyHeadStalls | source/arm7/ntr/rx_queue.c:59-61 | Once a packet of size zero is at the head, nothing is ever delivered again. |
| PacketRing.RefusedExactly | source/arm7/ipc.c:51-120 | A request is refused if and only if neither the space behind the write index nor, when the free space goes round, the space before the read index is strictly larger than the packet with its two words; the start is taken if and only if only that fits. |
| PacketRing.IdleRingAccepts | source/arm7/ntr/rx_queue.c:20-38 | In every run: when all that was sent has arrived and the producer is ready, any packet that with its two words takes less than half of the buffer is accepted, wherever the indices are. |
| PacketRing.WordOctets | source/arm7/ipc.c:85-89 | The size word is stored with its least octet first, the stop word is four zeros, the wrap marker four times FF, and no other octet changes. |
| PacketRing.WakeCounts | source/arm9/wifi_arm9.c:34-87 | After the twenty-second packet since it woke the consumer goes to sleep, and never after a delivery before that. |
| PacketRing.WakeLimit | source/arm9/wifi_arm9.c:34-87 | In every run, while it does not sleep, the consumer has delivered at most twenty-one packets since it woke. |
| PacketRing.GrantFits | source/arm7/ipc.c:51-120 | What is granted fits the buffer if and only if the total size does not wrap around 2^32. |
| PacketRing.HugeSizeIsGranted | source/arm9/ipc.c:590-658 | A concrete size near 2^32 that is granted in either ring although it cannot fit. |
| PacketRing.CommitOk | source/arm7/ntr/rx_queue.c:42-61 | The size word, stored last, turns the finished region into the next packet of the ring. |
| PacketRing.WrapMarkOk | source/arm7/ipc.c:85-89 | The stop word at the start before the wrap word at the end keeps a reader from running into old data. |
| Gf256.PowerAdd | mbedtls/library/aes.twl.c:382-389 | Exponents of the generator add up in products. |
| Gf256.PowersCover | mbedtls/library/aes.twl.c:382-389 | Every nonzero byte is a power of 0x03, so the logarithm table is total. |
| Gf256.InverseIsInverse | mbedtls/library/aes.twl.c:408 | pow[255 - log[x]] is the multiplicative inverse. |
| AesTables.MulByLogCorrect | mbedtls/library/aes.twl.c:371 | The MUL macro by logarithms is the product of section 4.2 of FIPS 197, for all factors. |
| AesTables.FillPowLog | mbedtls/library/aes.twl.c:382-389 | The power and logarithm tables. |
| AesTables.FillSBoxes | mbedtls/library/aes.twl.c:399-420 | FSb is the S-box of section 5.1.1 of FIPS 197 and RSb its inverse. |
| AesExamples.SBoxLiteral | mbedtls/library/aes.twl.c:78-112 | The S-box, and so the generated table, is that of figure 7 of FIPS 197, which is also the literal table of the source, at all 256 places. |
| AesTables.FillForwardTables | mbedtls/library/aes.twl.c:422-439 | FT0 to FT3 hold the rotated columns of MixColumns after SubBytes. |
| AesTables.FillReverseTables | mbedtls/library/aes.twl.c:441-455 | RT0 to RT3 hold the rotated columns of InvMixColumns after InvSubBytes. |
| AesTables.FillRoundConstants | mbedtls/library/aes.twl.c:391-397 | The round constants are the powers of x. |
| AesExamples.RoundConstants | mbedtls/library/aes.twl.c:391-397 | The ten round constants of section 5.2 of FIPS 197, as literals. |
| AesTables.Tables.Generate | mbedtls/library/aes.twl.c:375-456 | All tables at once. |
| AesSpec.SubByteBijective | mbedtls/library/aes.twl.c:399-420 | The S-box and the inverse S-box undo each other. |
| AesSpec.MixColumnsInverse | mbedtls/library/aes.twl.c:430-447 | InvMixColumns undoes MixColumns. |
| AesSpec.CipherBijective | mbedtls/library/aes.twl.c:883-1000 | Cipher and inverse cipher undo each other, for every state and every round keys. |
| AesSpec.EqInvCipherIsInvCipher | mbedtls/library/aes.twl.c:729-748 | With the inner round keys through InvMixColumns, the equivalent inverse cipher of section 5.3.5 of FIPS 197 is the inverse cipher. |
| Aes.ForwardRound | mbedtls/library/aes.twl.c:831-853 | AES_FROUND is SubBytes, ShiftRows, MixColumns and AddRoundKey on the column packing. |
| Aes.ReverseRound | mbedtls/library/aes.twl.c:855-877 | AES_RROUND is one round of the equivalent inverse cipher. |
| Aes.Expand128 | mbedtls/library/aes.twl.c:620-631 | The key expansion of section 5.2 of FIPS 197 for ten rounds. |
| AesExamples.Expansion128 | mbedtls/library/aes.twl.c:620-631 | All eleven round keys of the example in appendix A.1 of FIPS 197. |
| Aes.Expand192 | mbedtls/library/aes.twl.c:636-649 | The key expansion for twelve rounds. |
| AesExamples.Expansion192 | mbedtls/library/aes.twl.c:636-649 | Word 6 of the example in appendix A.2. |
| Aes.Expand256 | mbedtls/library/aes.twl.c:653-674 | The key expansion for fourteen rounds, with its second S-box step. |
| AesExamples.Expansion256 | mbedtls/library/aes.twl.c:653-674 | Words 8 and 12 of the example in appendix A.3: rotated and substituted, and substituted alone. |
| Aes.InvertKeys | mbedtls/library/aes.twl.c:729-748 | The reversed schedule, with RT[FSb[.]] as InvMixColumns. |
| Aes.Context.SetKeyEnc | mbedtls/library/aes.twl.c:576-680 | Round keys are those of FIPS 197; other key lengths are refused and change nothing. |
| Aes.Context.SetKeyDec | mbedtls/library/aes.twl.c:687-754 | Round keys are those of the equivalent inverse cipher. |
| Aes.Context.Encrypt | mbedtls/library/aes.twl.c:883-938 | The unrolled rounds compute Cipher of section 5.1 of FIPS 197, for every block and every round keys. |
| Aes.Context.Decrypt | mbedtls/library/aes.twl.c:945-1000 | The unrolled rounds compute the equivalent inverse cipher. |
| Aes.BlockBijective | mbedtls/library/aes.twl.c:883-1000 | Under the two schedules of one key, decryption undoes encryption and the other way round. |
| AesExamples.CipherExample | mbedtls/library/aes.twl.c:883-938 | The block of appendix B of FIPS 197 goes through the key schedule and the cipher to the ciphertext that is printed there. |
| Aes.RoundTrip | mbedtls/library/aes.twl.c:687-1000 | Two contexts set up from one key encrypt a block and give it back, for 128, 192 and 256 bits. |
| Instances.AesPermutes | mbedtls/library/aes.twl.c:1024-1063 | AES meets what the modes ask of a block cipher, for every key. |
| ConstantTime.CtBool | mbedtls/library/constant_time_impl.h:183-203 | All ones exactly for a number that is not zero. |
| ConstantTime.CtIf | mbedtls/library/constant_time_impl.h:264-269 | Selection by a mask. |
| ConstantTime.CtLtExact | mbedtls/library/constant_time_impl.h:350-380 | The branch-free less-than is the unsigned comparison, for every pair of 32-bit words. |
| ConstantTime.CtGeExact | mbedtls/library/constant_time_impl.h:501-505 | So is greater-or-equal. |
| ConstantTime.SizeComparisons | mbedtls/library/constant_time_impl.h:495-511 | The comparisons as the code uses them: on any two lengths below 2^32 their masks are exact. |
| ConstantTime.CtNe | mbedtls/library/constant_time_impl.h:382-389 | Not-equal. |
| ConstantTime.CtEq | mbedtls/library/constant_time_impl.h:489-493 | Equal. |
| ConstantTime.CtMemcmp | mbedtls/library/constant_time.twl.c:68-117 | Zero exactly for equal buffers. |
| ConstantTime.CtMemcmpPartial | mbedtls/library/constant_time.twl.c:121-145 | Zero exactly if the buffers agree between the skipped ends, through the branch-free comparisons. |
| KeyWrapSpec.ShiftIsRotation | mbedtls/library/nist_kw.twl.c:206-236 | After any number of steps, the indexed semiblocks are the shifting registers of section 6.1 of SP 800-38F, rotated. |
| KeyWrapSpec.WrapIsW | mbedtls/library/nist_kw.twl.c:206-236 | After the 6(n - 1) steps both forms agree, for every number of semiblocks. |
| KeyWrapSpec.StepsUndone | mbedtls/library/nist_kw.twl.c:282-305 | Unwrapping steps in descending order undo wrapping steps. |
| KeyWrapSpec.UnStepsUndone | mbedtls/library/nist_kw.twl.c:282-305 | And the other way round. |
| KeyWrapSpec.UnwrapAfterWrap | mbedtls/library/nist_kw.twl.c:129-450 | What was wrapped is unwrapped, if and only if the mode is KW or the plaintext has at most 0xFFFFFFF8 bytes. |
| KeyWrapSpec.WrapAfterUnwrap | mbedtls/library/nist_kw.twl.c:323-450 | An accepted ciphertext is the wrapping of what unwrapping returns. |
| KeyWrapSpec.KwpAcceptsInput | mbedtls/library/nist_kw.twl.c:401-434 | The checks of KWP accept its own formatted plaintexts. |
| KeyWrapSpec.KwpAcceptsOnlyInput | mbedtls/library/nist_kw.twl.c:401-434 | They accept nothing else. |
| KeyWrapExamples.KwEnciphers | mbedtls/library/nist_kw.twl.c:163-164 | KW enciphers eight bytes A6 and the plaintext. |
| KeyWrapExamples.KwpEnciphers | mbedtls/library/nist_kw.twl.c:166-191 | KWP enciphers A6 59 59 A6, the length in four bytes, the plaintext, and fewer than eight zeros. |
| KeyWrapExamples.AcceptedLengths | mbedtls/library/nist_kw.twl.c:151-184 | The accepted lengths of plaintext and ciphertext, in bytes, for both modes. |
| KeyWrapExamples.SwapWrapping | mbedtls/library/nist_kw.twl.c:206-236 | Two semiblocks under a cipher that swaps the halves of its block, worked out: twelve steps, each number in its place. |
| KeyWrap.XorCounter | mbedtls/library/nist_kw.twl.c:117-123 | A is xored with the 64-bit big-endian step number. |
| KeyWrap.WrapLoop | mbedtls/library/nist_kw.twl.c:206-236 | The in-place loop with its cyclic pointer computes W of the buffer. |
| KeyWrap.Wrap | mbedtls/library/nist_kw.twl.c:129-250 | Accepted lengths, output size and contents; a refusal leaves the buffer as it was. |
| KeyWrap.UnwrapLoop | mbedtls/library/nist_kw.twl.c:260-317 | The descending in-place loop computes the inverse of W. |
| KeyWrap.PadLengthModulo | mbedtls/library/nist_kw.twl.c:408-418 | The wrapped difference is at most 7 only if the true one is: a plaintext length that is too large never passes. |
| KeyWrap.TooLongExact | mbedtls/library/nist_kw.twl.c:415-417 | The mask for a padding length above 7 is exact. |
| KeyWrap.CheckKwp | mbedtls/library/nist_kw.twl.c:401-434 | The checks, with their masks, accept exactly what KWP formats. |
| KeyWrap.Unwrap | mbedtls/library/nist_kw.twl.c:323-450 | Result, error code, and a cleared output after an authentication failure. |
| Instances.AesKeyWrap | mbedtls/library/nist_kw.twl.c:129-450 | The round trip with AES as the block cipher. |
| Xts.MulAlpha | mbedtls/library/aes.twl.c:1165-1178 | The two 64-bit words compute the byte-wise multiplication by the primitive element of section 5.2 of IEEE Std 1619-2007. |
| ModeExamples.Doubling | mbedtls/library/aes.twl.c:1165-1178 | Doubling byte by byte: 135 comes back for the carry out of the last byte. |
| Xts.FullBlocks | mbedtls/library/aes.twl.c:1224-1249 | The loop over full blocks; when deciphering with a remainder the last one takes the next tweak. |
| Xts.StealInPlace | mbedtls/library/aes.twl.c:1251-1282 | Ciphertext stealing, in the output buffer. |
| Xts.CryptXts | mbedtls/library/aes.twl.c:1189-1285 | Computes section 5.3.2 or 5.4.2 of IEEE Std 1619-2007 for 16 bytes up to 2^20 blocks, and refuses other lengths and modes. |
| Xts.StealUndone | mbedtls/library/aes.twl.c:1251-1282 | Stealing undoes itself with the two tweaks swapped. |
| ModeExamples.Stealing | mbedtls/library/aes.twl.c:1251-1282 | One block and a remainder enciphered, written out: which tweak serves which application, and which bytes go where. |
| ModeExamples.TwoUnits | mbedtls/library/aes.twl.c:1224-1249 | Two whole blocks written out. |
| Xts.UnitUndone | mbedtls/library/aes.twl.c:1189-1285 | Deciphering undoes enciphering, for every length from one block up. |
| Instances.AesXts | mbedtls/library/aes.twl.c:1189-1285 | The same with AES as the block cipher. |
| StreamModes.IncrementCounter | mbedtls/library/ctr.h:21-33 | The 16-byte counter steps by one modulo 2^128, carrying from word to word. |
| StreamModes.CryptCtr | mbedtls/library/aes.twl.c:1437-1481 | The chunk-wise loop xors the key stream from the carried position, and leaves a context for the next position. |
| StreamModes.CryptOfb | mbedtls/library/aes.twl.c:1398-1430 | The same for OFB. |
| StreamModes.MaskedConcat | mbedtls/library/aes.twl.c:1398-1481 | Processing a and then b from where a ended is processing a + b. |
| StreamModes.MaskedTwice | mbedtls/library/aes.twl.c:1398-1481 | Processing twice from the same position restores the input. |
| StreamModes.CtrPieces | mbedtls/library/aes.twl.c:1437-1481 | A message in pieces, through one context, is masked as a whole. |
| StreamModes.CtrRoundTrip | mbedtls/library/aes.twl.c:1437-1481 | However encryption and decryption are cut, the message comes back. |
| StreamModes.OfbPieces | mbedtls/library/aes.twl.c:1398-1430 | The same for OFB: a message in pieces is masked as a whole. |
| StreamModes.OfbRoundTrip | mbedtls/library/aes.twl.c:1398-1430 | And however the two are cut, the message comes back. |
| ModeExamples.CtrTwo | mbedtls/library/aes.twl.c:1437-1481 | Two blocks of CTR written out: the nonce is enciphered, then the nonce plus one. |
| ModeExamples.OfbTwo | mbedtls/library/aes.twl.c:1398-1430 | Two blocks of OFB written out. |
| Cfb.CryptCfb128 | mbedtls/library/aes.twl.c:1292-1349 | In both directions the output is what CFB makes of the ciphertext seen so far, and the context carries on. |
| Cfb.DecryptedEncrypted | mbedtls/library/aes.twl.c:1292-1349 | CFB decryption undoes encryption. |
| Cfb.EncryptedDecrypted | mbedtls/library/aes.twl.c:1292-1349 | And the other way round. |
| Cfb.CfbPieces | mbedtls/library/aes.twl.c:1292-1349 | A message in pieces, through one context, is that of the whole message. |
| Cfb.CfbRoundTrip | mbedtls/library/aes.twl.c:1292-1349 | However encryption and decryption are cut, the message comes back. |
| ModeExamples.CfbTwo | mbedtls/library/aes.twl.c:1292-1349 | Two blocks of CFB written out. |
| Cbc.DecryptedEncrypted | mbedtls/library/aes.twl.c:1072-1147 | CBC decryption undoes encryption. |
| Cbc.EncryptedConcat | mbedtls/library/aes.twl.c:1127-1142 | Encryption may stop after any block and go on from the last ciphertext block. |
| Cbc.DecryptedConcat | mbedtls/library/aes.twl.c:1109-1126 | So may decryption. |
| Cbc.AesCryptCbc | mbedtls/library/aes.twl.c:1072-1147 | Output, chained initialisation vector, and the two errors. |
| ModeExamples.CbcTwo | mbedtls/library/aes.twl.c:1127-1142 | Two blocks of CBC written out. |
| Padding.AddPadding | mbedtls/library/cipher.twl.c:831-978 | Each add-padding function writes its padding and keeps the data. |
| ModeExamples.ThreeBytes | mbedtls/library/cipher.twl.c:831-978 | The three bytes that each padding adds to thirteen bytes of data. |
| Padding.GetPkcs | mbedtls/library/cipher.twl.c:847-876 | PKCS7: accepts a block exactly if it is the padding of some data, and finds their length. |
| Padding.GetOneAndZeros | mbedtls/library/cipher.twl.c:895-920 | One and zeros: the same, and where it stops scanning. |
| Padding.GetZerosAndLen | mbedtls/library/cipher.twl.c:939-967 | Zeros and length: the same. |
| Padding.GetZeros | mbedtls/library/cipher.twl.c:980-998 | Zero padding: exactly the trailing zeros go. |
| Padding.GetPadding | mbedtls/library/cipher.twl.c:847-1017 | All of them against one definition. |
| Padding.StripsUnique | mbedtls/library/cipher.twl.c:847-1017 | The length that is found is never ambiguous. |
| Padding.PadStrips | mbedtls/library/cipher.twl.c:831-998 | Padding is stripped again; with zero padding if and only if the data do not end with a zero. |
| Padding.WordSub | mbedtls/library/cipher.twl.c:865 | The subtraction that gives the start of the padding, on words. |
| CipherLayer.Held | mbedtls/library/cipher.twl.c:651-664 | How many bytes are buffered: under 16, or 1 to 16 when a block is held back. |
| CipherLayer.Context.Update | mbedtls/library/cipher.twl.c:645-734 | The output so far is CBC of the message so far, but for the bytes held. |
| CipherLayer.Context.Finish | mbedtls/library/cipher.twl.c:1071-1119 | The last block, padded or stripped, and every error code. |
| CipherLayer.Crypt | mbedtls/library/cipher.twl.c:645-1119 | However a message is cut into updates, the outcome is that of the whole message at once. |
| CipherLayer.RoundTrip | mbedtls/library/cipher.twl.c:645-1119 | Exactly the messages that suit the padding come back from decryption. |
| ModeExamples.WholeBlocks | mbedtls/library/cipher.twl.c:1071-1119 | After whole blocks the padding is a block of its own; a ciphertext without any block is an error exactly if there should be padding. |
| ModeExamples.PartialBlock | mbedtls/library/cipher.twl.c:1071-1119 | A partial block is an error when decrypting, and when encrypting without padding. |
| Instances.HeaderValues | mbedtls/include/mbedtls/cipher.h:40-48 | The directions and the error codes have the values of the headers. |
| Instances.AesCbc | mbedtls/library/cipher.twl.c:645-1119 | The same with AES as the block cipher. |
| Sha1.ChIsChoose | mbedtls/library/sha1.twl.c:113 | The rewritten choice function is that of FIPS 180-1. |
| Sha1.MajIsMajority | mbedtls/library/sha1.twl.c:167 | The rewritten majority function is that of FIPS 180-1. |
| Sha1Examples.ShiftOne | mbedtls/library/sha1.twl.c:89 | The circular shift by one place, bit by bit. |
| Sha1Examples.ShiftFive | mbedtls/library/sha1.twl.c:102 | The shift by five is five shifts by one. |
| Sha1Examples.ShiftThirty | mbedtls/library/sha1.twl.c:104 | The shift by thirty is undone by two shifts by one. |
| Sha1Examples.Constants | mbedtls/library/sha1.twl.c:114-195 | The four constants are the integer parts of 2^30 times the square roots of 2, 3, 5 and 10. |
| Sha1Examples.InitialValue | mbedtls/library/sha1.twl.c:55-59 | The initial value, byte by byte. |
| Sha1.P | mbedtls/library/sha1.twl.c:100-105 | One macro step, with renamed registers, is one round of section 7 of FIPS 180-1. |
| Sha1.NextWord | mbedtls/library/sha1.twl.c:91-98 | The rolling queue of sixteen words yields the eighty words. |
| Sha1.FiveSteps | mbedtls/library/sha1.twl.c:116-120 | After five renamings every register has its own name again. |
| Sha1.Process | mbedtls/library/sha1.twl.c:65-225 | The compression function of section 7 of FIPS 180-1, for every state and block. |
| Sha1Examples.AbcDigest | mbedtls/library/sha1.twl.c:65-225 | The digest of "abc" is that of appendix A of FIPS 180-1, through padding, all eighty rounds and output. |
| Sha1.Context.Starts | mbedtls/library/sha1.twl.c:50-62 | A context that was used before is as new: nothing absorbed, nothing counted. |
| Sha1.Context.Update | mbedtls/library/sha1.twl.c:238-286 | The bytes seen grow by the input, whatever is buffered. |
| Sha1.CountUp | mbedtls/library/sha1.twl.c:253-258 | The carry test keeps the two words a 64-bit count. |
| Sha1.BitLength | mbedtls/library/sha1.twl.c:322-324 | The two shifted words are the bit length modulo 2^64. |
| Sha1.Context.PadBuffer | mbedtls/library/sha1.twl.c:301-317 | 0x80 and zeros, in one block or two. |
| Sha1.Context.Finish | mbedtls/library/sha1.twl.c:291-347 | The digest of the padded message. |
| Sha1.Hash | mbedtls/library/sha1.twl.c:238-347 | Any cutting gives the digest of the message, for pieces below 2^32 bytes; otherwise with the length that was counted. |
| Sha1.PaddedRight | mbedtls/library/sha1.twl.c:319-331 | The padding is right if and only if the count is right modulo 2^61. |
| Sha1.LongPieceMiscounted | mbedtls/library/sha1.twl.c:253-258 | One call with 2^32 bytes is counted as none. |
| Instances.Sha1Proper | mbedtls/library/md.twl.c:969-1015 | SHA-1 meets what HMAC asks of a digest. |
| Hmac.Context.MakePad | mbedtls/library/md.twl.c:994-1001 | The padded keys, from memset and xor. |
| Hmac.Context.HmacStarts | mbedtls/library/md.twl.c:969-1015 | Ready for a message under the key, hashed first if it is longer than a block. |
| Hmac.Context.HmacUpdate | mbedtls/library/md.twl.c:1017-1024 | The message so far grows by the input. |
| Hmac.Context.HmacFinish | mbedtls/library/md.twl.c:1026-1053 | HMAC of section 2 of RFC 2104 over the message; the pads survive. |
| Hmac.Context.HmacReset | mbedtls/library/md.twl.c:1055-1070 | Ready for another message under the same key. |
| Hmac.MacIs | mbedtls/library/md.twl.c:994-1048 | HMAC byte by byte: which pattern pads the inner block and which the outer, and what each digest is over. |
| HmacSha1.TwoMacs | mbedtls/library/md.twl.c:969-1070 | HMAC on one actual SHA-1 context, which is finished and started again four times or more: two messages under one key, each in any pieces, give the two values of section 2 of RFC 2104. |
| Pbkdf2.CountUp | mbedtls/library/pkcs5.twl.c:342-346 | The block index counts up, big-endian, with carries. |
| Pbkdf2.OneBlock | mbedtls/library/pkcs5.twl.c:296-334 | T of section 5.2 of RFC 2898: the xor of U1 to Uc, from one context. |
| Pbkdf2.Emit | mbedtls/library/pkcs5.twl.c:336-340 | The block goes behind the others, cut off where the key ends. |
| Pbkdf2.DerivedPrefix | mbedtls/library/pkcs5.twl.c:295-347 | The derived key is the start of T1 to Tk, for any k that is enough. |
| Pbkdf2.DerivedByte | mbedtls/library/pkcs5.twl.c:295-347 | Any byte of the key, for every count and length: it is the xor of the bytes at its place in the messages of its block, the first of which is the Mac of the salt followed by the index in four bytes. |
| Pbkdf2.FirstBlocks | mbedtls/library/pkcs5.twl.c:296-334 | With one iteration the first two blocks are the Macs of the salt followed by 00 00 00 01 and by 00 00 00 02. |
| Pbkdf2.Derive | mbedtls/library/pkcs5.twl.c:268-355 | The first keyLength bytes of T1, T2 and so on, for every password, salt, count and length. |
| Crc16.Crc16Slow | source/arm7/wfc.c:15-31 | The loop computes the check sum function. |
| Crc16.CrcIsFeed | source/arm7/wfc.c:15-31 | Xoring a whole byte in is feeding its bits, lowest first. |
| Crc16.CheckValue | source/arm7/wfc.c:15-31 | The digits 1 to 9 have the check sum BB3D. |
| Crc16.AcceptsExactly | source/arm7/wfc.c:64-66 | Data and two bytes pass if and only if the two bytes are their check sum, low byte first. |
| Crc16.BurstDetected | source/arm7/wfc.c:156-160 | Two different messages that differ within sixteen consecutive bits never have the same check sum. |
| AccessPoints.Table.ClearAll | source/arm7/access_point.c:16-34 | Clearing makes every slot inactive and its address zero. |
| AccessPoints.Table.Choose | source/arm7/access_point.c:53-95 | The slot of the address, or the first unused one, or the one updated longest ago. |
| AccessPoints.Table.Add | source/arm7/access_point.c:36-196 | Only the chosen slot changes, only with its lock, and every active slot stays the first one with its address. |
| AccessPoints.AddKeepsIdentity | source/arm7/access_point.c:55-123 | Uniqueness of active addresses survives reuse and eviction. |
| AccessPoints.EvictsOldest | source/arm7/access_point.c:80-95 | Only a full table evicts, and the victim has the largest counter. |
| AccessPoints.FirstSlotFirst | source/arm7/access_point.c:53-95 | In a cleared table of 32 slots the first address goes into slot 0. |
| AccessPoints.BeaconStores | source/arm7/access_point.c:108-184 | A known address keeps its signal strength unless the beacon brings a valid one; a new one starts from that of the beacon, or from zero. |
| AccessPoints.Table.Tick | source/arm7/access_point.c:198-219 | After a tick no active slot exceeds the timeout. |
| AccessPoints.StaysUntilTimeout | source/arm7/access_point.c:198-219 | Without another beacon an access point is active after n ticks if and only if n is at most the timeout. |
| AccessPoints.Timeouts | source/common/wifi_shared.h:32 | The timeouts are 27 ticks, and 270 on the larger console. |
| AccessPoints.ActiveUnique | source/arm7/access_point.c:72-74 | No two active slots have the same address. |
| AccessPoints.Observe | source/arm7/access_point.c:16-219 | Over any run of clearing, beacons and ticks: active addresses are unique, and the counter of an active slot is the number of ticks since the last beacon that was taken in for its address, within the time limit. |

## Left out

- The second copy of the size word's path on the DSi (`source/arm7/twl/rx_queue.twl.c`), which stores the same words in the same order.
- `Wifi_TWL_Update`, whose loop over the ring is that of `Wifi_NTR_Update`, and the loops over the transmit ring, of which only the allocator is modelled.
- Whatever the consumer's packet handlers do; taking a packet is reading its bytes.
- Memory ordering and caches between the two processors: accesses take effect in program order.
- `mbedtls_memory_buffer_alloc_verify` as a public call, statistics, and the mutex wrappers.
- HeapRuns.Session: what happens after the program has broken the rule is not modelled, but for one release, in `BufferHeap.Heap.Free`.
- BufferHeap.Heap.ReleaseBlock: a store through a null or overlapping pointer, which only a header that is not a block can have, is a store to that address; the variables of the heap itself lie outside the memory, which has no upper end.
- Key wrapping within one buffer: input and output do not overlap; and lengths so long that adding 16 to them exceeds `size_t`, which no buffer has.
- KeyWrap.Wrap: errors of the underlying cipher calls are not modelled, because AES in ECB mode with a whole block never fails.
- XTS with input and output overlapping: with a partial block the code writes output before it has read all input.
- CBC, CFB, OFB, CTR and the cipher layer with the output over the input, and the test for it in `mbedtls_cipher_update`.
- CFB8, GCM, CCM, ChaCha20, stream ciphers, and key splitting for XTS.
- Hardware AES, aligned round key offsets, word-wise and NEON variants of xor, assembly, and zeroisation.
- Timing: the branch-free code is proved to compute the right values, not to take the same time.
- The ROM literals of the AES tables but for the S-box: the tables are those that `aes_gen_tables` fills.
- KeyWrap.TooLong: where `size_t` has 64 bits, the mask is taken to be that of the comparison, because the branch-free primitives are modelled for 32 bits.
- Hmac.Context.Finish: the digest context is the message it has absorbed, because `md.twl.c` only dispatches; `HmacSha1` runs HMAC on the actual context of SHA-1.
- ASN.1 parsing of PKCS #5 parameters and the other entry points of `md.twl.c`.
- The fields of an access point other than its activity, address, counter and signal strength.
- The other tests that the loaders of the settings make, and the reading of the firmware.
- Association with an access point, scanning, multiplayer and Download Play, and the drivers: hardware, or code that is declared only.
