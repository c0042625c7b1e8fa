# CVM: the pool allocator, MD5 and the interpreter's flags

CVM is a 32-bit virtual machine for C programs. This project models three of its parts and proves
what they are for. `dafny verify dfyconfig.toml` checks all of it.

**The pool allocator** (`rtlib/libs/mem.c`; `simulator/api/mem.c` is the same algorithm on the host).
Nine buckets of blocks of 16 to 4096 bytes, each an address-sorted list threaded through the free
blocks. `FreeLists` says what each list operation does, `PoolSpec` makes them a transition system over
free lists and live blocks, `PoolFacts` and `PoolResults` prove that free and live blocks tile the page
region in every reachable state and what a client may rely on. `HeapCells` lays the lists out in memory;
`PoolMachine` is the allocator itself, relinking words in place, every method proved to refine its
transition.

**MD5** (`vapps/md5.c`). `Md5Spec` is the table-driven algorithm of RFC 1321 as a fold over blocks;
`Md5Machine` is the unrolled transform and the byte codecs, `Md5Context` the buffered, counted,
chunk-by-chunk interface, which computes the specified digest of the whole message for every way of
cutting it.

**The interpreter** (`simulator/cpu.c`). `CpuStep` is the switch as a function that says, register by
register and for memory, what an instruction leaves; `CpuLoop` is the loop as a function, fetching at PC;
`CpuMachine` is the interpreter itself, in place. The results say what the flags mean to the jumps that
read them over whole runs of whatever program is in memory (`Status`), what the shifts and rotates compute
(`Shifts`), and exactly when an instruction does what its name says.

`PoolLaws`, `Md5Laws` and `CpuLaws` say once more what the calls, the digest and the instructions do, each
without the functions the models compute with: from the request and the lists, bit by bit, byte by byte,
opcode by opcode.

`Alignment` and `LostAlignment` settle when the pool's blocks stay aligned to their own size. `Arith`,
`Sizes`, `Bits`, `Bytes`, `Masks`, `Opcodes` and `Tiling` hold the arithmetic, the bit operators, the byte
order, the instruction fields and the geometry of intervals the rest stands on.

How the code is rendered:

- The allocator is modelled for the 32-bit target: a word is four bytes, a bucket three words, a header
  two. Memory is an array with one cell per byte address; a word sits in the cell of its first byte, and
  every access is proved to be 4-aligned and inside memory, so words never overlap.
- pool_add_free, pool_pull_upper, pool_try_shrink, pool_alloc_continues, pool_malloc, pool_free and
  pool_create are each one method, with their inner loops and branches as methods of their own.
- Create requires that at least one page fits behind the table, since the code writes through an
  unset pointer otherwise. Malloc requires that rounding the request does not overflow an int, and that
  the request fails or takes fewer than 65536 pages, since a header counts pages in 16 bits
  (HeaderRoundTrip, HeaderTruncates); in a pool below 65536 pages that is always so (SmallPoolRecords).
  Free requires a live block whenever the header passes the code's own checks. NULL is not a valid
  argument: the code reads the word before it.
- Words of memory and of MD5, and registers, are numbers below 2^32. `Bits` defines the bitwise operators
  bit by bit, with lemmas for what each does to every bit; sums and shifts drop what exceeds 32 bits.
  Update requires an input below 2^32 - 64 bytes, so that the loop bound cannot wrap.
- Signed sums and products of the interpreter, which the C language leaves open on overflow, wrap.
  Words lie in VM memory low-order byte first and char is signed, as on the hosts the simulator is built
  for. What comes from outside the machine (API results, and the outcome of an operation the language
  leaves open) is a parameter of the step. A fetch, load or store outside VM memory ends the run as a
  fault. A run takes one such parameter per turn, and every length of run is covered.

Where the code and its evident intention differ, the code is kept, with an input that shows it and the
exact condition under which the two agree:

- the merge test does not keep blocks aligned to their own size (BuddyAlignmentFails; MergeNatural,
  ShrinkNatural, FreeNatural);
- a run of exactly the pages asked for is refused (ExactRunIsRefused; LargeFailure, MallocFails);
- a header loses the count of 65536 pages (HeaderTruncates; HeaderRoundTrip);
- the order jumps misread a difference that does not fit in 32 bits (OrderJumpFails; JumpAfterCompare);
- ADD and MUL set V for negative results rather than for overflow (AddMisjudges, MulMisjudges;
  AddTellsOverflow, MulTellsOverflow);
- CLZ and CLO do not count (CountsFail; ClzRight, CloRight);
- MULT and MULTU form the product in 32 bits (WideProductsFail; MultRight, MultuRight).

## Model

| member | source | states |
|---|---|---|
| Sizes.AlignedToMeaning | rtlib/libs/mem.c:118-119 | The level-wise alignment predicate is divisibility by the block size, for every level and address. |
| Sizes.SplitAligned | rtlib/libs/mem.c:96-101 | Both halves of a block aligned to half its size are aligned to half theirs. |
| Sizes.MergeAligned | rtlib/libs/mem.c:118-126 | The own-size test of the merge gives exactly half-size alignment one level up. |
| Sizes.HeaderRoundTrip | rtlib/libs/mem.h:18-22 | The 16-bit idx and count of a header read back what was stored if and only if both are below 65536. |
| Sizes.HeaderTruncates | rtlib/libs/mem.h:18-22 | A run of 65536 pages would be recorded as a run of 0: the input on which the header loses the count. |
| Sizes.RoundUpFixpoint | rtlib/libs/mem.c:241-244 | Between p and 2p the rounding test of the size-class adjustment is an equality exactly at p. |
| Sizes.RoundUpLeast | rtlib/libs/mem.c:215-221 | The rounding idiom gives the least multiple from its argument on. |
| Masks.HeaderBits | rtlib/libs/mem.h:18-22 | The header word holds idx in its low half and count in its high half, bit by bit. |
| Masks.MaskTest | rtlib/libs/mem.c:119 | `addr & (size - 1)` is zero exactly for addresses aligned to the block size, bit by bit. |
| Masks.ClearLowIsMask | rtlib/libs/mem.c:215-221 | `x & ~(m - 1)` on a 32-bit word is x minus its remainder by the power of two m. |
| FreeLists.PosFrom | rtlib/libs/mem.c:61-64 | The insertion walk stops at the first node not below the block. |
| FreeLists.FirstRun | rtlib/libs/mem.c:12-28 | First fit: the least index at which n consecutive links join adjacent blocks, None only if there is no such index. |
| ListFacts.InsertRunMembers | rtlib/libs/mem.c:37-71 | Adding n blocks adds exactly those blocks and keeps all others. |
| ListFacts.InsertRunAscending | rtlib/libs/mem.c:37-71 | The insertion keeps the list strictly ascending. |
| ListFacts.AddFreeStep | rtlib/libs/mem.c:37-71 | Adding blocks that are not free keeps the invariant of all nine lists and adds exactly their pieces. |
| ListFacts.MergeStep | rtlib/libs/mem.c:118-126 | One merge replaces two adjacent pieces by the piece of twice the size and keeps the invariant. |
| ListFacts.SplitStep | rtlib/libs/mem.c:91-100 | One split replaces the head piece of a level by its two halves and keeps the invariant. |
| Tiling.ReplaceTiled | rtlib/libs/mem.c:73-135 | Replacing pieces by others that tile the same bytes keeps a tiling: the principle behind split, merge, hand-out and return. |
| SplitMerge.PullUpperKeeps | rtlib/libs/mem.c:73-102 | The recursive split keeps the invariant, every free byte and the sum of free_n * obj_size. |
| SplitMerge.PullUpperExact | rtlib/libs/mem.c:73-102 | With j the least non-empty level above the empty level idx: level j loses its head, each level between gets the one upper half, idx gets two adjacent blocks, nothing else changes. |
| SplitMerge.PullUpperNothing | rtlib/libs/mem.c:73-102 | With all levels above empty, nothing changes. |
| SplitMerge.PullUpperSucceeds | rtlib/libs/mem.c:73-102 | The split leaves blocks at idx if and only if some level above had one. |
| SplitMerge.ShrinkKeeps | rtlib/libs/mem.c:104-135 | The cascade of merges keeps the invariant, the set of free bytes, the free total, and every level below idx. |
| SplitMerge.ShrinkSaturates | rtlib/libs/mem.c:104-135 | On return no level from idx to 7 has a node that the merge test would accept. |
| SplitMerge.SaturatedMeaning | rtlib/libs/mem.c:117-131 | A saturated level holds no block c, aligned to its own size, together with the block c + size. |
| PoolSpec.LevelFor | rtlib/libs/mem.c:235-245 | The size class is the least level whose blocks hold the request. |
| PoolFacts.LinkRunIsRun | rtlib/libs/mem.c:14-24 | n links between neighbours are n adjacent blocks followed by one more. |
| PoolFacts.RunFits | rtlib/libs/mem.h:18-22 | In a pool below 65536 pages every run the search can find fits the 16-bit count. |
| PoolFacts.SmallPoolRecords | rtlib/libs/mem.h:18-22 | So such a pool can record every request it grants. |
| PoolFacts.MallocInv | rtlib/libs/mem.c:203-264 | Every request that fails or is below 65536 pages, in a pool of any size, keeps the tiling, the alignment and the order of the lists. |
| PoolFacts.FreeInv | rtlib/libs/mem.c:266-290 | Freeing any live block keeps them too, with or without the merge cascade. |
| PoolResults.CreateInv | rtlib/libs/mem.c:137-172 | Creation lays out page-aligned pages behind the table and strictly inside the region, at most one page short of its end; all of it free, the invariant established. |
| PoolResults.HistoryInv | rtlib/libs/mem.c:137-290 | Every history of recordable requests, frees of live blocks and writes to payloads keeps the invariant and the page region. |
| PoolResults.TilingOverEveryHistory | rtlib/libs/mem.c:137-290 | After creation and any history the free blocks and the live blocks are disjoint and are exactly the pages laid out. |
| Tiling.TiledExactlyOnce | rtlib/libs/mem.c:137-290 | What a tiling means: every byte of the region lies in exactly one piece, no other byte in any. |
| PoolResults.FreeBlockAligned | rtlib/libs/mem.c:96-126 | A free block at level i >= 1 is aligned to half its size, at level 0 to 16. |
| PoolResults.LiveBlockAligned | rtlib/libs/mem.c:245-263 | So is a live block, and the pointer returned for it is 8 modulo 16. |
| PoolResults.Gaps | rtlib/libs/mem.c:37-71 | Neighbours in a list are at least a block size apart. |
| PoolResults.FreeIsNotLive | rtlib/libs/mem.c:137-290 | A byte of the region is free if and only if it lies in no live block. |
| PoolResults.MallocTotals | rtlib/libs/mem.c:203-264 | A successful request lowers the free total by exactly its block. |
| PoolResults.MallocSuccess | rtlib/libs/mem.c:203-264 | It hands out one new block, large enough, all of it free before; no other block changes and exactly its bytes stop being free. |
| PoolResults.LargeFailure | rtlib/libs/mem.c:217-233 | A large request fails if and only if no run of one page more than it needs is free, and then changes nothing. |
| PoolResults.SmallFailure | rtlib/libs/mem.c:235-253 | A small request fails if and only if the least fitting level and all above it are empty, and then changes nothing. |
| PoolResults.ExactRunIsRefused | rtlib/libs/mem.c:12-28 | A pool of two adjacent free pages refuses a request for two pages: links are counted, not blocks. |
| PoolResults.SmallBlockIsTight | rtlib/libs/mem.c:235-245 | The block for a small request is less than twice the rounded request. |
| PoolResults.FreeSuccess | rtlib/libs/mem.c:266-290 | A free returns exactly the bytes of its block and raises the free total by its size. |
| PoolResults.MallocThenFree | rtlib/libs/mem.c:203-290 | A request and its free restore the live blocks, the set of free bytes and the free total, whatever became of the lists. |
| PoolResults.MallocKeepsLive | rtlib/libs/mem.c:203-264 | A request moves no live block and changes none. |
| PoolResults.LiveApart | rtlib/libs/mem.c:137-290 | Two live blocks share no byte. |
| PoolLaws.CreateNeeds | rtlib/libs/mem.c:149-158 | The precondition of creation says that some page, on a page boundary and behind nine buckets of three words, ends before the region does. |
| PoolLaws.FirstPageLeast | rtlib/libs/mem.c:150 | The first page is the least page boundary behind the table. |
| PoolLaws.CreatedPages | rtlib/libs/mem.c:137-172 | A page is on the top list of a new pool if and only if it is one that fits so; the list is in order, the other lists are empty, nothing is live. |
| PoolLaws.MallocFails | rtlib/libs/mem.c:203-253 | For every request: it fails if and only if it is 0, or no level whose blocks hold size + 8 bytes has one, or, beyond a page, no run of one page more than (size + 8) / 4096 rounded up is free; then nothing changes. |
| PoolLaws.SmallRequest | rtlib/libs/mem.c:235-263 | With i the least level that holds size + 8 bytes and j the least from i up with a block: the head of level j is handed out as a block of level i, the levels between and i get its upper halves, nothing else changes. |
| PoolLaws.LargeRequest | rtlib/libs/mem.c:217-233 | With k the first entry of the first long enough run: (size + 8) / 4096 pages, rounded up, from entry k on leave the top list as one block, nothing else changes. |
| PoolLaws.FreeLaws | rtlib/libs/mem.c:266-290 | Up to 16 blocks on the level, a free adds its blocks to the list in order and changes nothing else; beyond 16, it leaves no mergeable neighbours from that level to 7 and the levels below as they were. |
| Alignment.MergeNatural | rtlib/libs/mem.c:118-126 | From naturally aligned lists, a merge leads to naturally aligned lists if and only if the merged block is aligned to its new size. |
| Alignment.ScanNatural | rtlib/libs/mem.c:113-131 | The scan of a level keeps natural alignment if and only if every maximal run of two or more adjacent blocks starts at a multiple of twice their size. |
| Alignment.ShrinkNatural | rtlib/libs/mem.c:104-135 | So for the whole cascade, with the runs each level has when the scan reaches it. |
| Alignment.MallocNatural | rtlib/libs/mem.c:203-264 | A request keeps natural alignment of free and live blocks. |
| Alignment.FreeNatural | rtlib/libs/mem.c:266-290 | A free keeps it if and only if it sets off no cascade or one that meets only such even runs. |
| Alignment.NaturalOverHistories | rtlib/libs/mem.c:137-290 | A naturally aligned pool is so in every state of a history if and only if every free of it is of that kind. |
| Alignment.CreateNatural | rtlib/libs/mem.c:137-172 | A new pool is naturally aligned. |
| LostAlignment.BuddyAlignmentFails | rtlib/libs/mem.c:104-135 | A history of a nine-page pool after which the next free, of a naturally aligned block, puts a whole page at 10240 on level 8, which is no multiple of 4096. |
| PoolMachine.Pool.LinkBlocks | rtlib/libs/mem.c:49-52 | The loop writes the links of the run and no other word. |
| PoolMachine.Pool.Splice | rtlib/libs/mem.c:54-69 | Exactly three words change: the last link, the cell that now points at the run, and the count. |
| PoolMachine.Pool.AddFree | rtlib/libs/mem.c:37-71 | The words in memory represent the lists after the sorted insertion; words outside the table, the list and the run are unchanged. |
| PoolMachine.Pool.FreeN | rtlib/libs/mem.c:83-89 | free_n is the length of the chain, so it may be tested before free_list is followed. |
| PoolMachine.Pool.TakeHead | rtlib/libs/mem.c:91-93 | Unlinks the head block: memory represents the popped list, only the table changes. |
| PoolMachine.Pool.SplitHeadOf | rtlib/libs/mem.c:91-101 | In memory, the head of the level above becomes two blocks of this level; only the table and free blocks are written. |
| PoolMachine.Pool.PullUpper | rtlib/libs/mem.c:73-102 | The recursive method refines the split function and writes only the table and free blocks. |
| PoolMachine.Pool.MergePair | rtlib/libs/mem.c:120-127 | The pointer surgery of one merge refines MergeAt and returns the next node. |
| PoolMachine.Pool.ShrinkLevel | rtlib/libs/mem.c:113-131 | The loop with prev and curr refines the scan of one level. |
| PoolMachine.Pool.TryShrink | rtlib/libs/mem.c:104-135 | The recursive method refines the merge cascade and writes only the table and free blocks. |
| PoolMachine.Pool.FindRun | rtlib/libs/mem.c:12-28 | The search loop finds exactly the first fit, with prev, block and start where the unlinking needs them. |
| PoolMachine.Pool.AllocContinues | rtlib/libs/mem.c:7-35 | NULL and nothing changed without a fit; else the first page of the first fit, the list without exactly its n pages. |
| PoolMachine.Pool.HighestBit | rtlib/libs/mem.c:235-238 | The halving loop counts the position of the highest set bit, for every positive size. |
| PoolMachine.Pool.SizeClass | rtlib/libs/mem.c:235-245 | The log2 loop and its adjustment compute the least level that holds the size. |
| PoolMachine.Pool.Malloc | rtlib/libs/mem.c:203-264 | Memory, lists, live blocks and result are those of the transition system; words outside the table and free blocks are unchanged. |
| PoolMachine.Pool.MallocRun | rtlib/libs/mem.c:217-233 | The large branch refines its transition. |
| PoolMachine.Pool.MallocSmall | rtlib/libs/mem.c:235-263 | The small branch refines its transition. |
| PoolMachine.Pool.WriteHeader | rtlib/libs/mem.c:228-230 | Writes idx, count and magic of the new block, two words only, and establishes the invariant. |
| PoolMachine.Pool.HeaderReadsBack | rtlib/libs/mem.c:268-283 | The header of a live block still says what was written when it was handed out. |
| PoolMachine.Pool.LiveByteIsSafe | rtlib/libs/mem.c:203-290 | No byte of a live block is in the table or a free block, so no call rewrites it. |
| PoolMachine.Pool.Free | rtlib/libs/mem.c:266-290 | A header that fails a check changes nothing; otherwise the transition of a free; words outside the table, free blocks and the block are unchanged. |
| PoolMachine.Pool.FreeLive | rtlib/libs/mem.c:282-287 | The accepted branch: back on its list, merges if the list is longer than 16. |
| PoolMachine.Pool.ReturnToList | rtlib/libs/mem.c:282-283 | The live block goes back on its list. |
| PoolMachine.Pool.LayPages | rtlib/libs/mem.c:150-160 | The page loop lays out floor((limit - start - 1) / 4096) pages, each linked to the next, the last to NULL. |
| PoolMachine.Pool.InitTable | rtlib/libs/mem.c:162-166 | All nine buckets get their size, no blocks and an empty list. |
| PoolMachine.Pool.Create | rtlib/libs/mem.c:137-172 | NULL below one page; else memory holds the initial state of the transition system. |
| PoolMachine.Pool.ClientWrite | rtlib/libs/mem.c:263 | A client write inside its own payload keeps the whole invariant. |
| PoolMachine.Pool.Serve | rtlib/libs/mem.c:315-327 | Any sequence of requests, frees and payload writes drives the machine through a history of the transition system; every block that is never freed stays live, unchanged in place and size, and each of its words holds what the client last wrote there, or what it held before. |
| PoolMachine.Pool.StepCarries | rtlib/libs/mem.c:203-290 | One call leaves every word of every other live block as it was. |
| Bytes.WordOfSum | vapps/md5.c:82-96 | The four shifted and or'd bytes add up to b0 + 2^8 b1 + 2^16 b2 + 2^24 b3: low-order byte first. |
| Bytes.BytesOfWord | vapps/md5.c:66-80 | The four masked bytes are the base-256 digits of the word, low-order digit first. |
| Md5Spec.DecodeEncode | vapps/md5.c:66-96 | Decoding encoded words gives the words back, for every sequence. |
| Md5Spec.EncodeDecode | vapps/md5.c:66-96 | Encoding decoded bytes gives the bytes back, for every length that is a multiple of 4. |
| Md5Spec.FourOperations | vapps/md5.c:98-181 | Four table-driven operations in explicit rotating-argument form. |
| Md5Spec.PadLenMeaning | vapps/md5.c:58-59 | Between 1 and 64 bytes are added, to 56 modulo 64. |
| Md5Spec.PaddedBlocks | vapps/md5.c:53-64 | The padded message is a whole number of blocks. |
| Md5Spec.BlocksAppend | vapps/md5.c:36-45 | The fold over blocks splits at every block boundary. |
| Md5Laws.AuxiliaryBits | vapps/md5.h:12-15 | Bit by bit: F is if x then y else z, G is if z then x else y, H is the parity, I tells whether y differs from x or not z. |
| Md5Laws.StirUndone | vapps/md5.h:16-23 | An operation can be undone: subtract b, rotate back, subtract function value, word and constant. |
| Md5Laws.CompressAdds | vapps/md5.c:177-180 | A block adds to each state word, modulo 2^32, what the operations make of it. |
| Md5Laws.WordsOnce | vapps/md5.c:107-176 | Each round reads every word of the block exactly once. |
| Md5Laws.InitBytes | vapps/md5.c:16-19 | The initial state, as bytes, counts up from 01 23 45 67 and down again. |
| Md5Laws.EncodedByte | vapps/md5.c:66-80 | Byte 4 i + j of encoded words is base-256 digit j of word i. |
| Md5Laws.LengthByte | vapps/md5.c:60 | Byte j of the length is base-256 digit j of the length in bits. |
| Md5Laws.PaddedByte | vapps/md5.c:53-64 | The padded message byte by byte: the message, 0x80, zeros, the eight digits of the bit length, low-order first; at least 9 and at most 72 bytes more, a whole number of blocks. |
| Md5Machine.FF | vapps/md5.h:18-23 | The macro, written out with one sum, computes the word of the table-driven operation i of round 1. |
| Md5Machine.GG | vapps/md5.h:24-29 | The same for round 2. |
| Md5Machine.HH | vapps/md5.h:30-35 | The same for round 3. |
| Md5Machine.II | vapps/md5.h:36-41 | The same for round 4. |
| Md5Machine.Round1 | vapps/md5.c:107-122 | Written-out operations 1-16 equal the table-driven ones, the words back in their places. |
| Md5Machine.Round2 | vapps/md5.c:124-140 | The same for operations 17-32. |
| Md5Machine.Round3 | vapps/md5.c:142-158 | The same for operations 33-48. |
| Md5Machine.Round4 | vapps/md5.c:160-176 | The same for operations 49-64. |
| Md5Machine.MD5Decode | vapps/md5.c:82-96 | The loop decodes len bytes into len / 4 words and writes nothing else. |
| Md5Machine.MD5Encode | vapps/md5.c:66-80 | The loop encodes len / 4 words into len bytes and writes nothing else. |
| Md5Machine.MD5Transform | vapps/md5.c:98-181 | The unrolled 64 steps compute the table-driven compression of section 3.4 of RFC 1321. |
| Md5Context.LowWord | vapps/md5.c:28-29 | The two counter words are the low and high word of the bit count, and bits 3-8 of the low one are the buffer position. |
| Md5Context.CountMore | vapps/md5.c:30-34 | The manual carry keeps the pair equal to 8 times the length modulo 2^64. |
| Md5Context.Md5Ctx.constructor | vapps/md5.c:12-20 | Init: nothing seen, the state of section 3.3. |
| Md5Context.Md5Ctx.CountBits | vapps/md5.c:28-34 | The counting half of Update. |
| Md5Context.Md5Ctx.TakeBlocks | vapps/md5.c:36-45 | The block half: the state becomes the fold over all complete blocks seen. |
| Md5Context.Md5Ctx.Update | vapps/md5.c:22-51 | State, buffer and counters stand for the old message followed by the chunk. |
| Md5Context.Md5Ctx.AppendTrailer | vapps/md5.c:58-62 | The two closing updates append exactly the padding and length of sections 3.1 and 3.2. |
| Md5Context.Md5Ctx.Final | vapps/md5.c:53-64 | The digest is that of RFC 1321 on everything seen. |
| Md5Context.DigestChunks | vapps/md5.c:12-64 | Init, an Update per chunk, Final: the digest of the joined message for every way of cutting it. |
| Shifts.AsrBits | simulator/cpu.c:206-208 | The sign-filling shift puts bit k + n of the register at bit k, or its sign where k + n is past the end. |
| Shifts.SraIsAsr | simulator/cpu.c:206-208 | Or-ing the sign bit to it changes nothing. |
| Shifts.SraIsFloorDivision | simulator/cpu.c:206-208 | SRA is signed floor division by 2^n. |
| Shifts.ShiftBits | simulator/cpu.c:209-214 | SHL and SHR, defined by product and quotient, move every bit up or down by n. |
| Shifts.RolBits | simulator/cpu.c:10 | ROL32 moves bit k to bit k + n around the word, for amounts 1 to 31. |
| Shifts.RolRor | simulator/cpu.c:10-11 | ROR undoes ROL for amounts 1 to 31. |
| Shifts.RorRol | simulator/cpu.c:10-11 | ROL undoes ROR for amounts 1 to 31. |
| Opcodes.FieldsAreMasks | simulator/inst.h:7-13 | The fields of an instruction, defined by quotient and remainder, are what the shifts and masks of the macros extract. |
| Opcodes.SignExtension | simulator/cpu.c:37-38 | Or-ing ones above a constant field whose top bit is set gives its signed value. |
| Status.SetBitBits | simulator/cpu.h:56-59 | The SET macros set the one bit and change no other. |
| Status.ClearBitBits | simulator/cpu.h:60-63 | The CLEAR macros clear the one bit and change no other. |
| Status.GetBitMeaning | simulator/cpu.h:52-55 | The GET macros are non-zero exactly when the bit is set. |
| Status.CmpMacros | simulator/cpu.c:134-145 | The three pairs of macro calls of CMP replace the two low bits by 0, 2 or 1. |
| Status.CmpBits | simulator/cpu.c:132-147 | After CMP, N says that the 32-bit difference is negative and Z that it is zero; no other bit has moved. |
| Status.JumpAfterCompare | simulator/cpu.c:230-259 | JEQ and JNE always agree with the compared values; the four order jumps agree if and only if the difference fits in 32 bits. |
| Status.OrderJumpFails | simulator/cpu.c:240-244 | After comparing the largest int with -1, JLT is taken. |
| Status.VTells | simulator/cpu.c:148-155 | For any exact result, V (if clear before) tells its overflow if and only if its floor quotient by 2^31 is 0, or odd and not -1. |
| CpuStep.OnlyCompareSetsNZ | simulator/cpu.c:45-324 | No instruction but CMP and one that assigns r15 changes N or Z. |
| CpuStep.StepNotBoth | simulator/cpu.c:45-324 | No instruction that does not assign r15 leaves N and Z both set. |
| CpuStep.AddTellsOverflow | simulator/cpu.c:148-155 | ADD sets V for negative 32-bit sums and no others, so with V clear before it tells overflow if and only if the sum of the registers is not negative. |
| CpuStep.AddMisjudges | simulator/cpu.c:148-155 | 0 + -1 sets V without overflow; -2^31 + -1 overflows without V. |
| CpuStep.MulTellsOverflow | simulator/cpu.c:183-190 | MUL tells overflow if and only if the quotient of the exact product by 2^31 is 0, or odd and not -1. |
| CpuStep.MulMisjudges | simulator/cpu.c:183-190 | 1 * -1 sets V without overflow; 65536 * 65536 overflows without V. |
| CpuStep.StoreThenLoad | simulator/cpu.c:48-77 | A store changes exactly its own bytes, and the load of the same width reads the value back as far as it fits in them. |
| CpuLaws.OnlyRaChanges | simulator/cpu.c:48-228 | An instruction that assigns ra changes no other register but, for ADD and MUL, V; nor the coprocessor or memory. |
| CpuLaws.ArithmeticLaws | simulator/cpu.c:78-190 | ADD, ADDU, ADDIU, SUB, SUBU and MUL are right modulo 2^32; adding c back undoes a subtraction. |
| CpuLaws.SignedArithmetic | simulator/cpu.c:78-190 | As signed numbers they are exact if and only if the exact value fits in 32 bits. |
| CpuLaws.SetLaws | simulator/cpu.c:99-118 | SLT and SLTI give 1 exactly for a smaller signed value, SLTU and SLTIU for a smaller unsigned one, else 0. |
| CpuLaws.MoveLaws | simulator/cpu.c:81-86 | MOVZ moves exactly where rc is 0, MOVN exactly where it is not; otherwise nothing changes. |
| CpuLaws.LogicLaws | simulator/cpu.c:87-98 | AND, OR, XOR, their immediate forms and LUI, bit by bit. |
| CpuLaws.ShiftLaws | simulator/cpu.c:206-223 | SHL, SHR, SRA and their register forms, bit by bit, for amounts below 32. |
| CpuLaws.RotateLaws | simulator/cpu.c:200-229 | ROL, ROR and their immediate forms, bit by bit, for amounts 1 to 31. |
| CpuLaws.AccessLaws | simulator/cpu.c:48-77 | A load or store is refused exactly when one of its bytes is outside memory. |
| CpuLaws.LoadLaws | simulator/cpu.c:48-74 | Each load gives the bytes at Signed(rb) + c16, low-order first, zero-extended or, for LB and LH, as the signed value congruent to them. |
| CpuLaws.CoprocessorMoves | simulator/cpu.c:296-316 | The moves to and from HI, LO and the numbered registers, each with its whole new state. |
| CpuLaws.MovesRoundTrip | simulator/cpu.c:296-313 | What a move puts into HI, LO or a numbered register, the matching move takes out again. |
| CpuLaws.TruncLaws | simulator/cpu.c:288-291 | C division: a == q b + r, r smaller than b in size and with the sign of a. |
| CpuLaws.DivisionLaws | simulator/cpu.c:288-295 | DIV and DIVU leave that quotient in LO and that remainder in HI, whenever the language defines them. |
| CpuLaws.JumpLaws | simulator/cpu.c:119-131 | BEQ jumps exactly where the registers are equal, BNE where they differ; JMP, the calls and the return, each with its whole new state; JALR through r14 goes to its own return address. |
| CpuLaws.ConditionLaws | simulator/cpu.c:230-259 | Which of the six conditional jumps move PC, for each of the four values of N and Z; nothing else changes. |
| CpuLaws.CallReturn | simulator/cpu.c:263-275 | A return whose LR is the one a call left goes behind the call. |
| CpuLaws.FallsThrough | simulator/cpu.c:45-324 | No other instruction moves PC, except a write to coprocessor register 0. |
| CpuLaws.ApiLaws | simulator/cpu.c:317-320 | An API call changes r3 and memory only; any contents of memory are possible. |
| CpuLaws.Unchanged | simulator/cpu.c:46-47 | NOP does nothing, nor do unknown opcodes. |
| CpuLaws.ProductLaws | simulator/cpu.c:276-287 | MULT and MULTU: LO is the product modulo 2^32, HI the sign of LO, or 0; nothing else changes. |
| CpuLaws.ClzRight | simulator/cpu.c:162-170 | CLZ gives 0 always, which counts the leading zeros if and only if the top bit is set. |
| CpuLaws.CloRight | simulator/cpu.c:171-179 | CLO gives the lowest bit, which counts the leading ones if and only if it equals the top bit and, if both are set, the bit below the top is clear. |
| CpuLaws.CountsFail | simulator/cpu.c:162-179 | CLZ of 1 and CLO of 0xC0000000 are wrong. |
| CpuLaws.MultuRight | simulator/cpu.c:282-287 | HI and LO hold the product of MULTU if and only if it is below 2^32. |
| CpuLaws.MultRight | simulator/cpu.c:276-281 | HI and LO hold the product of MULT if and only if it fits in 32 bits. |
| CpuLaws.WideProductsFail | simulator/cpu.c:276-287 | 65536 * 65536 leaves 0 in both. |
| CpuLoop.FetchLaws | simulator/cpu.c:29-30 | A fetch reads the four bytes at PC, low-order first, is refused exactly when one is outside memory, and moves PC on by 4. |
| CpuLoop.LoopIsRun | simulator/cpu.c:28-331 | The loop makes k turns, each with the fetch and the operands in memory and SP above the end of the stack and none but the last bringing PC to 0, and stops in the state they lead to, for each of its outcomes, stack overflow and fault included. |
| CpuLoop.NeverBoth | simulator/cpu.c:28-329 | However the loop ends, N and Z are not both set, if they were not at first and no executed instruction assigns r15. |
| CpuLoop.RunKeepsNZ | simulator/cpu.c:28-329 | N and Z stay as they are while the loop executes no compare and nothing that assigns r15. |
| CpuLoop.CompareRunJump | simulator/cpu.c:132-259 | CMP, then any run of instructions that neither compare nor assign r15, then a conditional jump, as fetched from memory: PC moves by the offset exactly when the signed relation held (for the order jumps, if the difference fits in 32 bits). |
| CpuMachine.Machine.CompareFlags | simulator/cpu.c:132-147 | The macros of CMP, one by one, leave N and Z saying whether the 32-bit difference is negative or zero, every other bit of SW and every other register as it was. |
| CpuMachine.Machine.CountLeading | simulator/cpu.c:162-179 | The counting loops, with the comparison binding first, end after at most one turn: 0 for CLZ, the lowest bit for CLO. |
| CpuMachine.Machine.Execute | simulator/cpu.c:45-324 | The switch in place, opcode by opcode (byte stores, widened sums, counting loops, LR before PC), has the effect of Switch, which CpuLaws pins down opcode by opcode; and it keeps N and Z not both set, or unchanged, under the conditions of StepNotBoth and OnlyCompareSetsNZ. |
| CpuMachine.Machine.RunLoop | simulator/cpu.c:13-332 | The loop in place, fetching at PC from memory it may itself change, ends in the state and outcome of the loop function; with N and Z not both set if no executed instruction assigned r15; and where a compare led to a conditional jump, at the PC the compared values call for. |

## Left out

- pool_info, mem_init, sbrk and the malloc and free wrappers' test for a missing pool.
- The byte layout of the 64-bit host copy of the allocator: same algorithm, wider links.
- Frees of dead or foreign blocks whose header still passes the checks, and clients that overwrite headers.
- In Free, the diagnostics printed for a bad header; in Create, the message for too little memory.
- MD5's cryptographic strength; reading the sine table off the sine function (its 64 entries are constants).
- What the host does with an access outside VM memory: the run ends there.
- Division by zero and of -2^31 by -1, shifts by 32 or more, rotates by 0 or 32 or more: their outcome is open. Coprocessor numbers above 3 read an open value and write nothing.
- An API call (SSC) changes r3 and memory only; which function it calls, its arguments and the saved stack pointer prev_sp are not kept.
- The bits C, D, M and I of the status word, which no instruction sets.
- ELF loading, VM start-up, the other system calls and the sample host.
