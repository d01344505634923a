# Models of the algorithms in the kernel headers

The repository ships a set of Linux 5.12 kernel headers. Most of them declare things; a dozen
hold inline algorithms and protocols that are hard to get right. This project models those
and proves what they are for. `dafny verify dfyconfig.toml` checks all of it.

| file | what it models |
|---|---|
| `Bits.dfy` | machine words as natural numbers, bitwise and, or, xor, shifts, and the facts shared by the rest |
| `Div64.dfy` | division by a constant through a reciprocal multiplication, and `do_div` |
| `Math64.dfy` | the widening multiplications of `math64.h`, clients of `do_div` |
| `MmuGather.dfy`, `TlbShootdown.dfy` | `struct mmu_gather` with its operations, and the unhook, invalidate, free protocol they serve |
| `CtrMode.dfy` | the counter-mode walk and the XOR helpers under it |
| `QueuedRwLock.dfy` | the fast paths of the queued reader/writer lock |
| `CasAtomics.dfy` | atomics built from compare-and-swap loops |
| `TscPage.dfy` | the sequence-checked read of the Hyper-V TSC page |
| `VpSet.dfy` | CPU mask to sparse virtual-processor set |
| `WordAtATime.dfy` | the zero-byte search in a machine word |
| `XorTemplates.dfy` | the RAID-5 XOR routines, parity and recovery |
| `ErrorRecords.dfy` | the walk over the sections of an error status block |
| `Mmiowb.dfy`, `MmiowbOrder.dfy`, `MmiowbBound.dfy` | MMIO write barriers under nested spinlocks with interrupts: the operations, when barriers come, how long a mark stays |

Algorithms that update variables or buffers are methods with the source's branches and loops,
proved against a specification; structures updated in place are classes. Protocols between
threads, interrupts or hardware are state machines whose steps are the single atomic accesses
of the code, and results about them hold in every state that any run reaches. A C operation
that can leave its word is followed by an explicit wrap to 32, 64 or 16 bits.

## Where the code is narrower than its documentation

Each of these is stated as an if-and-only-if, with the failing family shown by a run or value.

- `__tlb_adjust_range` takes its size as `unsigned int` while its callers pass `unsigned long`:
  sizes from 4 GiB up and ranges that reach the end of the address space are not tracked in
  full (`MmuGather.AdjustCoversIff`), and a page can then be freed with its translation cached
  (`TlbShootdown.SafeIffSizesFit`). `tlb_remove_huge_tlb_entry` records nothing for a size
  other than PMD_SIZE and PUD_SIZE (`MmuGather.HugeRecordedIff`).
- The queued lock has 23 bits of readers: exclusion holds up to 2^23 threads and fails with one
  more (`QueuedRwLock.ExclusiveIff`).
- The TSC page protocol as documented does not forbid reuse of a sequence value. Publishing the
  value a reader holds over other fields than it has already read can make it mix two
  publications; anything else is harmless (`TscPage.ConsistentIffFresh`, `ConsistentIffNoReuse`).
- Record sizes in `ghes.h` are `int` although the length field is `u32`
  (`ErrorRecords.WalkVisitsRecordsIff`).
- `nesting_count` is a `u16`: every promise of `mmiowb.h` needs at most 65535 nested locks
  (`MmiowbOrder.OrderedIff`).
- An unlock inside an interrupt handler can come before the barrier of a write made under an
  outer lock, if the interrupt arrives while that write is being recorded or between the clearing
  store and the barrier (`MmiowbOrder.NextUnlockIff`); the outer lock itself is still given up
  after it.
- A handler that writes without a lock of its own can leave `mmiowb_pending` behind with no lock
  held, if an unlock below it is past its test (`MmiowbBound.BoundedExactly`, and by positions
  `MmiowbBound.BoundedIff`).

## Model

| member | source | states |
|---|---|---|
| `Div64.DoDiv` | com.silver-tree.ide-plugin/samples/include/asm-generic/div64.h:223-245 | for every 64-bit n and 32-bit base >= 1, each of the four branches leaves floor(n / base) in n and returns n mod base |
| `Div64.Div64Const32` | com.silver-tree.ide-plugin/samples/include/asm-generic/div64.h:69-162 | for every 64-bit n and every 32-bit b >= 1 the reciprocal multiplication returns exactly floor(n / b), through the special, the biased and the unbiased case alike |
| `Div64.OneTestDecides` | com.silver-tree.ide-plugin/samples/include/asm-generic/div64.h:86-121 | for a divisor that does not divide 2^64: the rounded-up multiplier divides all 2^64 dividends correctly if and only if it divides the one test dividend correctly, and if it does not, the rounded-down multiplier with bias divides all of them correctly |
| `Div64.RoundedUpAt` | com.silver-tree.ide-plugin/samples/include/asm-generic/div64.h:86-88 | a multiplier with rounding error e is right for a dividend exactly when the remainder and the accumulated error stay below one unit |
| `Div64.RoundedUpOffWorst` | com.silver-tree.ide-plugin/samples/include/asm-generic/div64.h:86-100 | away from remainder b - 1 the rounded-up multiplier is never wrong |
| `Div64.RoundedUpAtWorst` | com.silver-tree.ide-plugin/samples/include/asm-generic/div64.h:90-100 | at remainder b - 1 it is right if and only if n times the error is below p * 2^64, so larger dividends are the harder ones |
| `Div64.TestDividendIsWorst` | com.silver-tree.ide-plugin/samples/include/asm-generic/div64.h:90-91 | no 64-bit dividend with remainder b - 1 exceeds the test dividend |
| `Div64.RoundedDownExact` | com.silver-tree.ide-plugin/samples/include/asm-generic/div64.h:109-121 | m rounded down, with m itself added as bias, divides every 64-bit dividend correctly |
| `Div64.SpecialCase` | com.silver-tree.ide-plugin/samples/include/asm-generic/div64.h:103-108 | when the odd part of b divides 2^64 - 1, shifting out the even part and multiplying with bias gives n / b for every n |
| `Div64.BuildMultiplier` | com.silver-tree.ide-plugin/samples/include/asm-generic/div64.h:86-88 | the two 64-bit terms add up to ((p << 64) + add) / b without overflow whenever b is not a power of two |
| `Div64.TestProduct` | com.silver-tree.ide-plugin/samples/include/asm-generic/div64.h:94-99 | the inline product of multiplier and test dividend is the exact high word, with the one carry that can occur found by the comparison |
| `Div64.TryMultiplier` | com.silver-tree.ide-plugin/samples/include/asm-generic/div64.h:90-100 | the test evaluates the candidate multiplier on the largest dividend that leaves remainder b - 1 |
| `Div64.GeneralMultiplier` | com.silver-tree.ide-plugin/samples/include/asm-generic/div64.h:109-146 | whichever of the two general branches is taken, the resulting multiplier, scale and bias divide every 64-bit dividend |
| `Div64.ReductionBits` | com.silver-tree.ide-plugin/samples/include/asm-generic/div64.h:128-130 | the computed bit pattern never points past the lowest set bit of m |
| `Div64.ReductionDivisor` | com.silver-tree.ide-plugin/samples/include/asm-generic/div64.h:128-143 | the chosen reduction divides both m and p, so p cannot become zero |
| `Div64.ReduceMultiplier` | com.silver-tree.ide-plugin/samples/include/asm-generic/div64.h:122-146 | m and p are divided by one common factor exactly, and p stays positive |
| `Div64.ReductionKeepsQuotients` | com.silver-tree.ide-plugin/samples/include/asm-generic/div64.h:122-161 | such a reduction changes no quotient |
| `Div64.ReductionApplies` | com.silver-tree.ide-plugin/samples/include/asm-generic/div64.h:122-143 | for every divisor that is not a power of two, the lowest set bit of the rounded-up multiplier divides p |
| `Div64.LowestBit` | com.silver-tree.ide-plugin/samples/include/asm-generic/div64.h:103-106 | x & -x is the largest power of two dividing x and leaves an odd quotient |
| `Div64.SpecialDivide` | com.silver-tree.ide-plugin/samples/include/asm-generic/div64.h:103-108 | the special-case branch, run through the 64 x 64 product, returns n / b |
| `Div64.XProd64` | com.silver-tree.ide-plugin/samples/include/asm-generic/div64.h:175-213 | for all m, n and bias the result is floor(((bias ? m : 0) + m * n) / 2^64) |
| `Div64.CarryFromHalves` | com.silver-tree.ide-plugin/samples/include/asm-generic/div64.h:189-208 | comparing upper halves after a wrapping addition finds the carry exactly when there is one |
| `Div64.NoCarryMiddle` | com.silver-tree.ide-plugin/samples/include/asm-generic/div64.h:196-200 | with bits 63 and 31 of m clear, the two middle additions cannot overflow |
| `Div64.NoCarryLow` | com.silver-tree.ide-plugin/samples/include/asm-generic/div64.h:186-188 | with bits 63 and 31 of m clear, adding the bias cannot overflow |
| `Div64.RemainderFromLowWords` | com.silver-tree.ide-plugin/samples/include/asm-generic/div64.h:234-238 | the remainder formed from low 32-bit words only, with wrap-around, is n mod base |
| `Div64.DivideByPower` | com.silver-tree.ide-plugin/samples/include/asm-generic/div64.h:227-230 | mask and shift are remainder and quotient for a power of two |
| `Math64.MulU64U64Shr` | com.silver-tree.ide-plugin/samples/include/linux/math64.h:191-232 | for every a, b and shift: up to 127 the result is floor(a * b / 2^shift), truncated to 64 bits; from 128 on it is that if and only if the product has no bit that the shift modulo 64 would leave |
| `Math64.Mul128` | com.silver-tree.ide-plugin/samples/include/linux/math64.h:206-221 | the two words hold the full 128-bit product, no column sum loses a carry |
| `Math64.MulU64U32Div` | com.silver-tree.ide-plugin/samples/include/linux/math64.h:237-263 | two chained do_div calls give floor(a * mul / divisor), truncated to 64 bits, for every a, mul and nonzero divisor |
| `Math64.LongDivision` | com.silver-tree.ide-plugin/samples/include/linux/math64.h:255-262 | dividing digit by digit in base 2^32 is division of the whole number |
| `TlbShootdown.NoTranslationToFreedPage` | com.silver-tree.ide-plugin/samples/include/asm-generic/tlb.h:34-45 | in every run of gather operations interleaved with TLB fills at any point, no entry of a data, instruction, page-walk or secondary TLB leads to a freed page |
| `TlbShootdown.WholeFlushLeavesNothing` | com.silver-tree.ide-plugin/samples/include/asm-generic/tlb.h:374-378 | from every reachable state with need_flush_all or fullmm set, or without ranges, and something recorded, the flush begun leaves no entry outside the secondary TLB, whatever was recorded |
| `TlbShootdown.ForcedFlushLeavesNothing` | com.silver-tree.ide-plugin/samples/include/asm-generic/tlb.h:374-378 | setting need_flush_all makes the next flush such a one |
| `TlbShootdown.RangedFlushIsHull` | com.silver-tree.ide-plugin/samples/include/asm-generic/tlb.h:307-333 | in every reachable state a flush goes by range exactly when nothing forces the whole mm, and then from the lowest recorded address, or TASK_SIZE, to the highest recorded end, no wider |
| `TlbShootdown.FlushMmuFinishes` | com.silver-tree.ide-plugin/samples/include/asm-generic/tlb.h:416-436 | tlb_flush_mmu left alone runs through invalidation, notification and reset, frees exactly the queued pages, and leaves an empty batch |
| `TlbShootdown.QueuePageQueues` | com.silver-tree.ide-plugin/samples/include/asm-generic/tlb.h:431-436 | the page joins the queue, and a full queue begins the flush that frees it |
| `TlbShootdown.PageSizeChange` | com.silver-tree.ide-plugin/samples/include/asm-generic/tlb.h:452-463 | a flush begins exactly when a tracked page size changes to another and the whole mm does not go anyway |
| `TlbShootdown.SafeIffSizesFit` | com.silver-tree.ide-plugin/samples/include/asm-generic/tlb.h:307-313 | for every rule on what address and size callers may record: no translation outlives its page, in any run of any configuration, if and only if every size allowed fits 32 bits and ends inside the address space |
| `TlbShootdown.WideRecordFreesTooEarly` | com.silver-tree.ide-plugin/samples/include/asm-generic/tlb.h:307-313 | for any other size and address, a run that frees a page while its translation is cached, in a secondary TLB always and in the data TLB whenever flushes go by range |
| `TlbShootdown.NothingRecordedIsDropped` | com.silver-tree.ide-plugin/samples/include/asm-generic/tlb.h:416-429 | in every reachable state all ranges recorded since the last reset lie within start/end, one of the five bits is set if and only if something was recorded, and then an invalidation is issued |
| `TlbShootdown.RangedFlushCarriesVmaFlags` | com.silver-tree.ide-plugin/samples/include/asm-generic/tlb.h:389-405 | in every reachable state a ranged flush would carry the exec and huge flags of the VMA of every recorded leaf mapping, intermediate flushes included |
| `TlbShootdown.UnmapShiftIsSmallest` | com.silver-tree.ide-plugin/samples/include/asm-generic/tlb.h:465-477 | in every reachable state the shift is the smallest entry size recorded since the last reset, and one that was recorded |
| `TlbShootdown.StepKeeps` | com.silver-tree.ide-plugin/samples/include/asm-generic/tlb.h:307-655 | every step of the gather and of the environment keeps: bits match records, ranges covered, flags match, every TLB entry explained, no freed page reachable |
| `TlbShootdown.AnyClearedIffRecorded` | com.silver-tree.ide-plugin/samples/include/asm-generic/tlb.h:416-424 | the early return is taken exactly when nothing was recorded |
| `TlbShootdown.InvalidationReaches` | com.silver-tree.ide-plugin/samples/include/asm-generic/tlb.h:374-387 | the flush issued for a gather state removes every CPU TLB entry cached from a recorded mapping |
| `TlbShootdown.NotifierReaches` | com.silver-tree.ide-plugin/samples/include/asm-generic/tlb.h:427-427 | the range handed to the notifiers touches every entry cached from a recorded mapping |
| `MmuGather.AdjustCoversIff` | com.silver-tree.ide-plugin/samples/include/asm-generic/tlb.h:307-313 | the tracked range covers a request if and only if it already reached that far, or the size fits 32 bits and the end does not wrap |
| `MmuGather.WideSizeIsLost` | com.silver-tree.ide-plugin/samples/include/asm-generic/tlb.h:307-313 | a concrete 4 GiB size that the unsigned int parameter truncates to nothing |
| `MmuGather.HugeRecordedIff` | com.silver-tree.ide-plugin/samples/include/asm-generic/tlb.h:565-573 | whatever was recorded before: a huge entry sets the bit of its level if and only if its size is PMD_SIZE or PUD_SIZE, is then covered if and only if it fits or the range already reached that far, and any other size changes nothing |
| `MmuGather.HugeUnmapSize` | com.silver-tree.ide-plugin/samples/include/asm-generic/tlb.h:465-482 | after a huge entry in an empty batch the reported unmap size is that entry's size |
| `MmuGather.MmuGather.ChangePageSize` | com.silver-tree.ide-plugin/samples/include/asm-generic/tlb.h:452-463 | the batch is empty after a change of size, unless the whole mm goes or sizes are not tracked, in which case nothing is flushed |
| `MmuGather.MmuGather.AdjustTlbRange` | com.silver-tree.ide-plugin/samples/include/asm-generic/tlb.h:307-313 | a size and address that fit are covered afterwards, whatever was covered still is, and neither end moves further than that |
| `MmuGather.MmuGather.ResetTlbRange` | com.silver-tree.ide-plugin/samples/include/asm-generic/tlb.h:315-333 | no bit is set and, without fullmm, no range is covered afterwards; the VMA flags survive |
| `MmuGather.MmuGather.FlushLevelRange` | com.silver-tree.ide-plugin/samples/include/asm-generic/tlb.h:520-546 | covers the range, keeps what was covered, and sets exactly the bit of its level |
| `MmuGather.MmuGather.FreeTable` | com.silver-tree.ide-plugin/samples/include/asm-generic/tlb.h:621-655 | records one page at the level above the freed table and that a table was freed |
| `MmuGather.MmuGather.RemoveHugeEntry` | com.silver-tree.ide-plugin/samples/include/asm-generic/tlb.h:565-573 | a size of 2^PMD_SHIFT sets the pmd bit, another of 2^PUD_SHIFT the pud bit, and no entry any other bit; other sizes record nothing |
| `MmuGather.MmuGather.TlbFlush` | com.silver-tree.ide-plugin/samples/include/asm-generic/tlb.h:349-387 | the whole mm for fullmm or need_flush_all, otherwise the tracked range with the VMA's flags, and nothing if nothing was tracked; without range tracking the whole mm for any recorded range |
| `MmuGather.MmuGather.FlushMmuTlbonly` | com.silver-tree.ide-plugin/samples/include/asm-generic/tlb.h:416-429 | with a bit set: the invalidation for the old state, notification of the old range, then an empty batch; with none: no effect at all |
| `MmuGather.MmuGather.BeginVma` | com.silver-tree.ide-plugin/samples/include/asm-generic/tlb.h:490-497 | takes over the VMA's flags unless the whole mm goes |
| `MmuGather.MmuGather.EndVma` | com.silver-tree.ide-plugin/samples/include/asm-generic/tlb.h:501-513 | flushes and empties the batch unless the whole mm goes or ranges are not tracked |
| `MmuGather.ZapVma` | com.silver-tree.ide-plugin/samples/include/asm-generic/tlb.h:34-45 | tearing down any pages of one VMA through start, records, end and finish: one of the two invalidations reaches every page in full with the VMA's flags, and none is issued without pages |
| `MmuGather.MmuGather.GetUnmapShift` | com.silver-tree.ide-plugin/samples/include/asm-generic/tlb.h:465-477 | no level with its bit set is smaller, and the result is one of them; the base page without any |
| `CtrMode.CtrEncryptWalk` | com.silver-tree.ide-plugin/samples/include/crypto/ctr.h:20-63 | for every message, counter, walker and chunking, in place or not: byte j of what the walk came to is the message byte XOR byte j mod blocksize of the encryption of the block whose value is iv + j / blocksize, the rest is untouched, and the counter has the value iv plus the number of blocks; the walk fails if and only if the walker does, having come exactly as far as the pieces offered until then; -EINVAL exactly for a block size that is no power of two |
| `CtrMode.WalkPieces` | com.silver-tree.ide-plugin/samples/include/crypto/ctr.h:34-62 | the outer loop ends with the walker's error if and only if it gives one, after exactly the bytes of the pieces offered until then |
| `CtrMode.EncryptPiece` | com.silver-tree.ide-plugin/samples/include/crypto/ctr.h:47-58 | the inner loop encrypts its piece with the key stream of its position in the message |
| `CtrMode.EncryptBlock` | com.silver-tree.ide-plugin/samples/include/crypto/ctr.h:48-53 | one block or less is XORed with its key block and nothing else is written |
| `CtrMode.WholeBlocks` | com.silver-tree.ide-plugin/samples/include/crypto/ctr.h:42-45 | what is left of a piece for later is its remainder modulo the block size, or nothing if it ends the message, and never all of it |
| `CtrMode.KeyStreamByte` | com.silver-tree.ide-plugin/samples/include/crypto/ctr.h:47-58 | byte j of the key stream is byte j mod blocksize of the encryption of the one block whose value is iv + j / blocksize modulo the counter space |
| `CtrMode.CtrTwice` | com.silver-tree.ide-plugin/samples/include/crypto/ctr.h:20-63 | counter mode applied twice from the same counter is the identity |
| `CtrMode.CtrRoundTrip` | com.silver-tree.ide-plugin/samples/include/crypto/ctr.h:20-63 | the walk run twice in place from the same counter, each time in any chunking, restores the buffer when both succeed |
| `CtrMode.FirstByteCounts` | com.silver-tree.ide-plugin/samples/include/crypto/ctr.h:53-53 | the first byte of a counter is the most significant one |
| `CtrMode.IncrementValue` | com.silver-tree.ide-plugin/samples/include/crypto/ctr.h:53-53 | incrementing the big-endian counter adds one modulo 256^length |
| `CtrMode.CounterValue` | com.silver-tree.ide-plugin/samples/include/crypto/ctr.h:53-53 | after i blocks the counter is the initial value plus i modulo 256^length |
| `CtrMode.CountersDistinct` | com.silver-tree.ide-plugin/samples/include/crypto/ctr.h:53-53 | no counter block repeats before the counter space is used up |
| `CtrMode.XorCopy` | com.silver-tree.ide-plugin/samples/include/crypto/algapi.h:156-173 | the word loop, in either byte order, and the byte loop both leave the byte-wise XOR in the range and nothing else changed, also when source and destination are one buffer |
| `CtrMode.XorOneWord` | com.silver-tree.ide-plugin/samples/include/crypto/algapi.h:166-169 | one word step is the byte-wise XOR of its bytes |
| `CtrMode.WordXorIsByteXor` | com.silver-tree.ide-plugin/samples/include/crypto/algapi.h:162-169 | in both byte orders, XOR of two loaded words is the load of the byte-wise XOR |
| `QueuedRwLock.ExclusiveIff` | com.silver-tree.ide-plugin/samples/include/asm-generic/qrwlock.h:40-119 | a writer never holds the lock together with a reader or another writer, in any interleaving, if and only if there are at most 2^23 threads |
| `QueuedRwLock.ReadTrylock` | com.silver-tree.ide-plugin/samples/include/asm-generic/qrwlock.h:40-52 | undisturbed, the read trylock of any idle thread succeeds if and only if cnts modulo 0x200 is zero, adding 0x200, and otherwise changes nothing |
| `QueuedRwLock.ReadTrylockBacksOut` | com.silver-tree.ide-plugin/samples/include/asm-generic/qrwlock.h:46-50 | a reader that finds a writer after its addition leaves the word as it was |
| `QueuedRwLock.WriteTrylock` | com.silver-tree.ide-plugin/samples/include/asm-generic/qrwlock.h:59-69 | undisturbed, the write trylock succeeds if and only if cnts is zero, leaving 0xff, and otherwise changes nothing |
| `QueuedRwLock.LockFastPaths` | com.silver-tree.ide-plugin/samples/include/asm-generic/qrwlock.h:74-98 | the two locks enter at once under the same conditions and otherwise park, a reader with its bias kept, a writer without a trace |
| `QueuedRwLock.UnlockUndoesLock` | com.silver-tree.ide-plugin/samples/include/asm-generic/qrwlock.h:104-119 | each unlock restores the word its lock found |
| `QueuedRwLock.ReaderFieldIsExact` | com.silver-tree.ide-plugin/samples/include/asm-generic/qrwlock.h:23-27 | with fewer than 2^23 threads the reader field is, in every reachable state, the number of holders plus transient and parked biases, and the writer byte says whether a writer is in |
| `QueuedRwLock.StepKeeps` | com.silver-tree.ide-plugin/samples/include/asm-generic/qrwlock.h:40-119 | every atomic step of every thread keeps exclusion and the meaning of the word |
| `QueuedRwLock.WriteUnlockKeeps` | com.silver-tree.ide-plugin/samples/include/asm-generic/qrwlock.h:116-119 | the byte store of write unlock loses no concurrent reader increment |
| `QueuedRwLock.StoreKeepsTheRest` | com.silver-tree.ide-plugin/samples/include/asm-generic/qrwlock_types.h:13-27 | in both byte orders the wlocked byte is the low byte of cnts: storing zero clears it and nothing else |
| `QueuedRwLock.TooManyThreads` | com.silver-tree.ide-plugin/samples/include/asm-generic/qrwlock.h:74-98 | with one thread more, a run in which 2^23 readers wrap the word to zero and a writer joins them |
| `CasAtomics.Linearizable` | com.silver-tree.ide-plugin/samples/include/asm-generic/atomic.h:36-68 | in every run each returned call took effect exactly once, inside its own duration, after everything that had returned before it began, and returned the value just before or just after that point |
| `CasAtomics.ApplyArithmetic` | com.silver-tree.ide-plugin/samples/include/asm-generic/atomic.h:113-127 | add and sub are exact up to one wrap of 2^32 |
| `CasAtomics.ApplyBits` | com.silver-tree.ide-plugin/samples/include/asm-generic/atomic.h:129-151 | and, or and xor work bit by bit |
| `CasAtomics.Undisturbed` | com.silver-tree.ide-plugin/samples/include/asm-generic/atomic.h:36-68 | a call left alone takes one turn, leaves the operator's value, and returns nothing, the new or the old value as its kind says |
| `CasAtomics.NoCallIsLost` | com.silver-tree.ide-plugin/samples/include/asm-generic/atomic.h:41-43 | in every run each call begun is still looping or has taken effect, so a lost race gives nothing up |
| `CasAtomics.CounterIsFold` | com.silver-tree.ide-plugin/samples/include/asm-generic/atomic.h:36-68 | the counter is always the initial value folded over the calls in the order their cmpxchg succeeded |
| `CasAtomics.NoStrayEffect` | com.silver-tree.ide-plugin/samples/include/asm-generic/atomic.h:36-68 | every change of the counter belongs to a call that has returned or is about to |
| `CasAtomics.FailureMeansProgress` | com.silver-tree.ide-plugin/samples/include/asm-generic/atomic.h:41-43 | a cmpxchg fails only if another call took effect since the value was loaded |
| `CasAtomics.SwapKeeps` | com.silver-tree.ide-plugin/samples/include/asm-generic/atomic.h:42-43 | the loop step keeps the whole history consistent, for the swapping thread and all others |
| `TscPage.ConsistentIffFresh` | com.silver-tree.ide-plugin/samples/include/clocksource/hyperv_timer.h:60-82 | for every host, described by which sequence it may publish in which state: every returned time uses a scale and an offset published together under one nonzero sequence, in a publication current during the read, in all interleavings, if and only if the host never publishes the sequence a reader is holding where the reader would finish on values that neither this nor an earlier publication of the read has together |
| `TscPage.ZeroIsUnreliable` | com.silver-tree.ide-plugin/samples/include/clocksource/hyperv_timer.h:61-63 | a read begun on a page with sequence zero gives up at once, any other goes on with the sequence shown |
| `TscPage.UnreliableOnlyFromZero` | com.silver-tree.ide-plugin/samples/include/clocksource/hyperv_timer.h:61-63 | no other step makes a reader give up |
| `TscPage.CheckDecides` | com.silver-tree.ide-plugin/samples/include/clocksource/hyperv_timer.h:80-82 | another sequence at the end starts the read over, the same one ends it with floor(tsc * scale / 2^64) + offset modulo 2^64 |
| `TscPage.UndisturbedRead` | com.silver-tree.ide-plugin/samples/include/clocksource/hyperv_timer.h:60-82 | left alone on a valid page the five steps return the time from the page's own scale and offset |
| `TscPage.ConsistentIffNoReuse` | com.silver-tree.ide-plugin/samples/include/clocksource/hyperv_timer.h:60-82 | for hosts that look at the page and the reader: if and only if the held sequence is never published over a scale or offset other than the reader already has; publishing it again over the same values is harmless |
| `TscPage.ConsistentIffOtherSequence` | com.silver-tree.ide-plugin/samples/include/clocksource/hyperv_timer.h:60-80 | for hosts that look only at the sequence held: if and only if that one value is never published |
| `TscPage.RunKeeps` | com.silver-tree.ide-plugin/samples/include/clocksource/hyperv_timer.h:44-82 | with such a host, while the page shows the sequence held, what the reader has was published together during its read |
| `TscPage.ReuseTearsARead` | com.silver-tree.ide-plugin/samples/include/clocksource/hyperv_timer.h:60-80 | from any state in which another host may publish so, a run that returns values never published together |
| `TscPage.ReachAny` | com.silver-tree.ide-plugin/samples/include/clocksource/hyperv_timer.h:60-80 | whatever the policy, every invalid page and every reader past its first field meet in some run |
| `TscPage.ReuseGivesWrongTime` | com.silver-tree.ide-plugin/samples/include/clocksource/hyperv_timer.h:53-54 | with small numbers the time itself is one no publication gives |
| `TscPage.ComputeTime` | com.silver-tree.ide-plugin/samples/include/clocksource/hyperv_timer.h:82-82 | the multiply-and-shift helper computes floor(tsc * scale / 2^64) + offset modulo 2^64 |
| `VpSet.HvVpset.FromCpumask` | com.silver-tree.ide-plugin/samples/include/asm-generic/mshyperv.h:136-169 | a positive result means that decoding the packed sparse set gives exactly the VP numbers of the mask, whatever the banks held before, and that the count is the least covering them; 0 exactly when 64 banks cannot suffice; -1 exactly when a CPU has no VP number |
| `VpSet.PackedIndexCounts` | com.silver-tree.ide-plugin/samples/include/asm-generic/hyperv-tlfs.h:345-349 | the place of a bank is the number of valid banks below it |
| `VpSet.DenseContains` | com.silver-tree.ide-plugin/samples/include/asm-generic/hyperv-tlfs.h:345-349 | with all banks below n valid, packing leaves every bank in its place |
| `VpSet.SetBit` | com.silver-tree.ide-plugin/samples/include/asm-generic/mshyperv.h:160-163 | setting one bit adds exactly one processor to the set the banks hold |
| `VpSet.HvVpset.ClearBanks` | com.silver-tree.ide-plugin/samples/include/asm-generic/mshyperv.h:150-151 | after the first loop the banks hold no processor |
| `WordAtATime.HasZeroIff` | com.silver-tree.ide-plugin/samples/include/asm-generic/word-at-a-time.h:93-98 | for words of any number of bytes the test is nonzero if and only if some byte is zero |
| `WordAtATime.LowestMark` | com.silver-tree.ide-plugin/samples/include/asm-generic/word-at-a-time.h:93-98 | the lowest set bit of the result is the mark of the first zero byte, false marks can only lie above it |
| `WordAtATime.ZeroMask` | com.silver-tree.ide-plugin/samples/include/asm-generic/word-at-a-time.h:105-112 | the created mask is ones in exactly the bytes before the first zero byte, ready to be used as zero_bytemask |
| `WordAtATime.FindZeroLe64` | com.silver-tree.ide-plugin/samples/include/asm-generic/word-at-a-time.h:74-77 | multiply and shift counts the mask: the index of the first zero byte of a 64-bit word |
| `WordAtATime.FindZeroLe32` | com.silver-tree.ide-plugin/samples/include/asm-generic/word-at-a-time.h:82-88 | add, shift and mask counts it for a 32-bit word |
| `WordAtATime.SearchLe` | com.silver-tree.ide-plugin/samples/include/asm-generic/word-at-a-time.h:93-117 | the whole little-endian pipeline, 32 and 64 bit: found if and only if some byte is zero, and then the first one in memory order |
| `WordAtATime.HasZeroBeSame` | com.silver-tree.ide-plugin/samples/include/asm-generic/word-at-a-time.h:41-46 | the big-endian test computes the same word as the little-endian one |
| `WordAtATime.PrepZeroMask` | com.silver-tree.ide-plugin/samples/include/asm-generic/word-at-a-time.h:17-21 | with the value has_zero stored, the result marks exactly the zero bytes, without false marks |
| `WordAtATime.FindZeroBe` | com.silver-tree.ide-plugin/samples/include/asm-generic/word-at-a-time.h:25-39 | halving the word finds its most significant nonzero byte, counted from the top |
| `WordAtATime.ZeroBytemaskBe` | com.silver-tree.ide-plugin/samples/include/asm-generic/word-at-a-time.h:48-50 | ones in exactly the bytes that come before the first zero byte in big-endian memory |
| `WordAtATime.SearchBe` | com.silver-tree.ide-plugin/samples/include/asm-generic/word-at-a-time.h:14-46 | the whole big-endian pipeline, 32 and 64 bit: found if and only if some byte is zero, and then the first one in memory order |
| `XorTemplates.Xor8Regs` | com.silver-tree.ide-plugin/samples/include/asm-generic/xor.h:10-93 | one to four sources: for bytes a positive multiple of 64, the first bytes / 8 words of p1 end up with the word-wise XOR of all buffers and the rest is unchanged; fewer than 64 bytes still take one line |
| `XorTemplates.Xor32Regs` | com.silver-tree.ide-plugin/samples/include/asm-generic/xor.h:95-294 | the same through eight registers |
| `XorTemplates.Xor8RegsPrefetch` | com.silver-tree.ide-plugin/samples/include/asm-generic/xor.h:296-421 | the same with the count one short and the jump back into the loop: each line exactly once |
| `XorTemplates.Xor32RegsPrefetch` | com.silver-tree.ide-plugin/samples/include/asm-generic/xor.h:423-670 | the same for the register form with prefetch |
| `XorTemplates.JoinSources` | com.silver-tree.ide-plugin/samples/include/asm-generic/xor.h:55-60 | the left-to-right chain of XORs of one word is the XOR over all sources |
| `XorTemplates.XorRegisters` | com.silver-tree.ide-plugin/samples/include/asm-generic/xor.h:113-120 | XORing one source into the registers moves it from what is left to what is done |
| `XorTemplates.RangeIsParity` | com.silver-tree.ide-plugin/samples/include/asm-generic/xor.h:10-670 | each bit of the result is the parity of that bit over all buffers, and words past the range are as before |
| `XorTemplates.AccumulateIsOneXor` | com.silver-tree.ide-plugin/samples/include/asm-generic/xor.h:10-670 | however the sources are split over calls of the arities, the result is the XOR with all of them |
| `XorTemplates.XorAtPermuted` | com.silver-tree.ide-plugin/samples/include/asm-generic/xor.h:10-670 | the order of the sources does not matter |
| `XorTemplates.ParityRecovers` | com.silver-tree.ide-plugin/samples/include/asm-generic/xor.h:10-670 | parity of any stripe, accumulated in any mix of arities and order, gives back any one missing block when the others are accumulated into it in any mix and order |
| `ErrorRecords.WalkVisitsRecordsIff` | com.silver-tree.ide-plugin/samples/include/acpi/ghes.h:137-140 | for records of mixed revisions laid out back to back over data_length, the walk visits exactly their starts, in order, and ends, if and only if every record is below 2^31 bytes |
| `ErrorRecords.SmallRecordsVisited` | com.silver-tree.ide-plugin/samples/include/acpi/ghes.h:137-140 | that walk is the only one: any complete walk of such a block is the list of starts |
| `ErrorRecords.LargeRecordStrays` | com.silver-tree.ide-plugin/samples/include/acpi/ghes.h:127-135 | a record of 2^31 bytes or more sends every walk to an offset before the data |
| `ErrorRecords.WalkInsideIsRecordList` | com.silver-tree.ide-plugin/samples/include/acpi/ghes.h:137-140 | whatever the memory holds: a walk whose sections all lie within data_length has gone through a list of records that fills it exactly |
| `ErrorRecords.ZeroSizeNeverEnds` | com.silver-tree.ide-plugin/samples/include/acpi/ghes.h:127-135 | a length field that makes the int record size zero keeps the walk from ever ending |
| `ErrorRecords.LargeRecordExample` | com.silver-tree.ide-plugin/samples/include/acpi/ghes.h:127-135 | a concrete record whose successor lies before the block |
| `ErrorRecords.Layout` | com.silver-tree.ide-plugin/samples/include/acpi/actbl1.h:1340-1363 | in numbers: revision at offset 20, length at 24, payload at 64, or at 72 from revision 0x0300 on |
| `ErrorRecords.NextRecord` | com.silver-tree.ide-plugin/samples/include/acpi/ghes.h:127-135 | the int step to the next record is its size below 2^31 and 2^32 too low from there on |
| `ErrorRecords.ReadsRecord` | com.silver-tree.ide-plugin/samples/include/acpi/ghes.h:101-125 | version, header size, length and payload start read from memory are those of the encoded record |
| `ErrorRecords.ParseHolds` | com.silver-tree.ide-plugin/samples/include/acpi/actbl1.h:1340-1363 | any 64 or 72 bytes and their payload are the encoding of the record they spell |
| `ErrorRecords.ParseEncoded` | com.silver-tree.ide-plugin/samples/include/acpi/actbl1.h:1340-1363 | parsing an encoded record gives the record back, every field of it |
| `ErrorRecords.ForEachSection` | com.silver-tree.ide-plugin/samples/include/acpi/ghes.h:137-140 | the loop ends, visits every record start once and in order, and finds every payload |
| `MmiowbOrder.OrderedIff` | com.silver-tree.ide-plugin/samples/include/asm-generic/mmiowb.h:35-59 | with interrupts between any two loads or stores: whenever a lock is about to be given up, every write its own context made under a lock has had a barrier, and a recorded write of an interrupted context lacks one only while that barrier is itself interrupted; in all runs if and only if at most 65535 locks nest, wherever interrupts arrive |
| `MmiowbOrder.NextUnlockIff` | com.silver-tree.ide-plugin/samples/include/asm-generic/mmiowb.h:35-59 | every write made under a lock of the writing context's own has its barrier no later than the next unlock on its CPU, in all runs, if and only if no two locks nest, or at most 65535 do and no interrupt arrives while such a write is being recorded or between the clearing store and the barrier |
| `MmiowbOrder.WholeOperations` | com.silver-tree.ide-plugin/samples/include/asm-generic/mmiowb.h:35-59 | with interrupts only between whole operations that holds if and only if at most 65535 locks nest |
| `MmiowbOrder.UnshieldedRun` | com.silver-tree.ide-plugin/samples/include/asm-generic/mmiowb.h:49-59 | each of the four interrupted places has a run in which a handler's unlock comes before the barrier |
| `MmiowbOrder.RunKeepsOrder` | com.silver-tree.ide-plugin/samples/include/asm-generic/mmiowb.h:35-59 | every run keeps: the counter shows the locks held, values loaded before an interrupt are still right after it, and every write without a barrier is recorded, being recorded, or about to get its barrier |
| `MmiowbOrder.DeepNestingLosesBarrier` | com.silver-tree.ide-plugin/samples/include/asm-generic/mmiowb_types.h:7-10 | with 65536 locks held the 16-bit count is zero and a write goes without barrier |
| `MmiowbBound.BoundedExactly` | com.silver-tree.ide-plugin/samples/include/asm-generic/mmiowb.h:35-59 | for every policy of when handlers without a lock may write: pending never exceeds nesting, hence is zero with no lock held, in all runs, if and only if nesting stays within 16 bits and, wherever such a write can start above a held lock, going down the stack a context that holds or is taking a lock comes before any past the test in its unlock |
| `MmiowbBound.BoundedIff` | com.silver-tree.ide-plugin/samples/include/asm-generic/mmiowb.h:49-59 | for policies by position: if and only if no lock is ever taken, or nesting stays within 16 bits and each of the three positions after the test of mmiowb_pending is closed to interrupts or to such writes |
| `MmiowbBound.StrayWrite` | com.silver-tree.ide-plugin/samples/include/asm-generic/mmiowb.h:35-59 | from any state with such a write and nobody to notice it, a run that ends with pending above nesting |
| `MmiowbBound.RunKeepsOwner` | com.silver-tree.ide-plugin/samples/include/asm-generic/mmiowb.h:35-59 | every run under such a policy keeps: what is pending belongs to a context whose unlock will notice it before the count drops below it |
| `MmiowbBound.DeepNestingLeavesPending` | com.silver-tree.ide-plugin/samples/include/asm-generic/mmiowb_types.h:7-10 | a write recorded under 65535 locks is still pending when one more lock makes the count zero |
| `Mmiowb.CountedStep` | com.silver-tree.ide-plugin/samples/include/asm-generic/mmiowb.h:43-59 | every step of every context keeps nesting_count equal to the locks held, modulo 2^16, and every value loaded before an interrupt right |
| `Mmiowb.Operate` | com.silver-tree.ide-plugin/samples/include/asm-generic/mmiowb.h:35-59 | each operation run undisturbed on the structure leaves the counters that its single loads and stores leave in the machine, and a barrier leaves nothing unordered |
| `Mmiowb.CriticalSection` | com.silver-tree.ide-plugin/samples/include/asm-generic/mmiowb.h:35-59 | one critical section issues a barrier exactly when it had a device write |
| `Mmiowb.MmiowbState.SetPending` | com.silver-tree.ide-plugin/samples/include/asm-generic/mmiowb.h:35-41 | inside a lock the nesting depth becomes pending, outside nothing changes |
| `Mmiowb.MmiowbState.SpinLock` | com.silver-tree.ide-plugin/samples/include/asm-generic/mmiowb.h:43-47 | one level deeper, modulo 2^16 |
| `Mmiowb.MmiowbState.SpinUnlock` | com.silver-tree.ide-plugin/samples/include/asm-generic/mmiowb.h:49-59 | a barrier exactly when something was pending, nothing pending afterwards, one level up modulo 2^16 |

## Left out

- Weak memory ordering: every step is sequentially consistent, barriers and acquire/release suffixes count as satisfied.
- Functions whose sources are not in the headers are known by their documented contract only: `__div64_32`, the rwlock slow paths, the skcipher walker, `crypto_inc`, `__crypto_xor`, `flush_tlb_mm`, `flush_tlb_range`, the MMU notifiers, page batching in `__tlb_remove_page_size` and `tlb_flush_mmu`.
- Div64.LibraryDivide: stands for `__div64_32` and states its documented result; how the library divides is not modelled.
- CtrMode.NextPiece: the answers of `skcipher_walk_virt` and `skcipher_walk_done` are an input, any that offer at least one block while more data follows; how the walker maps and copies pages is not modelled, and `walk.iv` is taken to be exactly the bytes that are incremented.
- `crypto_xor` is CtrMode.XorCopy with destination and first source one buffer.
- MmuGather.WideSizeIsLost: a single value, the general statement is MmuGather.AdjustCoversIff.
- TlbShootdown.NoTranslationToFreedPage: assumes that recorded sizes fit, which TlbShootdown.SafeIffSizesFit shows to be necessary, that they are nonzero, and that leaf mappings are recorded inside the bracket of their own VMA.
- TlbShootdown.PageSizeChange: tlb_change_page_size stores the new page size before the flush it triggers instead of after it; no flush looks at the page size.
- Architectures that define their own `tlb_flush`, `tlb_start_vma` or `*_free_tlb`, page-table caches with explicit flushing, cache flushing in `tlb_start_vma`, and the table batching of `tlb_remove_table`.
- MmuGather.MmuGather.FlushLevelRange: one method for the four levels; tlb_remove_tlb_entry, tlb_remove_pmd_tlb_entry and tlb_remove_pud_tlb_entry are calls of it with a fixed size.
- XorTemplates.Xor8Regs: the four arities of each template are one method over the list of sources, words are 64 bit, and prefetches have no effect.
- CasAtomics.Linearizable: the SMP versions only; without SMP the operations disable interrupts, which is a different argument. Liveness of one thread is not claimed, and does not hold.
- MmiowbOrder.OrderedIff: one CPU; a task that moves to another CPU between the device write and its recording is not modelled.
- VpSet.HvVpset.FromCpumask: `vpset->format` is set by the caller, and CPUs are visited in increasing order.
- ErrorRecords.WalkVisitsRecordsIff: for 64-bit pointers, where the offset is compared as a signed number.
- ErrorRecords.NextRecord: signed `int` arithmetic is assumed to wrap, as the kernel is built; for lengths just below 2^31 the sum of the two sizes overflows.
- MmiowbOrder.NextUnlockIff: a handler's write without a lock of its own counts for no lock; what becomes of its mark is MmiowbBound.BoundedExactly.
- The 64-bit `do_div`, `mul_u64_u32_shr` and the other helpers of `math64.h`: plain operators or simpler copies of what is proved here.
- `qspinlock.h`: a simpler copy of the reader/writer lock argument.
- ACPI tables and resources, generated atomic wrappers, I/O accessors, linker scripts, page-table folding and the remaining crypto headers: declarations without an algorithm.
