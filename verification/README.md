# Verified model of the self-contained algorithms of the EN673 firmware

The firmware of a dual-CPU camera SoC contains, next to register maps and device plumbing, nine
self-contained algorithms. This project models each of them in Dafny in the form the C code has
(objects and buffers updated in place, loops with their counters) and proves what they are for.

| file | models |
|---|---|
| `Machine.dfy`, `Bytes.dfy` | integer widths; 32-bit big-endian words in a byte array |
| `HeapSpec.dfy`, `HeapProofs.dfy`, `Heap.dfy` | the free-list allocator of `heap_2`: abstract transitions, their laws, and the allocator over its byte array with in-band headers |
| `ShellSort.dfy` | `qsort`, a Shell sort that exchanges raw bytes, and the Gale–Karp theorem it rests on |
| `Checksum.dfy` | the Internet checksum at both alignments, against RFC 1071 |
| `NumberText.dfy`, `NumberPrint.dfy` | number texts; `strrev`, `itoa`, `itoan`, `uitoan`, `enx_atoll` |
| `IpText.dfy`, `StringSearch.dfy` | `IPtoStr` and `strnstr` |
| `TimerSpec.dfy`, `TimerProofs.dfy`, `Timer.dfy` | the 16-slot timeout table and its runs |
| `LogRing.dfy` | the cyclic log region |
| `MacFilter.dfy` | the multicast list and the hardware filter |
| `CodeWatch.dfy` | code sections compiled to chained watchpoint comparators |
| `IntegerSqrt.dfy` | `floorSqrt` |

Conventions. The allocator state is a sequence of tiles in address order, the free list in list order
and the byte count; the class `Heap.Heap` keeps it as a ghost field that `Valid()` ties to the bytes of
the array, where links are absolute addresses and the two sentinels lie outside the array. Each
allocator call runs with the scheduler suspended in the source and is one step here. A DMA copy is a
plain copy, a hardware filter is a set, and a function pointer is a number that is zero for null.

Where the code falls short of what it is for, the project says exactly where. `itoan`, which parks digits
in its own output, is right for every length up to 33; beyond that it is right exactly when each parked
digit equals the character that overwrites it (`NumberPrint.CopySafe`), so that a blank-padded zero of
length 34 comes out wrong and an eleven of that length right. `floorSqrt` is right exactly when no probe
misleads it, which below 2^30 is a condition on the halvings of a quarter of the argument, and first fails
at 262142. The checksum accumulator holds up to 131074 bytes. The allocator's size arithmetic is right
exactly up to 0xFFFFFFF0; the four requests above that are refused, and from 0xFFFFFFF5 on a request is
answered with a block that is too small for it. Shell sort, the filter and the search routines have no
such limits.

## Model

| member | source | states |
|---|---|---|
| HeapSpec.PaddedIsLeast | cpu1/rtos/heap_2.c:172-182 | the 32-bit size computation yields the least aligned size holding header and request exactly when the request is at most 0xFFFFFFF0, zero exactly for 0xFFFFFFF1 to 0xFFFFFFF4, and at most the header's own size above |
| HeapProofs.InitialWellFormed | cpu1/rtos/heap_2.c:133-151 | the fresh heap is one free block tiling the array, with every byte free and no pointer live |
| HeapProofs.MallocWellFormed | cpu1/rtos/heap_2.c:154-227 | malloc keeps tiling, alignment, size-ordered duplicate-free list holding exactly the free blocks, and conservation of bytes |
| HeapProofs.ReleaseWellFormed | cpu1/rtos/heap_2.c:244-266 | free keeps the same invariant |
| HeapProofs.RunWellFormed | cpu1/rtos/heap_2.c:154-266 | the invariant holds in every state of every run of mallocs and frees of live pointers |
| HeapProofs.EveryByteInOneTile | cpu1/rtos/heap_2.c:133-151 | every byte of the array lies in exactly one live or free block: no overlap, no gap |
| HeapProofs.MallocServes | cpu1/rtos/heap_2.c:197-222 | a returned pointer is aligned and heads a live block with room for header and request and at most 24 bytes of slack |
| HeapProofs.MallocFailsExactly | cpu1/rtos/heap_2.c:184-197 | malloc fails, changing nothing, exactly for a zero request, one whose size wraps to zero, a padded size reaching the heap size, or when no free block is large enough |
| HeapProofs.MallocBestFit | cpu1/rtos/heap_2.c:186-205 | the block taken is a smallest adequate free block |
| HeapProofs.MallocSplits | cpu1/rtos/heap_2.c:197-222 | a served request takes the first padded bytes of a smallest adequate block and leaves the rest listed if and only if that is more than 24 bytes, else the whole block; count, list and tiles change by exactly this |
| HeapProofs.FirstRequest | cpu1/rtos/heap_2.c:133-222 | on a fresh heap the first request gets the start and leaves the rest free if that is more than 24 bytes |
| HeapProofs.MallocAddsPointer | cpu1/rtos/heap_2.c:197-205 | a pointer handed out was not live before, and no other pointer becomes or ceases to be live |
| HeapProofs.ReleaseDropsPointer | cpu1/rtos/heap_2.c:244-266 | free ends the pointer it is given and no other |
| HeapProofs.ReleaseFrees | cpu1/rtos/heap_2.c:244-266 | free gives back exactly the block of the pointer to list and count |
| HeapProofs.WrappedRequest | cpu1/rtos/heap_2.c:172-199 | from 0xFFFFFFF5 on, a request is answered with the smallest free block, whenever there is one, and that block is smaller than header and request |
| HeapProofs.InsertThenFind | cpu1/rtos/heap_2.c:121-129 | insertion goes before equal sizes, so a search for that size finds the inserted block first and removing it restores the list |
| HeapProofs.MallocFreeMalloc | cpu1/rtos/heap_2.c:190-262 | malloc, free, malloc of the same amount returns the same pointer and exactly the state after the first malloc |
| Heap.Heap.constructor | cpu1/rtos/heap_2.c:95-103 | the static data before the first call |
| Heap.Heap.Init | cpu1/rtos/heap_2.c:133-151 | prvHeapInit writes the sentinels and the first header so that memory represents the fresh heap |
| Heap.Heap.WalkPastSmaller | cpu1/rtos/heap_2.c:121-124 | the insertion walk stops at the first block at least as large, or at the end marker, and terminates |
| Heap.Heap.InsertBlock | cpu1/rtos/heap_2.c:112-130 | in memory the block is linked where the ordered insertion puts it; only link words change |
| Heap.Heap.Search | cpu1/rtos/heap_2.c:188-194 | the first-fit walk finds the first adequate block and its predecessor, or the end marker, and terminates |
| Heap.Heap.Split | cpu1/rtos/heap_2.c:208-222 | the cut writes two size words and links the rest |
| Heap.Heap.PortMalloc | cpu1/rtos/heap_2.c:154-241 | over the byte array malloc performs exactly the abstract transition, for every request up to 0xFFFFFFF4, and leaves every byte of every live block alone |
| Heap.Heap.PortFree | cpu1/rtos/heap_2.c:244-266 | over the byte array free performs exactly the abstract transition, ignores null, and leaves the contents of every live block alone |
| Heap.Heap.FreeHeapSize | cpu1/rtos/heap_2.c:269-272 | the count is the sum of the free list and the total less the live blocks |
| Heap.LinkedWith | cpu1/rtos/heap_2.c:128-129 | two link writes insert a header into the chain in memory |
| Heap.LinkedWithout | cpu1/rtos/heap_2.c:205 | one link write removes a header from the chain in memory |
| Heap.CutMemory | cpu1/rtos/heap_2.c:213-221 | after the writes of a split every size is stored and every live block is intact |
| Heap.ClientWritesHarmless | cpu1/rtos/heap_2.c:199-201 | whatever owners write into their payloads, chain and sizes in memory survive |
| Bytes.StoreWord | cpu1/rtos/heap_2.c:88-92 | storing a header word changes its four bytes only and loads back |
| Bytes.WordIsBigEndian | cpu1/rtos/heap_2.c:88-92 | the first byte of a word in memory is its most significant one |
| ShellSort.GapOrderSurvives | lib/qsort.c:21-42 | Gale–Karp: ordering at gap h keeps every order at another gap, for all sequences and total preorders |
| ShellSort.Exchange | lib/qsort.c:33-38 | the byte loop exchanges two byte ranges and nothing else |
| ShellSort.SiftStep | lib/qsort.c:27-39 | as elements, one exchange swaps two whole elements; none is torn |
| ShellSort.Sift | lib/qsort.c:25-40 | the j loop brings element i to its place on its track, keeping every track's elements |
| ShellSort.GapPass | lib/qsort.c:23-41 | a pass leaves the elements ordered at its gap and at every gap they were ordered at before |
| ShellSort.Qsort | lib/qsort.c:9-43 | the result is sorted by the comparator, holds the same multiset of elements, and bytes beyond them are untouched |
| Checksum.OnesSumIsCanonical | cpu1/lwip-1.4.1/sys_arch.c:380-385 | end-around-carry addition of the words is the canonical representative of their ordinary sum modulo 65535 |
| Checksum.TwoFoldsSuffice | cpu1/lwip-1.4.1/sys_arch.c:395-398 | two folds bring every 32-bit sum to that representative |
| Checksum.SwapMultiplies | cpu1/lwip-1.4.1/sys_arch.c:365 | swapping bytes is multiplication by 256 modulo 65535, zero only for zero |
| Checksum.SwappedOddSum | cpu1/lwip-1.4.1/sys_arch.c:374-403 | the sum started one byte off, then swapped, is the RFC sum, zero versus 0xFFFF included |
| Checksum.ComplementVerifies | cpu1/lwip-1.4.1/sys_arch.c:366-406 | a message of whole words with the complement of its sum appended, high byte first, sums to 0xFFFF |
| Checksum.TrailingZero | cpu1/lwip-1.4.1/sys_arch.c:387-393 | a lone last byte counts as the high half of a word |
| Checksum.AccumulatorFits | cpu1/lwip-1.4.1/sys_arch.c:371-393 | up to 131074 bytes the u32 accumulator never overflows |
| Checksum.AccumulatorOverflows | cpu1/lwip-1.4.1/sys_arch.c:371-393 | one byte more overflows it for bytes 0xFF, at either alignment |
| Checksum.StandardChecksum | cpu1/lwip-1.4.1/sys_arch.c:366-406 | the result is the one's-complement sum of RFC 1071 at odd and at even addresses |
| NumberText.DigitsValue | lib/string.c:62-65 | the digits of every base from 2 to 16 evaluate back to the number |
| NumberText.DigitsAreNumeral | lib/string.c:62-65 | the digits are 0-9 and A-F, have no superfluous zeros and evaluate to the number |
| NumberText.NumeralIsUnique | lib/string.c:62-65 | no other text does |
| NumberText.ParseReads | lib/string.c:172-191 | any blanks or tabs, sign and decimal digits are read as the number they spell |
| NumberText.ParseRender | lib/string.c:51-191 | reading a printed decimal gives the number back |
| NumberPrint.StrRev | lib/string.c:23-30 | the string is reversed in place, nothing else changes |
| NumberPrint.EmitDigits | lib/string.c:62-65 | the conversion loop emits the digits in reverse |
| NumberPrint.RenderFits | lib/string.c:51-73 | no 32-bit number needs more than 33 characters |
| NumberPrint.Itoa | lib/string.c:51-73 | sign and numeral of the absolute value, NUL-terminated, with their length; a base outside 2 to 16 empties the string |
| NumberPrint.Uitoan | lib/string.c:114-133 | the numeral of the value padded on the left to the width with the fill |
| NumberPrint.CopyReversed | lib/string.c:107-108 | copying out of the scratch area inside the same buffer: each place receives its parked digit, or, when that was overwritten by then, what was parked at the place itself; none is lost while the text ends by index 33 |
| NumberPrint.Assemble | lib/string.c:96-111 | sign, padding and the digits parked at index 32 become exactly the outcome of the wanted text, which is the wanted text exactly when it is copy-safe |
| NumberPrint.OutcomeIsWanted | lib/string.c:107-108 | a text of any length comes out as wanted if and only if each digit parked before its own place equals the character that overwrites it |
| NumberPrint.Itoan | lib/string.c:75-112 | for every value, base, length and fill the text is the outcome of sign, padding and digits as specified, and equals them if and only if they are copy-safe; up to length 33 always, and there a signed decimal padded with blanks or zeros reads back as the value; a zero at length 34 or more ends with the fill character |
| NumberPrint.FormattedShows | lib/string.c:82-105 | the wanted text is, at every length, the numeral of the absolute value when signed and of the value modulo 2^32 otherwise, filled up to the length, with the sign before the numeral for blank padding and first otherwise |
| NumberPrint.ShownParses | lib/string.c:75-191 | what is shown in base 10 with blanks or zeros as padding reads back as the number |
| NumberPrint.ShortFormattedIsSafe | lib/string.c:75-112 | lengths up to 33 are copy-safe for every value, base and fill |
| NumberPrint.WideZeroWanted | lib/string.c:75-112 | from length 34 on a zero should end with '0', comes out ending with the fill, and is right exactly when the fill is '0' |
| NumberPrint.WidePaddingSpoils | lib/string.c:75-112 | more than 32 characters of sign and padding that is no digit spoil every number |
| NumberPrint.WideExamples | lib/string.c:75-112 | at length 34 with blank padding zero fails and eleven succeeds |
| NumberPrint.Atoll | lib/string.c:172-191 | every decimal of the signed 64-bit range, the least included, is read without intermediate overflow |
| NumberPrint.PrintThenParse | lib/string.c:51-191 | enx_atoll of itoa in base 10 is the identity but for the least int |
| IpText.ReadsAddress | lib/string.c:202-236 | parsing the dot-separated octets recovers the address bytes in memory order, padded or not |
| IpText.DottedLength | lib/string.c:202-236 | four octets with their dots take at most 16 characters |
| IpText.PaddedShape | lib/string.c:202-236 | padded, the text is groups of three decimals with a dot behind each |
| IpText.PlainShape | lib/string.c:202-236 | not padded, no octet of more than one digit starts with zero |
| IpText.Put | lib/string.c:215-219 | no index at or beyond the given length is written |
| IpText.IpToStr | lib/string.c:193-239 | the complete text with terminator when it fits, its length being the value returned, exactly its first characters unterminated when it does not, nothing written outside; with bit 0 of the flags set groups of three decimals, 15 characters when there is room, and no leading zeros otherwise |
| StringSearch.SamePrefix | lib/string.c:259 | the comparison is equality of the characters compared, reading no further than needed |
| StringSearch.StrNStr | lib/string.c:245-263 | the leftmost occurrence within the bound and before the terminator, none exactly when there is none, reading only readable memory |
| TimerSpec.FreeSlot | dev/exr1k_timer.c:192-196 | the slot chosen is the first expired one |
| TimerProofs.StepKeepsInv | dev/exr1k_timer.c:128-225 | every operation keeps the table's history invariant |
| TimerProofs.RunInv | dev/exr1k_timer.c:153-225 | in every run nothing fires early, a one-shot has fired exactly once unless it still waits or was cancelled, and a periodic job, live or not, has fired no more often than time allows and lives until cancelled |
| TimerProofs.OneShotFiresOnce | dev/exr1k_timer.c:172-187 | in every run, once its ticks are polled, a one-shot not cancelled has fired exactly once if its delay has passed and not at all before; a cancelled one never fires |
| TimerProofs.PollFiresExactlyDue | dev/exr1k_timer.c:172-187 | a poll fires a live job once when a whole period has passed since its last firing, or since its scheduling, and not otherwise |
| TimerProofs.CallsAreOfFiredJobs | dev/exr1k_timer.c:175-186 | the callbacks a poll makes are those of the jobs it fires, in slot order, null ones skipped |
| TimerProofs.JobsAreScheduled | dev/exr1k_timer.c:189-217 | in every run each job was made by a scheduling operation that found the first expired slot, with its start, period, kind, callback and context |
| TimerProofs.PollCallsWhatWasScheduled | dev/exr1k_timer.c:172-217 | in every run each poll calls exactly the non-null callbacks, with the contexts, that the scheduling operations of the jobs it fires asked for |
| TimerProofs.RunTicks | dev/exr1k_timer.c:128-139 | in every run the tick counts the tick operations |
| TimerProofs.RunPending | dev/exr1k_timer.c:128-187 | a poll is pending exactly when a tick came after the last poll |
| TimerProofs.RunCancelled | dev/exr1k_timer.c:219-225 | the cancelled jobs are those whose slot was cancelled while they were live |
| TimerProofs.LiveSlotKept | dev/exr1k_timer.c:189-223 | a live slot keeps its job until that fires as a one-shot or is cancelled |
| TimerProofs.PeriodicFiresExactly | dev/exr1k_timer.c:182-185 | polled at every tick, a periodic job of period p has fired exactly floor(elapsed / p) times |
| Timer.Timer.Init | dev/exr1k_timer.c:153-159 | every slot becomes expired and keeps the rest of its contents, and a run can begin |
| Timer.Timer.XsrTick | dev/exr1k_timer.c:128-139 | the tick grows by one |
| Timer.Timer.TimerPoll | dev/exr1k_timer.c:172-187 | the poll step and the callbacks made, in slot order |
| Timer.Timer.SchedTimeoutCb | dev/exr1k_timer.c:189-217 | the schedule step; it fails exactly when all 16 slots are live and changes one expired slot only, which then holds the callback, context and kind given and expires after the given time |
| Timer.Timer.CancelTimeout | dev/exr1k_timer.c:219-225 | the cancel step: slot `id` expires and no other slot changes; a bad id changes nothing |
| LogRing.TwoPiecesContinue | lib/stdio.c:64-84 | the one- or two-piece copy continues the ring of the last C bytes of the stream |
| LogRing.ReadsBack | lib/stdio.c:64-84 | read once around from the write position the region is the end of everything logged |
| LogRing.Log.JPrint | lib/stdio.c:51-85 | a write appends to the stream, keeps the position in the region and byte k of the stream at k mod C, and touches nothing outside |
| MacFilter.ListIsAcceptedLessMatched | cpu1/lwip-1.4.1/ethernetif.c:228-294 | after any joins and leaves each address is in the bag as often as accepted joins exceed matched leaves, at most 32 in all |
| MacFilter.SameGroup | cpu1/lwip-1.4.1/ethernetif.c:243-262 | a join with room adds one copy of the low 24 bits, and a leave drops one for another address exactly when the low 24 bits are the same |
| MacFilter.JoinThenLeave | cpu1/lwip-1.4.1/ethernetif.c:237-289 | after one join and one leave the list is empty exactly when both are for the same low 24 bits |
| MacFilter.ListedAfterRun | cpu1/lwip-1.4.1/ethernetif.c:228-294 | whatever joins and leaves a filter has been through, its list holds each address that often, and the hardware lets it through exactly when the accepted joins exceed the matched leaves; it is on exactly when anything is let through |
| MacFilter.FillEntry | cpu1/lwip-1.4.1/ethernetif.c:243-250 | filling an unused entry adds one copy of the low 24 bits |
| MacFilter.EmptyEntry | cpu1/lwip-1.4.1/ethernetif.c:259-268 | emptying a matching entry drops one copy |
| MacFilter.Filter.constructor | cpu1/lwip-1.4.1/ethernetif.c:183-186 | the list starts empty |
| MacFilter.Filter.Add | cpu1/lwip-1.4.1/ethernetif.c:237-257 | a join lists the low 24 bits of its address if fewer than 32 are listed, and keeps hardware set and list equal, the filter on exactly for a non-empty list, and the list what the joins and leaves so far make of it; a full list refuses it |
| MacFilter.Filter.Delete | cpu1/lwip-1.4.1/ethernetif.c:258-289 | a leave drops one copy of the low 24 bits of its address and keeps the same agreement; an absent address changes nothing |
| MacFilter.Filter.Reload | cpu1/lwip-1.4.1/ethernetif.c:272-285 | clearing and reinserting makes the hardware agree, switching the filter off when nothing is left |
| CodeWatch.HitAppend | dev/exr1k_boot.c:91-99 | a group starting with MATCH adds its conjunctions to those before it |
| CodeWatch.InsnHitsOutside | dev/exr1k_boot.c:87-99 | for ordered disjoint sections the instruction comparators hit exactly the addresses outside every section |
| CodeWatch.DataHitsInside | dev/exr1k_boot.c:101-108 | the data comparators hit exactly the addresses inside some section |
| CodeWatch.Collect | dev/exr1k_boot.c:60-72 | the sections kept are those of non-zero length, in order |
| CodeWatch.KeptAsOften | dev/exr1k_boot.c:60-72 | each section whose end differs from its start is kept as often as it occurs, and no other |
| CodeWatch.SwapSections | dev/exr1k_boot.c:80-81 | swapping starts and ends separately swaps whole sections |
| CodeWatch.SortSections | dev/exr1k_boot.c:74-85 | the sort orders any sections by start and keeps every start with its end; proper and disjoint ones stay so |
| CodeWatch.Emit | dev/exr1k_boot.c:87-108 | the register writes are the comparators of the sorted sections |
| CodeWatch.SetCodeHwp | dev/exr1k_boot.c:54-109 | for non-overlapping sections, one of them non-empty, the instruction comparators watch loads and hit exactly outside, the data comparators watch stores and hit exactly inside the sections |
| IntegerSqrt.SearchFindsRoot | lib/enx_math.c:25-43 | a search that is not misled ends at the root |
| IntegerSqrt.CorrectIffNotMisled | lib/enx_math.c:17-44 | for every 32-bit argument the code is right exactly when no probe of 65536 or more has a wrapped square not above the argument |
| IntegerSqrt.CorrectIffHalvingsAbove | lib/enx_math.c:17-44 | for arguments below 2^30 it is right exactly when every halving of the first probe that is 65536 or more has a wrapped square above the argument |
| IntegerSqrt.RightUpTo262141 | lib/enx_math.c:17-44 | it is right up to 262141 and wrong at 262142 |
| IntegerSqrt.FloorSqrt | lib/enx_math.c:17-44 | the 32-bit loop returns the floor root exactly under the conditions above, and so for every argument up to 262141 |
| IntegerSqrt.FloorSqrtUnbounded | lib/enx_math.c:17-44 | without wrap-around the loop finds the floor root of every number |

## Left out

- Heap.Heap.PortMalloc: takes requests up to 0xFFFFFFF4; above, a request is answered as `HeapProofs.WrappedRequest` says, and what the writes into a block without room for its header then do to the memory is not modelled.
- Heap.Heap.PortFree: takes null or a pointer that is live, as the source does without checking it.
- HeapProofs.MallocFreeMalloc: the states compared are tiles, free list and byte count; the link word that a live block does not use may hold another stale value.
- Heap.Heap.constructor: the heap size is a parameter, since the shipped configuration sets it to 0 (`cpu1/rtos/FreeRTOSConfig.h:13`) because another allocator is linked; the volatile union that forces alignment becomes an aligned base address.
- NumberPrint.Itoa: the least 32-bit integer is not an argument, since its negation is undefined in C; `itoan` takes it, with two's-complement negation.
- NumberPrint.Atoll: takes texts whose number fits in 64 bits, since signed overflow is undefined in C.
- NumberPrint.Itoan: the length is an unbounded integer, so the subtraction that finds the padding does not overflow near the least int.
- IntegerSqrt.CorrectIffNotMisled: its condition follows the probes of the search; `IntegerSqrt.CorrectIffHalvingsAbove` does without the search, but only below 2^30.
- LogRing.Log.JPrint: takes texts no longer than the region's capacity; one CPU's region is modelled, the other has the same code with its own bounds.
- CodeWatch.SetCodeHwp: any number of sections instead of three; at least one must be non-empty, since the source would otherwise read an uninitialised entry; the SPR writes themselves and the ANDing hardware are represented by their documented meaning.
- Timer.Timer.TimerPoll: ticks are unbounded and do not advance during a poll, and callbacks do not touch the table: wrap-around, an interrupt in mid-poll and re-entrant callbacks are not modelled.
- MacFilter.Filter.Add: the pause-frame entries (`ETH_MAC_PAUSE`) and the console messages are not modelled, and the hash behind the hardware filter is an exact set.
- Checksum.StandardChecksum: the DMA engine that normally computes checksums and the comparison and logging in `my_chksum` are not modelled.
- `enx_atoull` (`lib/string.c:162-170`) returns the negated accumulator, so it has no parsing property to state.
- `heap_1.c` and `heap_3.c` (a bump pointer, a wrapper over libc), register maps and codec tables, DMA, UART, GPIO and SPR access, context switching, FatFs and flash wrappers, Wi-Fi and PHY code, and the inter-CPU message queues, whose bodies are not part of this model.
