# Verified model of five systems-programming exercises

This project models five small C components from `src/` of a systems-programming
exercise repository and proves properties of them in Dafny:

- **First-fit arena allocator** (`src/memory_allocator/memory_allocator.c`), module `Allocator`.
  A 1 GiB static arena carries an intrusive singly linked list of `block` headers, each with
  `size`, `free` and `next` fields.
  - `mem_init` lays one free header over the arena.
  - `mem_alloc` takes the first free block large enough and splits it when another header fits.
  - `mem_free` marks the header before the pointer free and makes one pass from the head,
    merging each free block with a free successor.

  The list is the field `blocks` of class `Allocator.Heap`: header records `(offset, size, free)`
  in list order, with `next` implicit. A payload pointer is the arena offset just past its
  header, and NULL is `None`. `sizeof(block)` is 24, the LP64 layout. The functions
  `AllocSpec`, `FreeSpec` and `Coalesce` state the operations on values, and the methods are
  proved against them. Module `AllocatorFixed` holds the split as evidently meant (see Findings)
  and proves that it keeps the headers tiling the arena.
- **256-byte ring buffer** (`src/ring_buffer/ring_buffer.c`), module `RingBuffer`.
  - Class `Ring` has the C struct's fields: the byte array, head `h`, tail `t`, the `full`
    flag, and a ghost sequence `Contents` of the stored bytes, oldest first.
  - `Read` and `Write` are the partial, counting loops of `ringbuf_read` and `ringbuf_write`.
  - A NULL buffer is a `null` array.
- **Copy routines** (`src/memcpy/mymemcpy.h`), module `MemCopy`.
  - `mymemcpy1`, a byte loop.
  - `mymemcpy`, an 8-byte word loop followed by a byte loop that never runs.
  - Both work over two distinct byte arrays.
- **Bit reversal** (`src/reverse_bits/reverse_bits.c`), module `ReverseBits`. The 32-turn shift
  loop is proved against a recursive specification, `ReversedLow`, and a bit-level statement.
- **Register bit helpers** (`src/register_toggle/register_toggle.c`), module `RegisterToggle`.
  `set_bit` and `clear_bit` take the register by value, so a call is modelled as what remains
  after it: the caller's unchanged register and the callee's discarded local copy.

### The split the source asks for and the split it performs

The header comment of the allocator (`src/memory_allocator/memory_allocator.c:2-5`) asks for
first-fit allocation of a contiguous free segment of the required size. The coalescing test
(`src/memory_allocator/test_memory_allocator.cpp:102-123`) frees three neighbouring 100-byte
blocks and expects the merged space to serve 280 bytes, which fits in those three blocks and two of
their headers make up. Both fit a split that shrinks the chosen block to the request. The code
splits on `>=` and never changes the chosen block's `size`
(`src/memory_allocator/memory_allocator.c:43-52`). The model follows the code. The shrinking
split is modelled separately as the corrected definition in `AllocatorFixed` (see Findings).

## Model

| member | source | states |
|---|---|---|
| Allocator.InitBlocks | src/memory_allocator/memory_allocator.c:28-34 | `mem_init` leaves one header: at offset 0, free, whose header plus size is exactly `MEM_SZ` |
| Allocator.FirstFit | src/memory_allocator/memory_allocator.c:38-56 | the search stops at the first header in list order that is free with `size >= n`, and finds none exactly when no header is free and large enough |
| Allocator.FirstFitUnique | src/memory_allocator/memory_allocator.c:39-55 | any header that is the first fit is the one the search returns |
| Allocator.SplitHeader | src/memory_allocator/memory_allocator.c:45-48 | the new header sits `H + n` past the chosen one, free, and ends where the chosen block's recorded extent ends |
| Allocator.Carve | src/memory_allocator/memory_allocator.c:43-52 | the list gains one header exactly on a split; headers before the chosen one are unchanged; the chosen one is marked used with its offset and stale size; on a split the new header follows it and the rest of the list comes after, unchanged |
| Allocator.CarveInPlace | src/memory_allocator/memory_allocator.c:45-52 | linking the new header in after the chosen one and then clearing the chosen one's `free` builds the carved list |
| Allocator.AllocSpec | src/memory_allocator/memory_allocator.c:36-58 | NULL exactly when no header fits, and then the list is unchanged; otherwise the pointer is `H` past a used header of size `>= n` |
| Allocator.AllocTouchesOnlyChosen | src/memory_allocator/memory_allocator.c:41-53 | the pointer is the chosen header's offset plus `H`; headers before it and after it are unchanged; the chosen header is used with its old offset and its old size; on a split (`size >= n + H`) one new free header of size `size - n - H` sits right after it at `offset + H + n` |
| Allocator.MarkFree | src/memory_allocator/memory_allocator.c:63-64 | marking through `ptr - H` sets `free` on the headers at that offset; every offset, every size and every other flag is unchanged |
| Allocator.CoalesceNoAdjacentFree | src/memory_allocator/memory_allocator.c:67-77 | after the coalescing pass no two neighbouring headers are both free |
| Allocator.Merge | src/memory_allocator/memory_allocator.c:72-73 | the merged header keeps the front header's offset and flag, and its header plus size covers both headers and both payloads |
| Allocator.Coalesce | src/memory_allocator/memory_allocator.c:67-77 | the pass never lengthens the list; the head header survives at its offset with its flag |
| Allocator.FreeSpec | src/memory_allocator/memory_allocator.c:60-78 | NULL changes nothing; otherwise the result has no two free neighbours and its used headers are those of the marked list |
| Allocator.CoalesceFixpoint | src/memory_allocator/memory_allocator.c:67-77 | a list with no free neighbours is left unchanged, so the pass is idempotent |
| Allocator.CoalesceKeepsUsed | src/memory_allocator/memory_allocator.c:70-76 | the used headers after the pass are those before it, in the same order and unchanged |
| Allocator.CoalesceKeepsFootprint | src/memory_allocator/memory_allocator.c:72-73 | each merge adds `next.size + H` to the block in front, so the space the list accounts for is unchanged |
| Allocator.CoalesceKeepsOrder | src/memory_allocator/memory_allocator.c:73 | unlinking keeps the relative order of the remaining headers: their offsets are a subsequence of the offsets before |
| Allocator.CoalesceKeepsFreeAt | src/memory_allocator/memory_allocator.c:67-77 | headers at an offset whose headers were all free remain free after the pass |
| Allocator.MarkFreeNoop | src/memory_allocator/memory_allocator.c:64 | setting `free` on headers that are already free changes nothing |
| Allocator.FreeNullNoop | src/memory_allocator/memory_allocator.c:62 | `mem_free(NULL)` changes nothing, and a following `mem_alloc` behaves as it would alone |
| Allocator.AllocThenMarkTargetsHeader | src/memory_allocator/memory_allocator.c:53-64 | `ptr - H` of a returned pointer is the chosen header, and marking through it restores that header to what it was before the allocation |
| Allocator.DoubleFreeIdempotent | src/memory_allocator/test_memory_allocator.cpp:223-237 | freeing a pointer a second time leaves the list the first free produced |
| Allocator.PassMerge | src/memory_allocator/memory_allocator.c:70-73 | merging a free header with its free successor keeps the loop on course to the result of the pass |
| Allocator.PassSkip | src/memory_allocator/memory_allocator.c:74-75 | moving past a pair that is not both free keeps the loop on course |
| Allocator.PassEnd | src/memory_allocator/memory_allocator.c:68 | when fewer than two headers remain, the list is the result of the pass |
| Allocator.AllocAt | src/memory_allocator/memory_allocator.c:41-53 | a first fit fixes the returned pointer and the new list |
| Allocator.ScenarioFirstAlloc | src/memory_allocator/memory_allocator.c:43-53 | `mem_alloc(100)` after `mem_init` returns `H` and splits off a free header at `H + 100` |
| Allocator.ScenarioSecondAlloc | src/memory_allocator/memory_allocator.c:43-53 | a second `mem_alloc(100)` splits that header and returns `2H + 100` |
| Allocator.ScenarioFree | src/memory_allocator/memory_allocator.c:60-78 | freeing the first pointer marks the first header free with its stale size; nothing merges |
| Allocator.ScenarioThirdAlloc | src/memory_allocator/memory_allocator.c:43-53 | `mem_alloc(200)` splits the first header again and writes a header at `H + 200` |
| Allocator.StaleSizeScenario | src/memory_allocator/memory_allocator.c:43-52 | after `init; p = alloc(100); q = alloc(100); free(p); alloc(200)`, a free header lies inside `q`'s payload, at a higher offset than `q`'s header though ahead of it in the list, and the list accounts for more than the arena |
| Allocator.ScenarioThirdAllocSameSize | src/memory_allocator/memory_allocator.c:43-53 | `mem_alloc(100)` in place of that third call splits the first header again, at `H + 100` |
| Allocator.SharedHeaderScenario | src/memory_allocator/memory_allocator.c:43-53 | after `init; p = alloc(100); q = alloc(100); free(p); alloc(100)` the split header lands at `q - H`, so two list records sit at `q`'s header offset, one free and one used |
| Allocator.Heap.constructor | src/memory_allocator/memory_allocator.c:22-26 | before `mem_init` the list is empty |
| Allocator.Heap.Init | src/memory_allocator/memory_allocator.c:28-34 | the list becomes exactly the single initial header; the earlier list is dropped |
| Allocator.Heap.Alloc | src/memory_allocator/memory_allocator.c:36-58 | the walk returns NULL and changes nothing exactly when no header fits; otherwise it returns the first fit's offset plus `H` and leaves the carved list |
| Allocator.Heap.Free | src/memory_allocator/memory_allocator.c:60-78 | nothing for NULL; otherwise the list becomes the pass over the marked list, with no free neighbours and the same used headers |
| AllocatorFixed.TilesAppend | src/memory_allocator/memory_allocator.c:15-20 | a tiling of a concatenation is a tiling of each part, meeting where the first part's footprint ends |
| AllocatorFixed.TilesFootprint | src/memory_allocator/memory_allocator.c:15-20 | a tiling covers exactly the headers plus the sizes the list records |
| AllocatorFixed.TilesDisjoint | src/memory_allocator/memory_allocator.c:43-51 | in a tiling, offsets rise along the list and no header lies inside an earlier block's header or payload |
| AllocatorFixed.TilesShape | src/memory_allocator/memory_allocator.c:64 | the `free` flags do not affect a tiling |
| AllocatorFixed.CoalesceKeepsTiles | src/memory_allocator/memory_allocator.c:67-77 | the coalescing pass keeps a tiling |
| AllocatorFixed.FreeKeepsTiled | src/memory_allocator/memory_allocator.c:60-78 | `mem_free` keeps the arena tiled |
| AllocatorFixed.InitTiled | src/memory_allocator/memory_allocator.c:28-34 | `mem_init` tiles the arena |
| AllocatorFixed.CarveExact | src/memory_allocator/memory_allocator.c:43-52 | as `Carve`, except that on a split the chosen block records exactly the request |
| AllocatorFixed.AllocExact | src/memory_allocator/memory_allocator.c:36-58 | the corrected `mem_alloc` returns the same pointer as the code; the block it hands out records between `n` and `n + H - 1` bytes |
| AllocatorFixed.SplitTiles | src/memory_allocator/memory_allocator.c:43-51 | a shrinking split covers exactly the range of the block it splits |
| AllocatorFixed.TilesReplace | src/memory_allocator/memory_allocator.c:43-51 | replacing one block of a tiling by blocks that tile exactly its range keeps the tiling |
| AllocatorFixed.AllocExactKeepsTiled | src/memory_allocator/memory_allocator.c:43-52 | the corrected `mem_alloc` keeps the arena tiled |
| AllocatorFixed.InitAllocFreeRoundTrip | src/memory_allocator/memory_allocator.c:28-77 | with the corrected split, an allocation right after `mem_init` that is freed again restores the initial list |
| AllocatorFixed.RoundTripSplit | src/memory_allocator/memory_allocator.c:43-77 | when the initial block is split, freeing the allocation merges it back into the initial list |
| AllocatorFixed.TiledOffsetsDistinct | src/memory_allocator/memory_allocator.c:45-49 | in a tiled list the offsets strictly rise, so no two records share a header |
| AllocatorFixed.ExactSharedHeaderScenario | src/memory_allocator/memory_allocator.c:36-78 | under the corrected split, `init; p = alloc(100); q = alloc(100); free(p); alloc(100)` reuses the first block without a split and leaves three headers at 0, `H + 100` and `2H + 200` |
| AllocatorFixed.AsWrittenBreaksTiling | src/memory_allocator/memory_allocator.c:43-52 | the split as written breaks the tiling on `mem_alloc(100)` after `mem_init`; freeing that pointer leaves one block claiming nearly twice the arena |
| AllocatorFixed.PastArenaScenario | src/memory_allocator/memory_allocator.c:41-53 | after `mem_init(); p = mem_alloc(100); mem_free(p)`, the split as written lets `mem_alloc(MEM_SZ)` return `H` and records its split header at `MEM_SZ + H`, past the end of the arena |
| AllocatorFixed.AllocExactInArena | src/memory_allocator/memory_allocator.c:36-58 | under the corrected split, every block of a tiled list ends at or before `MEM_SZ`, and so does the payload of `n` bytes a returned pointer addresses |
| AllocatorFixed.ExactPastArenaScenario | src/memory_allocator/memory_allocator.c:36-78 | under the corrected split the same calls give back the initial list, and `mem_alloc(MEM_SZ)` returns NULL |
| RingBuffer.MaskIsModulo | src/ring_buffer/ring_buffer.c:37 | masking a `size_t` with `BUF_SZ - 1` is taking it modulo 256 |
| RingBuffer.MaskedAdvance | src/ring_buffer/ring_buffer.c:37 | `(i + 1) & (BUF_SZ - 1)` on an index in range is the next slot, wrapping from 255 to 0 |
| RingBuffer.Advance | src/ring_buffer/ring_buffer.c:53 | the next index stays below 256 |
| RingBuffer.AdvanceModulo | src/ring_buffer/ring_buffer.c:37 | advancing an index reduced modulo 256 is reducing the next count |
| RingBuffer.StepsModulo | src/ring_buffer/ring_buffer.c:31-39 | advancing an index `i` times, one slot per turn, is adding `i` modulo 256 |
| RingBuffer.Count | src/ring_buffer/ring_buffer.c:7-24 | the count is at most 256, and is 256 exactly when `full` |
| RingBuffer.Window | src/ring_buffer/ring_buffer.c:34-39 | the stored run read from `h` has the requested length |
| RingBuffer.WindowAt | src/ring_buffer/ring_buffer.c:35-36 | byte `k` of the stored run is the byte in slot `(h + k) mod 256` |
| RingBuffer.WindowPop | src/ring_buffer/ring_buffer.c:36-37 | the oldest stored byte is the one at `h`; the rest start one slot on |
| RingBuffer.WindowPush | src/ring_buffer/ring_buffer.c:52-53 | storing in the slot past the stored bytes appends to them |
| RingBuffer.WindowPrefix | src/ring_buffer/ring_buffer.c:52 | a shorter run of stored bytes from a slot is a prefix of a longer one |
| RingBuffer.ConsistentIndices | src/ring_buffer/ring_buffer.c:7-24 | in a consistent state `t` is `h` plus the count modulo 256; `full` holds exactly at count 256, and `h == t` without `full` exactly at count 0 |
| RingBuffer.PopStep | src/ring_buffer/ring_buffer.c:34-39 | one turn of the read loop hands out the oldest byte and leaves a consistent state holding the rest |
| RingBuffer.PushStep | src/ring_buffer/ring_buffer.c:50-54 | one turn of the write loop keeps the stored bytes and leaves a consistent state holding them plus the new byte |
| RingBuffer.Ring.Valid | src/ring_buffer/ring_buffer.c:7-16 | in a valid state the buffer holds 256 bytes, both indices are below 256, at most 256 bytes are stored, and `full` only when the indices meet |
| RingBuffer.Ring.constructor | src/ring_buffer/ring_buffer.c:7-16 | the static initialiser: both indices 0, not full, empty |
| RingBuffer.Ring.Empty | src/ring_buffer/ring_buffer.c:18-20 | `empty()` holds exactly when nothing is stored |
| RingBuffer.Ring.Full | src/ring_buffer/ring_buffer.c:22-24 | `full()` holds exactly when 256 bytes are stored, and never together with `empty()` |
| RingBuffer.Ring.Pop | src/ring_buffer/ring_buffer.c:35-37 | one turn of the read loop hands out the oldest byte, drops it from the contents, and moves `h` one slot on |
| RingBuffer.Ring.Push | src/ring_buffer/ring_buffer.c:52-54 | one turn of the write loop appends the byte, moves `t` one slot on, and keeps the bytes already stored in their slots |
| RingBuffer.Ring.Read | src/ring_buffer/ring_buffer.c:27-42 | -1 and no change for NULL; otherwise returns `min(sz, count)`, copies the oldest bytes in order into `dst[0..k)` and nothing else of `dst`, removes them, and advances `h` by `k` slots (by `StepsModulo`, `k` modulo 256) |
| RingBuffer.Ring.Write | src/ring_buffer/ring_buffer.c:45-58 | -1 and no change for NULL; otherwise returns `min(sz, 256 - count)`, appends `src[0..k)` and advances `t` by `k` slots (by `StepsModulo`, `k` modulo 256); the slots of bytes already stored keep them |
| RingBuffer.WriteThenRead | src/ring_buffer/test_ring_buffer.cpp:151-182 | writing `k` bytes that fit and reading the whole buffer yields the earlier contents and then those bytes, across the wrap at slot 255, and leaves it empty |
| MemCopy.RoundUp | src/memcpy/mymemcpy.h:21-25 | the extent the word loop reaches is the least multiple of 8 at or above `sz`, and equals `sz` exactly when `sz` is a multiple of 8 |
| MemCopy.MyMemcpy1 | src/memcpy/mymemcpy.h:3-14 | returns `dst`; `dst[0..sz)` equals `src[0..sz)`; the rest of `dst` and all of `src` are unchanged |
| MemCopy.CopyWord | src/memcpy/mymemcpy.h:22 | one 64-bit store copies 8 bytes and touches nothing else of `dst` |
| MemCopy.MyMemcpy | src/memcpy/mymemcpy.h:16-33 | returns `dst`; copies `src` up to `RoundUp(sz)`, past `sz` unless `sz % 8 == 0`, and then exactly `sz` bytes; the body also proves that the byte loop's guard is false when it is reached, so that loop is dead |
| MemCopy.OverCopyExample | src/memcpy/mymemcpy.h:16-33 | a 17-byte copy between 24-byte arrays also overwrites bytes 17 to 23 of `dst` with `src`'s, changing them |
| MemCopy.MyMemcpyExact | src/memcpy/mymemcpy.h:16-33 | the corrected word copy copies exactly `sz` bytes and leaves the rest of `dst` and all of `src` unchanged |
| ReverseBits.ShiftIn | src/reverse_bits/reverse_bits.c:10 | `(res << 1) \| b` moves every bit of `res` up one and puts `b` at bit 0 |
| ReverseBits.Unfold | src/reverse_bits/reverse_bits.c:10-11 | turn `j` shifts in bit `j - 1` of the input |
| ReverseBits.ReversedLowBits | src/reverse_bits/reverse_bits.c:8-12 | after `j` turns, bit `k` of `res` is input bit `j - 1 - k` below `j`, and 0 from `j` on |
| ReverseBits.FullReversal | src/reverse_bits/reverse_bits.c:8-12 | after all 32 turns, bit `i` of `res` is bit `31 - i` of the input |
| ReverseBits.Reverse | src/reverse_bits/reverse_bits.c:3-15 | bit `i` of the result is bit `31 - i` of the input |
| ReverseBits.LowBitsAgree | src/reverse_bits/reverse_bits.c:3-15 | words that agree on their low `j` bits agree under the mask of those bits |
| ReverseBits.ReverseUnique | src/reverse_bits/reverse_bits.c:3-15 | the bit-level statement determines the result |
| ReverseBits.ReverseInvolution | src/reverse_bits/test_reverse_bits.cpp:138-151 | reversing twice gives the input back |
| ReverseBits.KnownValues | src/reverse_bits/test_reverse_bits.cpp:15-25 | 0 ↦ 0, 1 ↦ 0x80000000, 0xFFFFFFFF ↦ 0xFFFFFFFF |
| ReverseBits.PatternValues | src/reverse_bits/test_reverse_bits.cpp:100-115 | 0xCC ↦ 0x33000000, 0x12345678 ↦ 0x1E6A2C48, 0xABCDEF00 ↦ 0x00F7B3D5 |
| ReverseBits.TurnStep | src/reverse_bits/reverse_bits.c:10-11 | one turn extends the reversed low bits by one and shifts `n` once more |
| ReverseBits.ReverseBitsLoop | src/reverse_bits/reverse_bits.c:3-15 | the loop's result has bit `i` equal to input bit `31 - i` and is `Reverse(input)` |
| RegisterToggle.Low8 | src/register_toggle/register_toggle.c:5 | converting the `int` result to `uint8_t` keeps its value modulo 256 |
| RegisterToggle.SetBit | src/register_toggle/register_toggle.c:3-6 | the caller's register is unchanged; for `n < 8` the local copy is `r` with bit `n` set and the other bits unchanged; for `8 <= n <= 30` it is `r` |
| RegisterToggle.ClearBit | src/register_toggle/register_toggle.c:8-11 | the caller's register is unchanged; for `n < 8` the local copy keeps only bit `n` of `r`; for `8 <= n <= 30` it is 0 |
| RegisterToggle.CallerUnchanged | src/register_toggle/register_toggle.c:3-11 | neither helper changes the caller's register |
| RegisterToggle.SetBitIdempotent | src/register_toggle/register_toggle.c:5 | setting a bit twice gives the local value of setting it once |
| RegisterToggle.ByValueCounterexample | src/register_toggle/test_register_toggle.cpp:28-39 | `set_bit(0x00, 0)` leaves the caller's 0x00 where 0x01 is meant, and `clear_bit(0xFF, 0)` leaves 0xFF where 0xFE is meant |
| RegisterToggle.ClearMaskCounterexample | src/register_toggle/register_toggle.c:10 | clearing bit 0 of 0xFF gives the local 0x01, where 0xFE is meant |
| RegisterToggle.SetBitIntended | src/register_toggle/test_register_toggle.cpp:18-20 | the intended value has bit `n` set and the other bits unchanged |
| RegisterToggle.ClearBitIntended | src/register_toggle/test_register_toggle.cpp:22-24 | the intended value has bit `n` cleared and the other bits unchanged |
| RegisterToggle.Register.constructor | src/register_toggle/register_toggle.c:3 | a register holding the given value |
| RegisterToggle.Register.SetBit | src/register_toggle/register_toggle.c:3-6 | updates the register in place: bit `n` set, the other bits unchanged |
| RegisterToggle.Register.ClearBit | src/register_toggle/register_toggle.c:8-11 | updates the register in place: bit `n` cleared, the other bits unchanged |
| RegisterToggle.IntendedIdempotent | src/register_toggle/test_register_toggle.cpp:209-215 | the intended set and clear are idempotent, and clearing undoes setting a bit that was clear |

## Left out

- The allocator's bytes are not modelled: payload contents, the 1 GiB array as bytes, and a header written over bytes that another header occupies. A header is a record at an offset.
- Pointer alignment is not modelled. It depends on `sizeof(block)` and on where the static array is placed.
- `size_t` arithmetic is unbounded in the model. `size + sizeof(block)` in `mem_alloc` and the growing sizes that merges of stale sizes produce could wrap a 64-bit `size_t`; that wrap is not modelled.
- Allocator.Heap.Free: requires `ptr - H` to be the offset of a header in the list. A foreign, stale or misaligned pointer is undefined in the source and is excluded. When two records share an offset, as after the call sequence under `Allocator.Heap.Alloc` below, all of them are marked.
- Allocator.Heap.Alloc: a header or a payload past the end of the arena is kept as a record like any other. After `mem_init(); p = mem_alloc(100); mem_free(p)` the one free block claims nearly twice the arena, and `mem_alloc(MEM_SZ)` then writes its split header at `MEM_SZ + H`, past the whole `allocator` object, which is undefined behaviour in C (`PastArenaScenario`). The model has no bound on offsets, so it records that header and goes on.
- Allocator.Heap.Alloc: a split header written onto a live header is kept as a second record. After `mem_init(); p = mem_alloc(100); q = mem_alloc(100); mem_free(p); mem_alloc(100)` the code writes the split header at `q - H`, over `q`'s header: `q`'s block is marked free while `q` is live, and the header's `next` becomes the header itself. The list is then a cycle, so the next `mem_free` loops forever in its pass (lines 68-73), as does a `mem_alloc` that no block before the cycle fits. The model cannot represent the cycle or the non-termination: it keeps one free and one used record at that offset (`SharedHeaderScenario`), and its loops end.
- Allocator.Heap: models the single static `allocator` object as an instance. Before `mem_init` its list is empty, and `mem_alloc` then returns NULL, as with a NULL `block_list`.
- MemCopy.MyMemcpy: the arrays are distinct and must hold `RoundUp(sz)` bytes. Overlapping regions and unaligned 64-bit accesses are not modelled, and the `size_t` counter is unbounded.
- MemCopy.MyMemcpy1: the arrays are distinct; overlapping copies are not modelled.
- MemCopy.MyMemcpy: the unaligned test of `src/memcpy/test_memcpy.c:45-56` copies 32 bytes from `big + 1` to `big + 17`, two overlapping regions of one buffer. The file's header (lines 11-12) calls overlap undefined; the requirement that the arrays be distinct excludes that call.
- RingBuffer.Ring: models the static `ringbuf` as an object; `dst` and `src` must not be its own buffer.
- RingBuffer.Ring.Read: `dst` must hold at least the `min(sz, count)` bytes written to it, and `sz` is unbounded.
- RingBuffer.Ring.Read: `dst` is a whole array filled from index 0. A pointer into the middle of a buffer, as in `ringbuf_read(ringbuf_read_data + offset, n)` at `src/ring_buffer/test_ring_buffer.cpp:404`, is not modelled.
- RingBuffer.Ring.Write: `src` is a whole array read from index 0; interior pointers are not modelled.
- RingBuffer.Ring.Write: `src` must hold at least the `min(sz, 256 - count)` bytes read from it, and `sz` is unbounded.
- RegisterToggle.SetBit: `n` is limited to 0..30, where `1 << n` on an `int` is defined; a negative `n` or one of 31 or more is undefined in C.
- RegisterToggle.ClearBit: `n` is limited to 0..30, as for `SetBit`.
- src/memcpy/memcpy_feature.c is not part of this model: it is a demonstration built on console output, library `memcpy`/`memmove`, `malloc`, clock timing and floating point.
- src/LRUCache/LRUCache.c is not part of this model: it is an unfinished stub with no behaviour to state.
- The tests of `count1`, `find_single_int`, `check_power_of_2` and `align` are not part of this model: those functions' implementations are not part of this model either, so there is no code to state them against.

## Findings

| source | as written | input that shows it | evidently intended | confidence | as-written member | corrected member |
|---|---|---|---|---|---|---|
| src/memory_allocator/memory_allocator.c:43-52 | a split leaves the chosen block's `size` unchanged, so it still claims the space now given to the new header | `mem_init(); p = mem_alloc(100); q = mem_alloc(100); mem_free(p); mem_alloc(200)` writes a header at `H + 200`, inside `q`'s payload | the chosen block shrinks to the request: `curr->size = size` | not executed; high | Allocator.StaleSizeScenario | AllocatorFixed.AllocExactKeepsTiled |
| src/memory_allocator/memory_allocator.c:43-49 | with the stale size, a later split can put its header exactly on a live header and set its `next` to itself | `mem_init(); p = mem_alloc(100); q = mem_alloc(100); mem_free(p); mem_alloc(100)` writes the split header at `q - H`, `q`'s own header | each header keeps its own place: the chosen block shrinks to the request, and headers stay at distinct offsets | not executed; high | Allocator.SharedHeaderScenario | AllocatorFixed.ExactSharedHeaderScenario |
| src/memory_allocator/memory_allocator.c:41-53 | with the stale size, a merged block can claim more than the arena holds, and a split then writes its header past the arena's end | `mem_init(); p = mem_alloc(100); mem_free(p); mem_alloc(MEM_SZ)` returns `H` and writes the split header at `MEM_SZ + H` | headers and payloads stay inside the arena: a request as large as the arena gets NULL | not executed; high | AllocatorFixed.PastArenaScenario | AllocatorFixed.AllocExactInArena |
| src/memcpy/mymemcpy.h:21-25 | the word loop runs while `i < sz`, so it copies whole words past `sz`, and the byte loop after it never runs | `sz = 17`, the string test: 24 bytes are written into a 17-byte destination | words while a whole word remains, then the remaining bytes one at a time | not executed; high | MemCopy.OverCopyExample | MemCopy.MyMemcpyExact |
| src/register_toggle/register_toggle.c:10 | `r &= 1 << n` keeps bit `n` and clears the others | `r = 0xFF, n = 0` gives 0x01 | `r &= ~(1 << n)`, giving 0xFE | not executed; high | RegisterToggle.ClearMaskCounterexample | RegisterToggle.ClearBitIntended |
| src/register_toggle/register_toggle.c:3-11 | the register is passed by value, so neither helper changes the caller's register | `set_bit(0x00, 0)` leaves the caller's 0x00 | the register is updated in place | not executed; high | RegisterToggle.ByValueCounterexample | RegisterToggle.Register.SetBit |
