# mreg region allocator, modelled in Dafny

`mreg::MemoryRegionManager` is a region (arena) allocator. It gets large blocks from `malloc`
and serves each `allocate(bytes)` by bumping a cursor inside the last block of its active chain.
A block that runs out of room is followed by another one. That block is taken from the
`released` pool if the pool has one; otherwise a new block of `memblockSizeReserve + bytes`
payload bytes is obtained from `malloc`. `release()` splices the whole active chain in front of
the pool in one step. The destructor returns every block to `free`. `RegionAllocator<T>` is an
allocator object that forwards `allocate(n)` to a manager it does not own, and `emplace<T>`
allocates `sizeof(T)` bytes for a new object.

The model has two layers.

- `Region` (region.dfy) is the manager's state and operations as values. Blocks live in an arena
  indexed by handles. A block header `MemoryBlock(end, free)` keeps byte offsets from the start
  of its block, so a fresh block's cursor is `HEADER_SIZE` = 24, the size of the three-pointer
  header. The active chain `head.next … tail` and the released pool are sequences of handles in
  link order. An empty active chain means that `tail` is the sentinel `head`, whose null `free`
  and `end` only let a zero-byte request through. `Grow` is the `while` loop of `allocate`,
  `Bump` is its last three lines, and `Allocate` is the two together.
- `Manager.MemoryRegionManager` (manager.dfy) is the class with the source's fields. It has a
  `tail` reference, and a ghost log of the blocks passed to `free`. These methods are proved to
  change `State()` exactly as a `Region` function does:
  - `Allocate` and `Emplace` as `Region.Allocate`, and `Release` as `Region.Release`;
  - the loop steps `ReuseReleased`, `LinkFresh` and `BumpTail` as `Region.Pop`, `Region.Fresh`
    and `Region.Bump`;
  - the two plain constructors start from `Region.Empty`.

  `AllocateBlock`, `Info`, `Destroy` and the two move constructors are specified directly on
  the fields.
- `Adapter.RegionAllocator` (allocator.dfy) forwards to the class.

`malloc`'s answer is an input, `grant`. Each `allocate` call makes at most one `malloc` call.
When it fails, the call ends in `BadAlloc`, which stands for the thrown `std::bad_alloc`.

The properties proved are in three files:

- region_properties.dfy is about the loop. It shows that:
  - the chains stay disjoint and cover the arena;
  - the pool is used front first, in order, before any new block;
  - cursors are reset only on reuse;
  - the blocks passed over are too small.
- allocate_properties.dfy is about a whole call. It shows:
  - the fast path;
  - which block serves a request;
  - that the pointer lies in the block's payload;
  - what a failed call leaves behind;
  - that ranges handed out since the last `release` never overlap.
- release_properties.dfy shows that `release` is idempotent and that memory is reused after it.
  It also works through a 1 KiB reserve scenario.

Where the written description of the system and the code differ, the model follows the code:

- A fresh block gets `memblockSizeReserve + bytes` payload bytes (MemoryRegion.cpp:36), not the
  larger of the two. In the 1 KiB scenario the 2000-byte request therefore gets a 3024-byte block.
- The move constructor does not carry `memblockSizeReserve` over. The new manager keeps the
  default member initializer, 64 KiB (MemoryRegion.hpp:40, MemoryRegion.cpp:85-94).

## Model

| member | source | states |
|---|---|---|
| `Units.Kb` | MemoryRegion.hpp:21 | `kb(a)` is a multiple of 1024 whose quotient by 1024 is `a` |
| `Units.Mb` | MemoryRegion.hpp:22 | `mb(a)` is 1024 times `kb(a)` |
| `Units.Gb` | MemoryRegion.hpp:23 | `gb(a)` is 1024 times `mb(a)` |
| `Units.DefaultReserveIs64KiB` | MemoryRegion.hpp:25 | the default reserve is `kb(64)` = 65536 bytes |
| `Region.Used` | MemoryRegion.cpp:102-103 | the bytes handed out of a block are `info`'s payload size less the bytes left before `end` |
| `Region.Capacity` | MemoryRegion.cpp:102 | a valid block never has more used than its payload size, and a block whose cursor reached `end` has used all of it |
| `Region.Fits` | MemoryRegion.cpp:31 | the negated loop guard: on the null sentinel only a zero-byte request fits; a zero-byte request fits any valid tail |
| `Region.Cursor` | MemoryRegion.cpp:49 | `tail->free` is null exactly on the sentinel, and otherwise the cursor of the last active block |
| `Region.NewBlock` | MemoryRegion.cpp:16-22 | a new header has `free <= end`, a payload of the requested size and nothing used |
| `Region.Empty` | MemoryRegion.hpp:37-40 | a new manager owns no block, both chains are empty, the reserve is the one given |
| `Region.Pop` | MemoryRegion.cpp:38-47 | reusing the front released block keeps the set of owned blocks, shortens the pool by one, extends the active chain, and puts the cursor just past that block's header |
| `Region.Fresh` | MemoryRegion.cpp:33-36 | a fresh block gets the next handle, becomes the tail, has its cursor past the header, and fits the request |
| `Region.Grow` | MemoryRegion.cpp:31-48 | the loop ends with a tail that fits, or with `malloc` refused, the pool empty and no block added; it only appends to the active chain and adds at most one block |
| `Region.Bump` | MemoryRegion.cpp:49-51 | the bump hands out the old cursor and moves it forward by `bytes`; the chains, the arena's size, the tail's `end` and every other block are unchanged |
| `Region.Allocate` | MemoryRegion.cpp:26-52 | `allocate` returns null exactly for a zero-byte request on an empty chain; a non-null pointer is `bytes` below the new tail's cursor; `bad_alloc` only when `malloc` refuses |
| `Region.Release` | MemoryRegion.cpp:54-63 | `release` keeps every block and every cursor, and leaves the sentinel as the tail with a null cursor |
| `RegionProperties.ChainsDisjoint` | MemoryRegion.hpp:37-39 | no block is on both the active chain and the released pool |
| `RegionProperties.ChainsCoverArena` | MemoryRegion.cpp:26-63 | every block the manager obtained is on one of its two chains: none leaks |
| `RegionProperties.ChainsSwapped` | MemoryRegion.cpp:70-82 | the pool followed by the active chain names every owned block exactly once |
| `RegionProperties.GrowChains` | MemoryRegion.cpp:31-48 | the loop takes blocks from the front of the pool only, links them in pool order behind the old tail, then at most one fresh block |
| `RegionProperties.GrowSteps` | MemoryRegion.cpp:31-48 | the loop body runs at most once per released block plus once |
| `RegionProperties.GrowFreshOnlyWhenPoolEmpty` | MemoryRegion.cpp:33-36 | a new block is obtained only once the pool is exhausted and `malloc` agreed; its payload is `memblockSizeReserve + bytes` |
| `RegionProperties.GrowIdleIffFits` | MemoryRegion.cpp:31 | the loop does nothing exactly when the tail already fits |
| `RegionProperties.PopValid` | MemoryRegion.cpp:43-47 | reusing a released block keeps every block valid and on exactly one chain |
| `RegionProperties.FreshValid` | MemoryRegion.cpp:36-47 | linking a fresh block keeps every block valid and on exactly one chain |
| `RegionProperties.GrowValid` | MemoryRegion.cpp:31-48 | the loop keeps the invariant, also when `malloc` fails part-way |
| `RegionProperties.AllocateValid` | MemoryRegion.cpp:26-52 | `allocate` keeps `free <= end` everywhere and the chains disjoint and complete |
| `RegionProperties.ReleaseValid` | MemoryRegion.cpp:54-63 | `release` keeps the invariant and the number of blocks |
| `RegionProperties.ResetCursorsAt` | MemoryRegion.cpp:43 | resetting cursors one block after another leaves exactly the named blocks reset and the others untouched |
| `RegionProperties.GrowBlocks` | MemoryRegion.cpp:31-48 | the loop changes the arena only by resetting the cursors of the blocks it reuses and adding at most one fresh block |
| `RegionProperties.GrowResetsReusedBlocks` | MemoryRegion.cpp:43 | each reused block has its cursor put just past its header, and its `end` kept |
| `RegionProperties.GrowKeepsOtherBlocks` | MemoryRegion.cpp:31-48 | blocks the loop does not reuse are left exactly as they were |
| `RegionProperties.GrowPassesSmallBlocks` | MemoryRegion.cpp:31-45 | every reused block the loop moved past had a payload smaller than the request |
| `AllocateProperties.AllocateFastPath` | MemoryRegion.cpp:31-51 | a request that fits the tail returns the tail's cursor, leaves both chains alone and only moves that cursor |
| `AllocateProperties.AllocateZeroBytes` | MemoryRegion.cpp:31-51 | a zero-byte request changes nothing and returns the current cursor |
| `AllocateProperties.AllocateFreshBlock` | MemoryRegion.cpp:34-36 | with an empty pool, a request that does not fit gets a new block of `memblockSizeReserve + bytes` and its first byte; if `malloc` refuses, nothing changes |
| `AllocateProperties.AllocateFailure` | MemoryRegion.cpp:17-19 | after `bad_alloc`, every released block is on the active chain, each reset and each too small, and no block was added |
| `AllocateProperties.GrowCursorIdle` | MemoryRegion.cpp:31 | a loop that links nothing leaves the state unchanged |
| `AllocateProperties.GrowCursorReused` | MemoryRegion.cpp:43-47 | a loop that stops on a reused block leaves the cursor at that block's first payload byte |
| `AllocateProperties.GrowCursorFresh` | MemoryRegion.cpp:36-47 | a loop that links a fresh block has used up the pool and leaves the cursor at the fresh block's first payload byte |
| `AllocateProperties.AllocateServedFrom` | MemoryRegion.cpp:26-52 | a pointer comes from the old tail's cursor, from the start of the first released block that fits, or from the start of a fresh block when none fits |
| `AllocateProperties.BumpMovesCursorForward` | MemoryRegion.cpp:49-51 | the bump never moves a cursor back, nor any `end` |
| `AllocateProperties.AllocateInPayload` | MemoryRegion.cpp:49-51 | the `bytes` handed out lie between the header and the `end` of the new tail |
| `AllocateProperties.AllocateKeepsLive` | MemoryRegion.cpp:26-52 | until `release`, what was handed out stays handed out, and a later pointer into the same block starts past it |
| `AllocateProperties.AllocateAdjacent` | MemoryRegion.cpp:49-51 | two requests in a row served from the same block get adjacent ranges: the second starts where the first ends |
| `ReleaseProperties.ReleaseIdempotent` | MemoryRegion.cpp:54-63 | releasing twice is releasing once; releasing an empty chain changes nothing |
| `ReleaseProperties.ReleaseEndsLiveRanges` | MemoryRegion.cpp:54-63 | after `release` no earlier allocation is live |
| `ReleaseProperties.ReleaseThenGrow` | MemoryRegion.cpp:31-48 | after `release` the loop stops at the old first block when it fits |
| `ReleaseProperties.ReleaseThenAllocate` | MemoryRegion.cpp:54-63 | after `release`, a request that fits is served from the start of the old first block, and the rest of the chain waits in order in the pool |
| `ReleaseProperties.ReserveScenario` | MemoryRegion.cpp:26-63 | reserve 1024 bytes: 100 bytes go in a block of 1124, then 2000 bytes in a new block of 3024; `release` pools both in order and the next request reuses the first |
| `Manager.MemoryRegionManager.constructor` | MemoryRegion.hpp:45 | a default manager is valid, empty, with the 64 KiB reserve |
| `Manager.MemoryRegionManager.WithReserve` | MemoryRegion.cpp:6-9 | a manager built with a reserve is valid, empty, with that reserve |
| `Manager.MemoryRegionManager.MoveAsWritten` | MemoryRegion.cpp:85-94 | moving takes over both chains and leaves the source moved-from; if the source's chain was empty, the new tail points at the source's sentinel and the new manager is not valid |
| `Manager.MemoryRegionManager.Move` | MemoryRegion.cpp:85-94 | with the tail redirected to the new sentinel, moving yields a valid manager with the same blocks and chains |
| `Manager.MemoryRegionManager.AllocateBlock` | MemoryRegion.cpp:11-24 | a granted `malloc` adds one block of the requested payload under the next handle; a refused one changes nothing |
| `Manager.MemoryRegionManager.ReuseReleased` | MemoryRegion.cpp:38-47 | the reuse branch of the loop is `Region.Pop`, with the tail on the reused block |
| `Manager.MemoryRegionManager.LinkFresh` | MemoryRegion.cpp:33-36 | the fresh branch of the loop is `Region.Fresh` when `malloc` agrees, and changes nothing otherwise |
| `Manager.MemoryRegionManager.BumpTail` | MemoryRegion.cpp:49-51 | the bump on the class is `Region.Bump` |
| `Manager.MemoryRegionManager.Allocate` | MemoryRegion.cpp:26-52 | `allocate` moves the state and returns exactly what `Region.Allocate` gives, and keeps the manager valid |
| `Manager.MemoryRegionManager.Emplace` | MemoryRegion.hpp:84-90 | `emplace<T>` is `allocate(sizeof(T))` |
| `Manager.MemoryRegionManager.Release` | MemoryRegion.cpp:54-63 | `release` is `Region.Release` and keeps the manager valid |
| `Manager.MemoryRegionManager.Info` | MemoryRegion.cpp:96-125 | `info` reports, for each active block in order, its payload size and the bytes handed out of it (never more than the size), and the number of released blocks |
| `Manager.MemoryRegionManager.Destroy` | MemoryRegion.cpp:65-83 | the destructor frees the released blocks, then the active ones, each block the manager owns exactly once; a moved-from manager frees nothing |
| `Adapter.RequestSize` | MemoryRegion.hpp:81 | `sizeof(T) * n` in `size_t` is the product modulo 2^64: equal to it when it fits, smaller only when it overflows |
| `Adapter.WrappedRequestReservesNothing` | MemoryRegion.hpp:78-82 | 2^60 objects of 16 bytes ask for zero bytes and get the current cursor, with nothing reserved |
| `Adapter.CheckedRequestSize` | MemoryRegion.hpp:81 | the checked size exists exactly when the product fits `size_t` |
| `Adapter.RegionAllocator.constructor` | MemoryRegion.hpp:64 | the allocator refers to the manager it was given |
| `Adapter.RegionAllocator.Copy` | MemoryRegion.hpp:66 | a copy refers to the same manager |
| `Adapter.RegionAllocator.Move` | MemoryRegion.hpp:92-96 | a move takes the manager over and leaves the source with none |
| `Adapter.RegionAllocator.Allocate` | MemoryRegion.hpp:78-82 | `allocate(n)` is the manager's `allocate` of the wrapped `sizeof(T) * n` |
| `Adapter.RegionAllocator.AllocateChecked` | MemoryRegion.hpp:78-82 | with the product checked, an overflowing `n` fails without touching the manager and any other `n` gets room for all `n` objects |
| `Adapter.RegionAllocator.Deallocate` | MemoryRegion.hpp:70 | `deallocate` leaves the manager unchanged |

## Left out

- Debug `printf` output, and `info`'s 32-character gauge drawn with `float` arithmetic, are not modelled. `info` returns the numbers it prints instead.
- The `Unit` enum and `info`'s `Unit` parameter are not modelled. MemoryRegion.hpp:53 declares `info(Unit)`, but MemoryRegion.cpp:96 defines `info() const`, a different signature; the model follows the definition.
- There are no real addresses. A pointer is a block handle plus an offset; `malloc` and `free` are an input (`grant`) and a ghost log of freed handles.
- Manager.MemoryRegionManager.Allocate: requires `memblockSizeReserve + bytes + 24 < 2^64`. In the source that addition wraps in `u64` and leads on to undefined pointer arithmetic, which the model does not follow. The pointer comparison `tail->free + bytes > tail->end` is modelled on unbounded offsets.
- Manager.MemoryRegionManager.MoveAsWritten: does not follow what the aliased tail does to the source manager afterwards. Only the broken invariant is stated.
- Manager.MemoryRegionManager.Destroy: the memory is not actually returned, and the dangling `head.next` is left as it was. The model records the order of the `free` calls.
- Constructing a `T` by placement new in `emplace`, and that no destructor ever runs, are not modelled. Only the storage request is.
- `RegionAllocator`'s `std::allocator` base, `rebind` and `const` qualifiers are not modelled; `elemSize` stands for `sizeof(T)`.
- Alignment, threads, and using a manager after it was moved from or destroyed are not modelled. The source does not define these.

## Findings

| source | as written | input that shows it | evidently intended | confidence | as-written member | corrected member |
|---|---|---|---|---|---|---|
| MemoryRegion.cpp:85-94 | the move constructor copies `rval.tail`, which is `&rval.head` whenever `rval`'s active chain is empty | move-construct from a freshly built manager, or from one just released | the new tail is the new manager's own `head` when `rval.tail` was `rval`'s sentinel | high; not executed | `Manager.MemoryRegionManager.MoveAsWritten` | `Manager.MemoryRegionManager.Move` |
| MemoryRegion.hpp:78-82 | `sizeof(T) * n` is computed in `size_t` and wraps | `sizeof(T) = 16`, `n = 2^60`: the manager is asked for 0 bytes and returns a pointer | refuse (as `std::allocator` does with `bad_array_new_length`) when the product overflows | medium; not executed | `Adapter.WrappedRequestReservesNothing` | `Adapter.RegionAllocator.AllocateChecked` |
