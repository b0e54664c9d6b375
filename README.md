# MeMS registry in Dafny

This project models the bookkeeping core of MeMS, a simulated memory allocator written in C (`example.c`). MeMS keeps a registry on the heap:

- a doubly linked **main chain** of arena nodes, rooted at `main_chain_head`;
- one doubly linked **sub-chain** of segment nodes per arena;
- in each segment node, a `size` and a `type` (1 = in use by the process, 0 = hole).

The model covers these operations:

- `mems_init` creates the single arena;
- `mems_malloc` rounds a request up to whole pages and appends a new segment node at the tail of the head arena's sub-chain;
- `mems_free` walks every sub-chain and marks a matching node as a hole;
- the counting part of `mems_print_stats` computes pages, hole bytes, used bytes, the main-chain length and each sub-chain's length;
- the program's `main` is a concrete scenario.

There are three modules:

- `Registry` (`registry.dfy`) holds the registry as a value: a `Chain` is a sequence of arenas, and each arena is the sequence of its segments in list order. It also holds the page-size rounding, the specification functions of malloc, free and the statistics (`AppendSegment`, `FreeSpec`, `StatsOf`), and the lemmas about them.
- `Mems` (`mems.dfy`) holds the heap structures as classes: `SubChainNode`, `MainChainNode`, and an `Allocator` that plays the role of the global state.
  - The allocator's methods keep the source's pointer-chasing loops.
  - Each method is proved against the functions of `Registry`, through a ghost sequence of nodes and a ghost `Chain` value. `Valid()` ties them to the heap.
- `Driver` (`driver.dfy`) holds `main()`: ten `mems_malloc(sizeof(int) * 250)`, the statistics, `mems_free(ptr[3])`, then the statistics again. `mems_print_stats` prints the pages, the hole bytes ("Space unused") and the lengths; it accumulates the used bytes without printing them, and the model keeps them as a computed value.

Addresses that `mmap` would return are parameters. A successful mapping is page aligned, and its payload address is not already live. Both facts are preconditions of `Malloc`.

## Model

| member | source | states |
|---|---|---|
| `Registry.RoundUp` | example.c:39-42 | the rounded size is a multiple of PAGE_SIZE, at least the request and less than the request plus PAGE_SIZE |
| `Registry.RoundUpKeepsAligned` | example.c:39-42 | an already aligned size is unchanged by the rounding; in particular the rounding maps 0 to 0 |
| `Registry.RoundUpIdempotent` | example.c:39-42 | rounding twice equals rounding once |
| `Registry.RoundUpIsLeast` | example.c:39-42 | the rounded size is the least multiple of PAGE_SIZE that holds the request |
| `Mems.SubChainNode.constructor` | example.c:54-57 | a new segment node records the given size, type in-use (1), and null `prev` and `next` |
| `Mems.MainChainNode.constructor` | example.c:34-36 | a new arena node has a null sub-chain and null `prev` and `next` |
| `Mems.Allocator.Init` | example.c:27-37 | after mems_init the main chain is one fresh arena node with no neighbours and an empty sub-chain (registry value `[[]]`) |
| `Mems.Allocator.Malloc` | example.c:38-71 | for a request of at least one byte, returns the payload address; the registry gains exactly one node at the tail of the head arena, recording the rounded size and type in-use; earlier nodes keep their place and fields; the list stays doubly linked and the registry stays well formed |
| `Mems.Allocator.LinkAtTail` | example.c:59-68 | the node becomes the head of an empty sub-chain, or follows the old tail (old tail's `next` is the node, node's `prev` is the old tail); the sub-chain stays a doubly linked list of distinct nodes |
| `Mems.Allocator.Tail` | example.c:62-65 | following `next` from the sub-chain head ends at its last node |
| `Mems.Allocator.Free` | example.c:73-88 | the new registry is `FreeSpec(old, p)`: in each arena the first node whose address plus 32 equals `p` is marked a hole; no link, node or size changes |
| `Mems.Allocator.FreeInSubChain` | example.c:76-83 | the inner walk marks exactly the first matching node and stops, leaving every other type as it was |
| `Registry.FreeMarksFirstMatchOnly` | example.c:73-85 | for every node: address, payload and size are kept, and the type becomes hole if and only if it is the first node in its arena whose address plus 32 is `p`; otherwise the type is kept, so a hole is never turned back into in-use |
| `Registry.FreeIdempotent` | example.c:73-85 | freeing the same pointer twice equals freeing it once |
| `Registry.FreeSpec` | example.c:73-85 | free as written over any number of arenas: no arena or node is added, removed or moved; a node changes at most its type, and only to hole; at most one node of each arena changes, because the `break` at line 80 leaves only the inner loop |
| `Registry.MarkFirst` | example.c:77-83 | the search of one sub-chain changes a node only if its key is the one sought and no earlier key is, and then only its type, to hole |
| `Registry.FreeWithoutMatch` | example.c:73-85 | when no node's address plus 32 is `p`, the registry is unchanged |
| `Registry.FreeOfAlignedPointerIsNoOp` | example.c:78 | with page-aligned node addresses, freeing any page-aligned pointer (every handle mems_malloc returns is one) leaves the registry unchanged |
| `Registry.FreeByPayload` | example.c:44-57 | the intended free, matching the handle mems_malloc returned: only types change, only to hole, and at most one node per arena |
| `Registry.FreeByPayloadMarksSegment` | example.c:44-57 | the intended free: freeing the handle returned for node (i, j) marks exactly that node as a hole |
| `Registry.AppendKeepsWellFormed` | example.c:44-57 | appending a page-aligned node with a fresh payload keeps sizes and addresses aligned and payloads distinct |
| `Registry.FreeKeepsWellFormed` | example.c:73-85 | free keeps the registry well formed |
| `Registry.AppendSegment` | example.c:54-68 | the head arena grows by exactly one node, which is the given segment and is last; every earlier node and every other arena is unchanged |
| `Registry.AppendAllInOrder` | example.c:175-178 | successive mallocs into one arena leave their nodes in call order |
| `Registry.FirstMatch` | example.c:77-83 | the index where the search stops: every earlier key differs from `p`, and the key there, if any, is `p` |
| `Mems.Allocator.CollectStats` | example.c:121-167 | the computed pages, hole bytes, used bytes, main-chain length and sub-chain lengths are `StatsOf` of the registry; nothing is written (used bytes are computed but never printed) |
| `Mems.Allocator.CountTotals` | example.c:128-140 | the first pass's three totals equal `ChainTotals` of the registry |
| `Mems.Allocator.AddSubChainTotals` | example.c:130-137 | walking a sub-chain adds every node's pages (whatever its type), and its size to hole bytes or to used bytes according to its type |
| `Mems.Allocator.CountArenas` | example.c:142-147 | the second pass counts the main-chain nodes |
| `Mems.Allocator.CountSubChains` | example.c:153-163 | the third pass gives, for each arena in order, its sub-chain length |
| `Registry.SegmentTotalsSplit` | example.c:133-135 | one node (`SegmentTotals`) adds its size to exactly one of hole bytes and used bytes, by type, and its whole pages, rounded down, to the page count |
| `Registry.ArenaTotalsBounds` | example.c:130-137 | over one sub-chain (`ArenaTotals`), the pages counted times PAGE_SIZE is at most the hole plus used bytes, and falls short of them by less than a page per node |
| `Registry.StatsBounds` | example.c:128-163 | over the whole chain (`ChainTotals`, `StatsOf`), pages times PAGE_SIZE never exceeds hole plus used bytes, and there is one sub-chain length per main-chain node |
| `Registry.SubLengths` | example.c:153-163 | the lengths, appended arena by arena, have one entry per arena, and entry i is the length of arena i's sub-chain |
| `Registry.NoHoleNoHoleBytes` | example.c:134 | a sub-chain whose nodes are all in use counts no hole bytes |
| `Registry.ArenaTotalsStep` | example.c:131-136 | counting one more node adds exactly that node's contribution |
| `Registry.StatsAligned` | example.c:133-135 | with page-aligned sizes, hole bytes plus used bytes equals pages times PAGE_SIZE |
| `Registry.StatsAfterMalloc` | example.c:54-68 | malloc adds the node's pages and bytes to the page and used totals, keeps the hole bytes and main-chain length, and lengthens the head sub-chain by one |
| `Registry.StatsAfterFree` | example.c:73-85 | free keeps pages, main-chain length and sub-chain lengths, keeps hole plus used, and never lowers the hole bytes |
| `Registry.StatsAfterMarking` | example.c:79 | marking one in-use node as a hole moves exactly its size from used bytes to hole bytes |
| `Registry.StatsAfterFreeByPayload` | example.c:79 | the intended free of a live handle moves exactly that node's size from used bytes to hole bytes |
| `Registry.MallocsAfterInit` | example.c:171-178 | after init and k mallocs with no free, the registry is one arena of the k nodes in order, the main-chain length is 1, the sub-chain lengths are [k] and there are no hole bytes |
| `Registry.UniformArenaTotals` | example.c:128-140 | a sub-chain of n one-page in-use nodes counts n pages, no hole bytes and n pages of used bytes |
| `Registry.SingleArenaStats` | example.c:121-167 | a one-arena registry reports that arena's totals, main-chain length 1 and sub-chain lengths [its length] |
| `Driver.OnePagePerRequest` | example.c:176 | a request of sizeof(int) * 250 = 1000 bytes records exactly one page |
| `Driver.AllocateTen` | example.c:171-178 | after mems_init and ten requests of 1000 bytes, the pointers are the ten payload addresses and the registry is one arena of ten one-page in-use nodes in call order |
| `Driver.Scenario` | example.c:170-187 | main as written: the first statistics computed are 10 pages, 0 hole bytes, 40960 used bytes (computed, not printed), main-chain length 1, sub-chain lengths [10]; those computed after `mems_free(ptr[3])` are the same |
| `Driver.IntendedScenario` | example.c:170-187 | main as intended: after freeing ptr[3]'s payload the statistics computed are 10 pages, 4096 hole bytes, 36864 used bytes (computed, not printed), lengths 1 and [10] |

## Left out

- `Mems.Allocator.Malloc`: mems_malloc(0) exits because mmap rejects length 0. The rounding maps 0 to 0 (example.c:39-42), the mapping of length 0 at example.c:44 fails, and the program exits at example.c:45-47 without recording anything. `Malloc` therefore requires `size > 0`, and the exit itself is not modelled.
- `mmap` is not modelled. Its returned addresses are parameters of `Malloc`, which requires them to be page aligned and the payload to be unused. `MAP_FAILED`, `perror` and `exit(1)` (example.c:29-33, 44-53) are not modelled: the host is assumed to succeed.
- The arena node that `mems_init` maps (example.c:29) is a fresh object. Its address is not recorded, because only `mems_get` and printing read it.
- `mems_get` (example.c:90-99) is not modelled. It only prints pointer arithmetic and changes no state.
- `mems_finish` (example.c:104-118) is not modelled. It consists of `munmap` calls, and the same calls appear nowhere else in the model. It also does not reset `main_chain_head`, so after it the registry is dangling.
- `printf` is not modelled, including the address ranges printed by `mems_print_stats` (example.c:127-166). `mems_get` calls in `main` are not modelled either.
- Sizes and totals are `nat`, so `size_t` wrap-around is not modelled. That covers rounding a request within PAGE_SIZE of `SIZE_MAX` (example.c:41) and overflow of the running totals.
- `sizeof(struct SubChainNode)` is fixed at 32 and `sizeof(int)` at 4, the LP64 layout.
- The main chain always has exactly one arena, because no operation other than `mems_init` creates one. `Valid()` records this, and the walks over the main chain are loops that run once. A registry with several arenas is reasoned about only as a value (`FreeSpec`, `StatsOf` and their lemmas hold for any number of arenas).
- The inner loops of `mems_free` and of the first statistics pass are separate methods (`FreeInSubChain`, `AddSubChainTotals`), as is each statistics pass, instead of sitting inline in `mems_free` and `mems_print_stats`. The loop structure and the order of the walks are the source's.
- The `payload` field of a `Segment` value is provenance: the C node never stores the payload address. Only the corrected free (`FreeByPayload`) and the well-formedness predicates read it.

## Findings

| source | as written | input that shows it | evidently intended | confidence | as-written member | corrected member |
|---|---|---|---|---|---|---|
| example.c:78 | `mems_free(v_ptr)` marks the node whose own address plus `sizeof(struct SubChainNode)` equals `v_ptr`; `mems_malloc` returns a separately mapped, page-aligned payload that the node never records, and a page-aligned node address plus 32 is never page aligned, so freeing a handle from `mems_malloc` never matches and changes nothing | `main`: ten `mems_malloc(1000)` then `mems_free(ptr[3])`; both computations give 0 hole bytes and 40960 used bytes | freeing the handle marks the segment it was returned for as a hole: 4096 hole bytes and 36864 used bytes | high (not executed) | `Registry.FreeOfAlignedPointerIsNoOp`, `Mems.Allocator.Free`, `Driver.Scenario` | `Registry.FreeByPayloadMarksSegment`, `Registry.StatsAfterFreeByPayload`, `Driver.IntendedScenario` |
