# Buddy allocator, modelled and proved in Dafny

`buddy_allocator.cc` defines a `BuddyAllocator` class. It hands out pieces of a
2^log_size-byte buffer in power-of-two chunks. Each chunk size 2^k (its *order*
k) has two sorted sets of chunk offsets, one for free chunks (`free_list_[k]`)
and one for chunks in use (`used_list_[k]`).

- **Allocate:** a request of n bytes is served at the smallest order k with
  2^k >= n. The smallest free offset of that order is handed out as
  `base_ptr_ + offset`. If that order has no free chunk, a larger chunk is
  halved until a chunk of order k exists, and each upper half becomes free:
  that half is the *buddy* of the part that was kept.
- **Free:** a chunk that is freed merges with its buddy while the buddy is
  free.

The source implements only part of this. Allocate has the fast path only, with
the split left as a comment. `Free` and `Create` are empty, and the constructor
leaves every free set empty. This project models the allocator the comments
describe. It keeps the source's fields and the branches of Allocate that can
still be taken. It departs from the code where the code contradicts that
intent: the buffer size, the initial free chunk, and the fast path's removal
of the chunk it hands out from its free set. It also keeps log_size + 1
orders where the code and its comments (lines 21 and 48) keep log_size: test
4 (line 30) and the guard at line 86 need the whole-arena order log_size to
exist.
Each departure is listed under Findings, and one dead branch is listed under
Left out. It also keeps a model of the code as written, next to the
corrected one.

Modules:

- `Powers`: 2^k, the order of a request, and the arithmetic of aligned offsets.
- `Blocks`: chunks as values (`Block`), buddies and parents. It also states the
  tiling invariant: the tracked chunks partition the arena and no free chunk
  has a free buddy. It proves that this invariant is kept by one halving step
  (the chunk being split, held aside, becomes its held lower half and its
  free upper half) and by one merge step (a held chunk and its free buddy
  become their parent, still held aside). It also proves that a coalesced tiling with nothing in use is
  the single whole-arena chunk.
- `Bookkeeping`: the per-order `free`/`used` sets. It defines the allocator
  invariant `Inv` over them. It also gives the split and merge cascades as
  functions (`Split`, `Coalesce`), with proofs that both keep `Inv`.
- `Operations`: Allocate and Free as functions of the sets (`Allocation`,
  `Release`), with what they promise.
- `Allocator`: the `BuddyAllocator` class. Its fields are the source's fields,
  and its `Allocate` and `Free` methods update them in place. Each is proved to
  compute `Allocation` or `Release` and to keep `Inv`.
- `Scenarios`: the test list in the file's header comment, on the class.
- `AsWritten`: the code as written, and the inputs where it departs from the
  intent.

## Model

| member | source | states |
|---|---|---|
| Powers.Order | buddy_allocator.cc:80-81 | the order k of a request of n >= 1 bytes satisfies n <= 2^k, and 2^(k-1) < n when k > 0 |
| Powers.OrderIsLeast | buddy_allocator.cc:13-14 | any k with n <= 2^k is at least Order(n): the chunk served is the smallest power of two that holds the request |
| Powers.OrderOfPow2 | buddy_allocator.cc:80-81 | a request of exactly 2^k bytes is served at order k |
| Scenarios.SizeOrders | buddy_allocator.cc:27-30 | requests of 1, 4, 5 and 4096 bytes are served at orders 0, 2, 3 (an 8-byte chunk) and 12 |
| Operations.Least | buddy_allocator.cc:90-93 | the offset taken from a sorted set is its smallest element |
| Operations.FirstFree | buddy_allocator.cc:93-106 | the order a request of order k is served from: the lowest order >= k whose free set is non-empty; none exactly when all of them are empty |
| Operations.UsedOrder | buddy_allocator.cc:58-60 | the lowest order at which an offset is listed in use; none exactly when it is in no used set |
| Operations.Allocation | buddy_allocator.cc:79-107 | a request fails exactly when its order exceeds log_size or no free chunk of that order or above exists |
| Operations.AllocationKeeps | buddy_allocator.cc:79-107 | a successful allocation keeps the invariant: the tracked chunks still tile the arena, coalescing stays complete, and the byte count is unchanged |
| Operations.AllocationFastPath | buddy_allocator.cc:90-102 | when a chunk of the request's order is free, the smallest such offset moves from the free set to the used set of that order, and no other set changes |
| Operations.AllocationSplits | buddy_allocator.cc:15-16 | when no chunk of order k is free, the smallest chunk of the lowest non-empty order j > k is halved down to k. Each order between k and j gains exactly the buddy of the part kept, and every other free set is untouched |
| Operations.SplitHalves | buddy_allocator.cc:105-106 | halving an aligned chunk from order j down to order k lists exactly its upper half, o + 2^i (its buddy), at each order i in between, when those orders held nothing free |
| Operations.AllocationFresh | buddy_allocator.cc:95-100 | the chunk handed out is aligned, lies in the arena and overlaps no chunk in use, so no offset is handed out twice |
| Operations.Release | buddy_allocator.cc:111-114 | freeing an address that is not in use leaves both sets unchanged |
| Operations.ReleaseUsed | buddy_allocator.cc:17-19 | freeing a chunk in use at order k removes it from used[k] only, and merges it into the free sets by the cascade |
| Operations.ReleaseKeeps | buddy_allocator.cc:17-19 | freeing keeps the invariant, including that no free chunk is left beside a free buddy |
| Operations.CoalesceFrees | buddy_allocator.cc:17-19 | the freed chunk's bytes end up inside a free chunk of some order m >= k. When its buddy was free, the buddy leaves free[k] and m > k |
| Bookkeeping.Inv | buddy_allocator.cc:58-63 | the invariant of the free and used sets: one set of each kind per order 0..n; the chunks they list tile the arena with no overlap and no chunk both free and used; no free chunk has a free buddy; the free and used bytes add up to 2^n |
| Bookkeeping.InitialFree | buddy_allocator.cc:67-72 | a fresh allocator has n+1 free sets, and the only free chunk is the whole arena, at order n and offset 0 |
| Bookkeeping.InitialUsed | buddy_allocator.cc:67-72 | a fresh allocator has n+1 used sets, all empty |
| Bookkeeping.Split | buddy_allocator.cc:105-106 | the split cascade described at lines 15-16, in closed form: halving the chunk at o from order i down to order k adds o + 2^j to free[j] for each k <= j < i, and every other free set is unchanged |
| Bookkeeping.Coalesce | buddy_allocator.cc:17-19 | the merge cascade keeps n+1 free sets and leaves every order below the freed chunk's order unchanged |
| Bookkeeping.SplitKeeps | buddy_allocator.cc:15-16 | with the chunk being split held aside, halving it down to order k and marking the last half used restores the invariant |
| Bookkeeping.CoalesceKeeps | buddy_allocator.cc:17-19 | with the freed chunk held aside, merging it with its free buddies and listing the result free restores the invariant |
| Bookkeeping.TrackedFits | buddy_allocator.cc:58-63 | every offset in a free or used set of order k is aligned to 2^k, and its chunk lies inside the arena |
| Operations.AllocationNotInUse | buddy_allocator.cc:95-100 | the offset handed out is never already in use at the request's order, so the duplicate check of the fast path cannot fire |
| Scenarios.RunList | buddy_allocator.cc:27-30 | on a fresh 4096-byte allocator, tests 1 to 4 in turn (each followed by freeing everything) give 4096, 1024, 512 and 1 successful requests, and leave the allocator fresh |
| Bookkeeping.InitialInv | buddy_allocator.cc:67-72 | a fresh allocator, with one free chunk covering the whole arena, satisfies the invariant |
| Bookkeeping.AllocateKeeps | buddy_allocator.cc:90-106 | taking a free chunk, splitting it down to the requested order and marking the result used keeps the invariant |
| Bookkeeping.FreeKeeps | buddy_allocator.cc:17-19 | removing a used chunk and merging it keeps the invariant |
| Bookkeeping.FreeingAllRestores | buddy_allocator.cc:31 | once nothing is in use, the free sets are exactly those of a fresh allocator: the single whole-arena chunk |
| Bookkeeping.FreeNotUsed | buddy_allocator.cc:95-100 | no offset is free and in use at the same order |
| Bookkeeping.UsedApart | buddy_allocator.cc:58-60 | two different chunks in use never share a byte |
| Bookkeeping.UsedOrderUnique | buddy_allocator.cc:58-60 | an offset in use is listed at exactly one order |
| Blocks.BuddyFacts | buddy_allocator.cc:15-16 | the buddy of an aligned order-k offset lies 2^k above or below it and is aligned; the buddy of the buddy is the offset itself; both share a parent aligned to order k+1 |
| Blocks.SplitStep | buddy_allocator.cc:15-16 | halving the chunk being split, held aside, into its held lower half and its free upper half keeps the tiling and coalescing invariants |
| Blocks.MergeStep | buddy_allocator.cc:17-19 | merging a held chunk with its free buddy into their parent, still held aside, keeps the tiling and coalescing invariants |
| Blocks.AllFreeIsWhole | buddy_allocator.cc:31 | a coalesced tiling with no chunk in use is the single free chunk covering the arena |
| Allocator.FindFree | buddy_allocator.cc:93-106 | the upward scan from the request's order returns FirstFree: the lowest order with a free chunk, as the split described at lines 15-16 needs |
| Allocator.FindUsed | buddy_allocator.cc:58-60 | the upward scan returns UsedOrder |
| Allocator.Carve | buddy_allocator.cc:105-106 | the halving loop computes Split |
| Allocator.Merge | buddy_allocator.cc:17-19 | the merge loop computes Coalesce |
| Allocator.BuddyAllocator.constructor | buddy_allocator.cc:67-72 | the buffer has 2^log_size bytes, the sets are those of a fresh allocator, and the invariant holds |
| Allocator.BuddyAllocator.Allocate | buddy_allocator.cc:79-107 | returns base + offset and updates the sets as Allocation does; on failure it returns null and changes nothing; it keeps the invariant |
| Allocator.BuddyAllocator.Free | buddy_allocator.cc:111-114 | updates the sets as Release does and keeps the invariant |
| Scenarios.FillGrows | buddy_allocator.cc:27-29 | with only order-k chunks in use, a successful order-k request adds an offset not yet in use |
| Scenarios.FillFails | buddy_allocator.cc:27-28 | with only order-k chunks in use and none free below k, an order-k request fails only when 2^(n-k) chunks are in use |
| Scenarios.ShapeBound | buddy_allocator.cc:27-29 | when only order-k chunks are in use, at most 2^(n-k) of them can be in use at once |
| Scenarios.FillArena | buddy_allocator.cc:27-30 | on a fresh allocator, exactly 2^(log_size - order) requests succeed, the next one fails, and the offsets handed out are distinct |
| Scenarios.FreeAll | buddy_allocator.cc:31 | freeing every address handed out leaves the allocator as fresh |
| Scenarios.TestList | buddy_allocator.cc:27-31 | on a 4096-byte arena, 4096, 1024, 512 and 1 requests of 1, 4, 5 and 4096 bytes succeed before the first failure, and the same again after everything is freed |
| AsWritten.FastPath | buddy_allocator.cc:93-103 | the fast path as written: the smallest free offset is recorded as used and returned unless it is already in use; the free set is never changed |
| AsWritten.WrittenAllocator.constructor | buddy_allocator.cc:67-72 | as written: the buffer has 2 << log_size bytes, and both lists have log_size empty entries |
| AsWritten.WrittenAllocator.Allocate | buddy_allocator.cc:79-107 | as written: a request of order log_size reads past the end of the lists, and an allocator with empty free lists never returns an address |
| AsWritten.WrittenTestList | buddy_allocator.cc:27-30 | as written, on a 4096-byte arena the first 1-byte request yields null and the 4096-byte request reads past the end of the lists |
| AsWritten.FastPathRepeats | buddy_allocator.cc:93-100 | as written, with offsets 0 and 1 free at order 0, the first request gets 0 and the second gets null |
| AsWritten.FastPathTakesNext | buddy_allocator.cc:90-102 | corrected, the same two requests get 0 and then 1 |
| AsWritten.WholeArenaGranted | buddy_allocator.cc:30 | corrected, a request for the whole arena on a fresh allocator is served at offset 0 |

## Left out

- `main` and its print: the program's entry point does nothing related to the allocator.
- The `std::cout` trace of the order in Allocate: it is output only.
- `Create` and its `absl::StatusOr` result: the source leaves it unimplemented and returns null. The constructor instead requires log_size <= 30. The corrected buffer of 2^log_size bytes then fits a 32-bit int.
- The floating-point `std::ceil(std::log2(num_bytes))`: it is replaced by the exact integer order `Powers.Order`. Requests must be of at least 1 byte, because the source's order is undefined for 0 or negative sizes.
- The internals of `absl::btree_set`: each set is a Dafny `set<int>`, and "first element" is its least element.
- Buffer contents and pointer arithmetic: `base` stands for `buffer_.data()`. Addresses are `base + offset` as integers, and the buffer's bytes are never read or written.
- Allocator.BuddyAllocator.Allocate: the `emplaced` duplicate check of buddy_allocator.cc:95-100 has no branch. Under the invariant, the offset taken is never already in use (`Operations.AllocationNotInUse`, from `Operations.AllocationFresh`), so the check cannot fire. The check is kept in `AsWritten.FastPath`.
- Allocator.BuddyAllocator.Free: freeing an address that is not in use does nothing. The source has no code for this case.
- The order in which the test list frees its addresses: `Scenarios.FreeAll` frees them in the order they were handed out.

## Findings

| source | as written | input that shows it | evidently intended | confidence | as-written member | corrected member |
|---|---|---|---|---|---|---|
| buddy_allocator.cc:68 | `buffer_(2 << log_size)` allocates 2^(log_size+1) bytes | log_size = 12 gives an 8192-byte buffer | a buffer of 2^log_size bytes, as documented at line 38 | high, not executed | AsWritten.WrittenAllocator.constructor | Allocator.BuddyAllocator.constructor |
| buddy_allocator.cc:71-72, 86, 93 | the lists have log_size entries (orders 0..log_size-1), but the guard `pow > log2_buffer_size_` lets pow == log_size through to `free_list_[pow]` | log_size = 12, Allocate(4096): pow = 12 indexes one past the end | log_size + 1 entries, as test 4 (line 30) and the guard at line 86 require; this departs from the comments at lines 21 and 48, which ask for log_size sets | high, not executed | AsWritten.WrittenTestList | AsWritten.WholeArenaGranted |
| buddy_allocator.cc:67-72 | no chunk is ever put in a free list, so every request fails | a fresh allocator with log_size = 12, Allocate(1) returns null; test 1 expects 4096 successes | the fresh allocator has the whole arena as one free chunk of order log_size | high, not executed | AsWritten.WrittenAllocator.Allocate | Scenarios.TestList |
| buddy_allocator.cc:96-102 | the fast path inserts the offset into the used set but does not erase it from the free set | free set {0, 1} at order 0, two 1-byte requests: the second finds 0 again, is already in use, and returns null | the offset moves from the free set to the used set | high, not executed | AsWritten.FastPathRepeats | Operations.AllocationFastPath |
