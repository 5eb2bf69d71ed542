# Index access methods and their verifiers

A Dafny model of the parts of this PostgreSQL tree where correctness is hardest to see: two GiST
operator classes whose internal keys only bound what lies below them, the Bloom index access method,
the verifiers of amcheck, and the experiment scripts that choose plan candidates and keep a
resumable report. `dafny verify dfyconfig.toml` checks everything.

**Variable-length keys of btree_gist** (`ByteOrder`, `VarKeys`, `VarSearch`, `VarLayout`,
`VarSplit`). Keys are ranges of byte strings whose bounds are cut to the common prefix and a few
bytes. In every tree whose upper page keys come from the union function, with leaf pages keyed by
union or by a split, descending by the consistency test returns exactly the rows a plain filter
returns, for all six operators. Page keys made by a split are cut at a length shared by both halves;
the project proves exactly when such a page still hides no row, and gives a split of an internal
page that does hide one (`SplitPageKey`, `InternalSplitLosesRow`).

**Fixed-size keys of btree_gist** (`NumKeys`, with `Sorting` and `HalfSplit` for the splits of both
classes). Search is exact, distances are lower bounds, and a split is a partition into halves whose
keys are the hulls of their sides.

`GistTree` is the tree that both classes and cube share: the descent returns exactly the wanted rows
if and only if no page that fails the key test has a wanted row below it.

**Bloom** (`BloomSignature`, `BloomBits`, `BloomPages`, `BloomProtocol`, `BloomHistory`,
`BloomQueue`, `BloomSweep`, `BloomIndex`). The signature generator with its 32-bit arithmetic, and
the bits it sets in closed form; pages with their capacity; and a state machine in which inserts,
scans, vacuums and crashes between lock sections interleave freely. Over every run the metapage and
the pages stay well formed. What the file holds, was erased, was given up or is still on its way is
exactly what was there at first or was begun, read off the actions alone. An insert that completed
has stored its row; a scan that ends has found each matching row whose insert had completed, and
nothing that did not match; a vacuum misses no dead row, and publishes exactly the pages it saw with
room; the file grows only when every queued page was seen full. `BloomIndex` has the same operations
as code that runs alone. The comment above mySrand promises a state in [1, 0x7ffffffe]; the code's
signed remainder also yields negative states and, for two seeds, zero. The model follows the code,
and `SeededRange` and `BitsInRangeIffLive` say exactly where the zero state arises: every bit index
is then -1, and SETBIT shifts by -1, which C leaves undefined. The results hold for whatever word
that shift yields, provided that it is always the same.

**Cube** (`Cube`, `CubeOrder`, `CubeSearch`, `CubeDistance`, `CubeSplit`). Boxes of mixed dimension,
read as zero in the dimensions they lack. What each operator asks is told from the points of the
boxes. Union is the least bounding box, containment is transitive exactly where the outer box holds
zero in the dimensions the middle one lacks, search returns exactly what overlap, equality and
containment ask for, distances are those between nearest points and never rise from a box to a key
above it, and the quadratic split is a partition in which each entry went where the side so far grew
less. Contained-by search can miss boxes of lower dimension than the query; `ContainedBySafeIff`
gives the exact condition. The comparison function orders boxes of one dimension; `TransitiveIff`
says exactly for which pairs of dimensions it is transitive.

**B-Tree verifier** (`NbtreePages`, `NbtreeRuns`, `NbtreeAccept`, `NbtreeCheck`, `NbtreeLevels`,
`NbtreeSound`, `NbtreeOrder`, `NbtreeMeaning`, `NbtreeWoven`, `NbtreeTree`, `NbtreeHidden`). The
read-only checks of verify_nbtree.c over arbitrary page graphs: half-dead and deleted pages,
incomplete splits, root flags and cycles included. `NbtreeAccept` says without loops what each check
accepts, and the methods of `NbtreeCheck` and `NbtreeTree` accept exactly that when given patience
for more page visits than the file has pages. Interruption is only needed to end a walk round a
cycle, and never on graphs without half-dead and deleted pages and, below an internal level, without
incomplete splits and root flags. What is accepted is then told from the fields of the pages, again
on any graph. A leaf level: pages at their places, and the live ones in order, each within itself and
with the next live one, over half-dead pages between them (`LeafLevelMeaning`). An internal level
whose first downlinks are all there: a doubly linked row of pages in order over one row of children
that is the downlinks, interleaved only with pages that are half-dead or deleted, carry a root flag,
follow an incomplete split or head a subtree that is being deleted, each closed by the key behind
the last downlink up to it (`InternalLevelMeaning`). An accepted tree need not be sound, that is,
have levels that are doubly linked chains down to the leaves, each the downlinks of the one above:
without half-dead and deleted pages and incomplete splits it is sound exactly when no page of its
internal levels has P_NONE as its first downlink and every page below that carries a root flag has a
downlink. `NbtreeHidden` has an accepted tree for each of the two failures. The leaf items of an
accepted tree are strictly increasing exactly when leaves with only empty leaves, and a live one
among them, between them are in order.

**Heap verifier** (`HeapChains`, `HeapHot`, `HeapLinks`, `HeapToast`, `HeapXid`). The reports about
the line pointers and update chains of a page are exactly its faults, and `HeapLinks` tells from the
line pointers and tuples alone which redirects and updates are reported and which are recorded as
predecessors. A page without reports has update chains that never meet, though it may have cycles
(`CycleUnreported`). The TOAST check accepts exactly the complete values and names each fault of the
others. Widening a transaction id is exact, unique and stable.

**Candidate selection and report** (`CandidateSelection`, `SelectionOrder`, `ProtectedSelection`,
`OracleReport`). The greedy selection keeps its protected members and its limit, takes for each
binding, then for each skeleton, then of the rest the cheapest, and stops early only when every
candidate repeats a chosen one. A collected default plan is always evaluated, so the best time found
never exceeds the default's. The running counters always equal a recomputation, and resuming is
transparent exactly when no remaining file has the name of a completed one.

`Common` holds notions that several modules share.

## Model

| member | source | states |
|---|---|---|
| VarLayout.LeafRoundTrip | contrib/btree_gist/btree_utils_var.c:57-86 | a leaf key built from a datum reads back as that datum for both bounds, marked as a leaf key |
| VarLayout.NodeRoundTrip | contrib/btree_gist/btree_utils_var.c:57-102 | an internal key copied into its aligned layout reads back as the same two bounds |
| VarLayout.NodeSizes | contrib/btree_gist/btree_utils_var.c:89-102 | the headers of the copied key give the sizes of the whole and of both bounds |
| GistTree.SearchExactIff | src/backend/access/gist/gistget.c:125-304 | the descent returns exactly the wanted rows, in order, if and only if no page that fails the key test has a wanted row below it |
| ByteOrder.LtIff | src/backend/utils/adt/varlena.c:3935-3954 | one byte string is below another exactly when it is a proper prefix or has the smaller byte at the first difference |
| VarKeys.NodeCpLen | contrib/btree_gist/btree_utils_var.c:120-162 | the byte loop finds the length of the longest common prefix of the two bounds |
| VarKeys.BinUnionBounds | contrib/btree_gist/btree_utils_var.c:232-277 | the union of two ranges starts no later and ends no earlier than either |
| VarKeys.UnionMeaning | contrib/btree_gist/btree_utils_var.c:232-357 | the union of a page is its least lower and its greatest upper bound, each cut two bytes behind the prefix they share |
| VarKeys.VarUnion | contrib/btree_gist/btree_utils_var.c:321-357 | the loop yields the hull of all entries cut behind its own common prefix |
| VarKeys.LeafCovers | contrib/btree_gist/btree_utils_var.c:73-86 | a leaf key covers exactly its own value |
| VarKeys.CutHullCovers | contrib/btree_gist/btree_utils_var.c:203-228 | cutting a page key at or behind the common prefix of its hull keeps the invariant that lower is at most the value and the first cp+2 bytes of the value are at most those of upper |
| VarSearch.LeafConsistentExact | contrib/btree_gist/btree_utils_var.c:553-612 | on a leaf the consistency test is the operator itself, for every strategy number |
| VarSearch.CompleteIffReaches | contrib/btree_gist/btree_utils_var.c:553-612 | an internal key passes every query that a covered value matches exactly when the value is at most upper or extends one of the bounds |
| VarSearch.UnionNeverRisky | contrib/btree_gist/btree_utils_var.c:321-357 | keys made by union never cut away what an entry kept |
| VarSearch.RiskyEntryLoses | contrib/btree_gist/btree_utils_var.c:527-544 | an entry whose kept bytes end inside the page's upper bound covers a value that the page key does not reach |
| VarSearch.PageCompleteIffNoneRisky | contrib/btree_gist/btree_utils_var.c:527-544 | with any shared cut, the page key passes all queries matched below it exactly when no entry is of that kind |
| VarSearch.LeafNeverRisky | contrib/btree_gist/btree_utils_var.c:457-547 | exact leaf entries are never of that kind |
| VarSearch.SearchExact | contrib/btree_gist/btree_utils_var.c:553-612 | in a tree whose page keys are cut hulls without such entries, search returns exactly the matching rows, in order |
| VarSearch.GrownTreeSearchExact | contrib/btree_gist/btree_utils_var.c:321-357 | in every tree whose upper page keys come from union and whose leaf pages carry their hull with any cut from the common prefix on, search returns exactly the matching rows for all six operators despite truncation at every level |
| VarSplit.SortEntries | contrib/btree_gist/btree_utils_var.c:442-455 | the entries are permuted into the order of lower, then upper bounds |
| VarSplit.DealHalves | contrib/btree_gist/btree_utils_var.c:510-527 | the first half goes left and the rest right, each with the hull of its side |
| VarSplit.PickSplit | contrib/btree_gist/btree_utils_var.c:457-547 | two parts hold each offset once, the left one half of them rounded down, left entries do not sort after right ones, and each side's key is its hull cut at the longer of the two common prefixes |
| VarSplit.SplitOrder | contrib/btree_gist/btree_utils_var.c:442-455 | no left entry has the larger lower bound and, among equal ones, none the larger upper bound |
| VarSplit.SplitKeysArePageKeys | contrib/btree_gist/btree_utils_var.c:527-544 | a side's key cut at any length from its common prefix on is in order and keeps the retained-length invariant for every value its entries cover |
| VarSplit.LeafSplitBuilt | contrib/btree_gist/btree_utils_var.c:457-547 | a leaf page with any such key is searched exactly |
| VarSplit.SplitPageKey | contrib/btree_gist/btree_utils_var.c:457-547 | four internal entries of which every split that meets the contract gives the left page the same two entries and the same key |
| VarSplit.SplitPageChildrenGrown | contrib/btree_gist/btree_utils_var.c:321-357 | the pages below these two entries are keyed by union |
| VarSplit.InternalSplitLosesRow | contrib/btree_gist/btree_utils_var.c:529-544 | a search of that page for a stored value returns nothing |
| HalfSplit.HalvesPartition | contrib/btree_gist/btree_utils_var.c:505-547 | the two halves of the sorted offsets are a partition of 1 .. n-1 |
| NumKeys.NumUnion | contrib/btree_gist/btree_utils_num.c:171-205 | the union is the least range that holds every entry |
| NumKeys.HullUnique | contrib/btree_gist/btree_utils_num.c:227-252 | there is only one such range |
| NumKeys.KeyTestMeaning | contrib/btree_gist/btree_utils_num.c:262-308 | a page key passes exactly when some value of its range matches, or the query of a strict operator is the end of the range |
| NumKeys.SearchExact | contrib/btree_gist/btree_utils_num.c:262-308 | search returns exactly the matching rows, in order, for all six operators |
| NumKeys.DistanceLowerBound | contrib/btree_gist/btree_utils_num.c:315-335 | a key's distance is at most that of every row below it, and a row's distance is the absolute difference |
| NumKeys.DealHalves | contrib/btree_gist/btree_utils_num.c:360-384 | the first half goes left and the rest right, and each side's key is the least range that holds its entries |
| NumKeys.PickSplit | contrib/btree_gist/btree_utils_num.c:338-384 | two parts hold each offset once, the left one half of them rounded down, left entries do not sort after right ones, and each key is the least range of its side |
| NumKeys.SplitPageBuilt | contrib/btree_gist/btree_utils_num.c:338-384 | a page that a split makes of searchable entries is one that search is exact on |
| BloomSignature.Generator.Rand | contrib/bloom/blutils.c:221-246 | the generator advances as specified and no intermediate result leaves the 32-bit range |
| BloomSignature.Generator.Srand | contrib/bloom/blutils.c:248-253 | seeding takes the signed remainder of the seed |
| BloomSignature.NextStateIsParkMiller | contrib/bloom/blutils.c:221-246 | from a non-zero state the next is 16807 times it modulo 2^31-1, within 1 .. 2^31-2 |
| BloomSignature.SeededRange | contrib/bloom/blutils.c:248-253 | the range of seeded states, and zero for exactly two seeds |
| BloomSignature.BitsInRangeIffLive | contrib/bloom/blutils.c:259-287 | all bit indexes of a value lie in the signature exactly when its state is not zero, and the two hashes per column for which it is |
| BloomSignature.SignatureTest | contrib/bloom/blscan.c:147-155 | the word loop decides whether every scan word is contained in the tuple's |
| BloomSignature.SubsumesIffBits | contrib/bloom/blscan.c:147-155 | word-wise containment is containment of the sets of bits |
| BloomSignature.SetBitAt | contrib/bloom/blutils.c:29-33 | the bit at an index is set and no other; for index -1 the word that the shift by -1 yields is added to the first word |
| BloomSignature.SignatureTestExact | contrib/bloom/blscan.c:147-155 | a tuple passes exactly when every bit of the keys is a bit of the row |
| BloomSignature.MatchingRowPasses | contrib/bloom/blutils.c:259-311 | a row whose columns equal the keys always passes |
| BloomSignature.SignValue | contrib/bloom/blutils.c:259-287 | exactly the bits of the value are set, all within the array; in state zero these are the bits of whatever word the shift by -1 yields |
| BloomBits.XorBit | contrib/bloom/blutils.c:259-287 | a bit of the exclusive or is set exactly where the bits of the operands differ |
| BloomBits.SeedMeaning | contrib/bloom/blutils.c:248-253 | seeding takes the remainder that has the sign of the seed read as a signed number |
| BloomBits.ValueSeed | contrib/bloom/blutils.c:259-287 | the generator of a value is seeded with its hash, each bit flipped where the first draw of the column has one |
| BloomBits.BitsClosedForm | contrib/bloom/blutils.c:221-287 | from a live state s the j-th of the n bits is (16807^(j+1) s mod (2^31-1) - 1) mod the bits of the signature |
| BloomBits.ValueBitsClosedForm | contrib/bloom/blutils.c:259-287 | so are the bits of a value, as many as the column asks for |
| BloomSignature.FormSignature | contrib/bloom/blutils.c:292-311 | the signature of a row is the union of the bits of its non-null columns |
| BloomSignature.FormScanSignature | contrib/bloom/blscan.c:90-116 | a null key yields no signature, otherwise the union of the bits of the keys |
| BloomBits.RowSignature | contrib/bloom/blutils.c:292-311 | a bit is in the signature of a row exactly when some non-null column sets it |
| BloomBits.ScanSignature | contrib/bloom/blscan.c:90-116 | a bit is in the signature of a scan exactly when some key sets it |
| BloomPages.CapacityExact | contrib/bloom/blutils.c:317-345 | the free-space test succeeds exactly below the page's capacity |
| BloomPages.TryAdd | contrib/bloom/blutils.c:317-345 | an add succeeds exactly below the capacity, and then appends the tuple and keeps the page within its capacity |
| BloomPages.EmptyPageTakes | contrib/bloom/blinsert.c:311-324 | an empty page takes any tuple, so the error branch is dead |
| BloomPages.SurvivorsSplit | contrib/bloom/blvacuum.c:85-112 | kept and removed tuples are exactly those not named and named by the callback, and together the old page |
| BloomPages.VacuumPageItems | contrib/bloom/blvacuum.c:80-137 | vacuuming a page keeps it valid and conserves its tuples up to those removed |
| BloomPages.VacuumPageMeaning | contrib/bloom/blvacuum.c:80-137 | a vacuumed page holds its survivors, is deleted exactly when it lost its last tuple, and is queued exactly when it then has tuples and room for one more |
| BloomPages.Compact | contrib/bloom/blvacuum.c:85-112 | the two-pointer loop leaves the surviving tuples, in order, at the front of the array |
| BloomProtocol.StepKeepsInv | contrib/bloom/blinsert.c:206-335 | every lock section of every operation keeps the metapage queue, the lock and the pages well formed |
| BloomProtocol.RunKeepsInv | contrib/bloom/blvacuum.c:57-160 | so does every interleaving of operations of any number of backends |
| BloomProtocol.NobodyIsStuck | contrib/bloom/blinsert.c:206-335 | a backend inside an operation can always take its next step unless another holds the metapage lock |
| BloomHistory.StepConserves | contrib/bloom/blinsert.c:206-335 | a step that completes an insert adds exactly its tuple to the file, a vacuum step removes exactly the tuples it is told to from its page, and no other step changes what the file holds |
| BloomHistory.RunConserves | contrib/bloom/blinsert.c:173-341 | over every run the tuples in the file, erased, given up and under way are those there at first and those of the inserts begun, each as often |
| BloomHistory.InsertsAreStored | contrib/bloom/blinsert.c:173-341 | when no insert was given up or is under way the file holds what it held and every tuple inserted, less those erased |
| BloomHistory.CompletedInsertIsPresent | contrib/bloom/blinsert.c:173-341 | an insert that is over has put its tuple into the index, whatever ran beside it |
| BloomHistory.InsertCanFinish | contrib/bloom/blinsert.c:206-335 | a backend that inserts can finish by itself when the metapage is free or its own, and its tuple is then in the index |
| BloomHistory.ScanFindsPresent | contrib/bloom/blscan.c:122-171 | a scan that has reached its end has found every tuple that was there when it began, passes its test and was not deleted meanwhile |
| BloomHistory.ScanFindsEveryRow | contrib/bloom/blscan.c:122-171 | a row whose insert completed before the scan began, among any other operations, and that matches the keys is found |
| BloomHistory.ScanFindsOnlyMatches | contrib/bloom/blscan.c:122-171 | each tid a scan has found is that of a tuple which passes its test and was in the index at some moment since the scan began |
| BloomQueue.HeadTookTuple | contrib/bloom/blinsert.c:270-332 | an insert that held the metapage leaves it unlocked, with the page that took its tuple at the head of the queue and all other pages as they were |
| BloomQueue.QueueKept | contrib/bloom/blinsert.c:206-335 | nothing else but the end of a vacuum changes the queue |
| BloomQueue.FileGrowsOnlyPastFull | contrib/bloom/blinsert.c:206-335 | over every run, an insert takes a free page or extends the file only if each queued page was full at some moment since the insert began |
| BloomQueue.VacuumPublishes | contrib/bloom/blvacuum.c:57-160 | over every run, a vacuum passes each block the file had but the metapage, and publishes exactly those it left with tuples and room, in order, as many as fit |
| BloomSweep.StepKeepsSweep | contrib/bloom/blvacuum.c:57-160 | every step keeps the blocks a vacuum has passed free of the tuples it is to remove |
| BloomSweep.VacuumMissesNothing | contrib/bloom/blvacuum.c:57-160 | when a vacuum that was told to remove some tids is about to publish its queue, no page holds a tuple with one of them, however other backends ran |
| BloomIndex.Index.constructor | contrib/bloom/blutils.c:445-472 | a new index has a metapage, an empty queue and no tuples |
| BloomIndex.Index.FlushCachedPage | contrib/bloom/blinsert.c:46-58 | the cached page becomes the last of the file, and its tuples follow the others |
| BloomIndex.Index.BuildCallback | contrib/bloom/blinsert.c:73-115 | the tuple joins the cached page, which is flushed first when full |
| BloomIndex.Index.Build | contrib/bloom/blinsert.c:120-158 | the file holds the tuples in order and every page but the last is full |
| BloomIndex.Index.NewBuffer | contrib/bloom/blutils.c:352-393 | the buffer is a reusable page that the free space map named, or the file grown by one page |
| BloomIndex.Index.InsertQueued | contrib/bloom/blinsert.c:202-309 | the first queued page with room takes the tuple and the queue starts there; otherwise nothing changes and no queued page has room |
| BloomIndex.Index.InsertNew | contrib/bloom/blinsert.c:311-332 | a recycled or new page takes the tuple and becomes the whole queue |
| BloomIndex.Index.Insert | contrib/bloom/blinsert.c:173-341 | exactly one page gains exactly the tuple, all others are unchanged, and the queue is as above |
| BloomIndex.Index.BulkDeletePage | contrib/bloom/blvacuum.c:58-139 | one page is replaced by its survivors, marked deleted when none is left, and is listed when it has room |
| BloomIndex.Index.BulkDelete | contrib/bloom/blvacuum.c:33-161 | the file holds exactly the tuples not named, in order, the count is that of the others, and the queue lists the pages with room |
| BloomIndex.Index.Cleanup | contrib/bloom/blvacuum.c:168-217 | the tuple count is exact and exactly the new and deleted pages are handed to the free space map |
| BloomIndex.Index.GetBitmap | contrib/bloom/blscan.c:122-171 | the tids of exactly the tuples whose signature contains the scan's, in file order |
| BloomIndex.MatchingTidsExact | contrib/bloom/blscan.c:142-165 | a tid is reported exactly when some tuple with it passes the test |
| BloomIndex.VacuumedFlatten | contrib/bloom/blvacuum.c:57-139 | vacuuming page by page is filtering the whole file |
| Cube.UnionV0 | contrib/cube/cube.c:747-805 | the result has the larger dimension and in every dimension the hull of both intervals, missing ones being zero; one object united with itself is returned as it is |
| Cube.UnionLeast | contrib/cube/cube.c:747-805 | a box bounds the union exactly when it bounds both boxes |
| Cube.UnionMany | contrib/cube/cube.c:424-447 | the fold over a page is the least box that bounds every entry; a single entry yields no key |
| Cube.CubeInter | contrib/cube/cube.c:822-895 | in every dimension the larger lower and the smaller upper bound |
| Cube.SetPointBit | contrib/cube/cube.c:1530-1552 | the point flag is set exactly when both corners agree, and no coordinate changes |
| Cube.ContainsV0 | contrib/cube/cube.c:1123-1159 | containment with excess dimensions of the container ignored and those of the contained box zero |
| Cube.OverlapV0 | contrib/cube/cube.c:1193-1229 | the intervals meet in every dimension, missing ones being zero |
| Cube.ContainsTransIff | contrib/cube/cube.c:1123-1159 | if a contains b and b contains c, then a contains c exactly when a holds zero in each dimension that a and c have and b lacks |
| Cube.ContainsNotTransitive | contrib/cube/cube.c:1123-1159 | three boxes for which it does not |
| Cube.BoundsTrans | contrib/cube/cube.c:747-805 | bounding, unlike containment, is transitive across all dimensions |
| CubeOrder.CmpV0 | contrib/cube/cube.c:936-1014 | the loops compute the lexicographic comparison of the corners, common dimensions first |
| CubeOrder.CmpMeaning | contrib/cube/cube.c:936-1014 | the first difference decides: lower bounds of the common dimensions, their upper bounds, then both of the excess ones against zero, then the dimensions |
| CubeOrder.CmpZeroIffSame | contrib/cube/cube.c:936-1014 | boxes compare equal exactly when they are the same box, and swapping the arguments negates the result |
| CubeOrder.CmpCycle | contrib/cube/cube.c:936-1014 | any two different positive dimensions admit three boxes that compare in a circle |
| CubeOrder.TransitiveIff | contrib/cube/cube.c:936-1014 | the comparison is transitive on boxes of two dimensions exactly when these are equal or one is zero |
| CubeSearch.OverlapIffCommonPoint | contrib/cube/cube.c:1193-1229 | boxes overlap exactly when they share a point |
| CubeSearch.ContainsIffHolds | contrib/cube/cube.c:1123-1159 | one box contains another exactly when each point of the other lies in it in the dimensions that the other has |
| CubeSearch.SameIffSamePoints | contrib/cube/cube.c:936-1014 | boxes are the same exactly when they have the same dimension and the same points |
| CubeSearch.LeafConsistentExact | contrib/cube/cube.c:678-705 | the test on leaf entries answers what each operator asks about the points, for every strategy number |
| CubeSearch.InternalConsistentExact | contrib/cube/cube.c:706-732 | a page key passes for overlap and contained-by exactly when it shares a point with the query, for same and contains exactly when it holds the query |
| CubeSearch.ContainedByReachedIff | contrib/cube/cube.c:706-732 | a key above a contained box passes the contained-by test exactly when it meets the query in each dimension that the query has and the box lacks |
| CubeSearch.ContainedBySafeIff | contrib/cube/cube.c:706-732 | every key above a contained box passes exactly when the query holds zero in those dimensions, as when it has no more dimensions than the box |
| CubeSearch.ContainedByLosesBox | contrib/cube/cube.c:678-732 | a box and a query for which the page test fails although the box matches |
| CubeSearch.ConsistentReached | contrib/cube/cube.c:678-732 | whatever box matches, each key that bounds it passes, for overlap, same and contains always and for contained-by under that condition |
| CubeSearch.KeyBoundsLeaf | contrib/cube/cube.c:424-447 | a page's key bounds every box below it |
| CubeSearch.SearchExact | contrib/cube/cube.c:390-417 | search returns exactly the boxes that the operator asks for, told from their points, in order |
| CubeSearch.SearchExactUnlessContainedBy | contrib/cube/cube.c:390-417 | for every other operator this holds on every tree |
| CubeDistance.Distance1DIsGap | contrib/cube/cube.c:1502-1515 | the one-dimensional distance is the gap between the intervals |
| CubeDistance.DistanceTaxicab | contrib/cube/cube.c:1301-1343 | the sum of the gaps |
| CubeDistance.DistanceEuclidSquared | contrib/cube/cube.c:1252-1299 | the sum of the squared gaps |
| CubeDistance.DistanceChebyshev | contrib/cube/cube.c:1344-1395 | the largest gap |
| CubeDistance.DistanceSymmetric | contrib/cube/cube.c:1252-1395 | the distances do not depend on the order of the boxes |
| CubeDistance.DistanceIsLowerBound | contrib/cube/cube.c:1252-1395 | no two points of the boxes are nearer |
| CubeDistance.DistanceIsAttained | contrib/cube/cube.c:1252-1395 | some two points are that near |
| CubeDistance.KeyDistanceBelow | contrib/cube/cube.c:1397-1500 | a key's distance is at most that of every box it bounds, across mixed dimensions and for all three metrics |
| CubeDistance.NeverSkipsNearer | contrib/cube/cube.c:1397-1500 | so no subtree holds a box nearer than its key |
| CubeDistance.CoordMeaning | contrib/cube/cube.c:1643-1699 | odd coordinates are lower bounds, even ones upper bounds, negative ones their negations, zero beyond the dimensions |
| CubeDistance.CoordDistanceBelow | contrib/cube/cube.c:1397-1470 | coordinate zero is an error; on a leaf the distance is the operator's value and a key's distance is at most that of every box it bounds |
| CubeDistance.NeverSkipsLower | contrib/cube/cube.c:1397-1470 | so no subtree holds a box with a lower coordinate than its key's distance |
| CubeSplit.RtCubeSize | contrib/cube/cube.c:909-932 | the product of the side lengths, zero for points and for no dimensions |
| CubeSplit.PickSeeds | contrib/cube/cube.c:549-580 | the seeds are two different entries and no pair among all entries but the last wastes more |
| CubeSplit.WasteMeaning | contrib/cube/cube.c:549-580 | the waste of a pair is the extent of what is around both less that of what is in both, from their bounds |
| CubeSplit.DealIsDealt | contrib/cube/cube.c:607-647 | both lists increase strictly, each offset is on exactly one of them, and each seed on its own |
| CubeSplit.HullCovers | contrib/cube/cube.c:607-647 | the running box of a side is the least that bounds its members |
| CubeSplit.Place | contrib/cube/cube.c:617-646 | an entry other than the seeds goes to the side that grows less, ties to the right, and the side's box and size follow |
| CubeSplit.PlacedByGrowth | contrib/cube/cube.c:607-647 | told from the finished sides, an entry other than the seeds is on the left exactly when the least box around the left members before it grew less by it than that around the right ones |
| CubeSplit.PickSplit | contrib/cube/cube.c:510-655 | the offsets are partitioned into two non-empty increasing lists that, with their sentinels, fit the allocated slots, and each datum is the least box of its side |
| NbtreePages.LeftmostIgnoringHalfDead | contrib/amcheck/verify_nbtree.c:932-984 | on any graph the walk terminates, visits no block twice, and answers true exactly when a chain of half-dead pages linked back leads to the left edge |
| NbtreeCheck.Checker.RightPageScankey | contrib/amcheck/verify_nbtree.c:1657-1857 | on any graph, the key handed back is the first real item of the first sibling to the right that is rightmost or neither half-dead nor deleted; an error exactly when a page on the way cannot be read |
| NbtreeCheck.Checker.DownlinkMissingCheck | contrib/amcheck/verify_nbtree.c:2348-2514 | on any graph, a page without downlink is accepted exactly when it carries the root flag, follows an incomplete split, or first downlinks lead from it to a half-dead leaf whose top parent it is |
| NbtreeCheck.Checker.CrossBlock | contrib/amcheck/verify_nbtree.c:2003-2147 | one block on the way: it is on the level below, may lack a downlink if it is not the one sought, and is closed by the right key |
| NbtreeCheck.Checker.ChildHighkeyCheck | contrib/amcheck/verify_nbtree.c:1936-2168 | on any graph, accepted exactly when right links lead from the last child to the downlink, each page on the way may lack a downlink and is closed by the key at the pivot, and the child is closed by the next one; the first child is at the left edge |
| NbtreeCheck.Checker.ChildCheck | contrib/amcheck/verify_nbtree.c:2183-2333 | accepted exactly when the child can be read, is not deleted, and every real item of it is above the downlink's key |
| NbtreeCheck.Checker.ItemCheck | contrib/amcheck/verify_nbtree.c:1480-1611 | an item is within the high key, below the next item, and the last one below the right sibling's first |
| NbtreeCheck.Checker.TargetPageCheck | contrib/amcheck/verify_nbtree.c:1158-1639 | on any graph, a page is accepted exactly when its items are in order, each downlink is reached from the one before it, and on the rightmost page the child chain ends |
| NbtreeCheck.Checker.VisitPage | contrib/amcheck/verify_nbtree.c:726-911 | and it is placed right: level, left link, left edge, root flag, no link to itself; a half-dead page is passed over unless rightmost, a deleted one is an error |
| NbtreeCheck.Checker.CheckLevel | contrib/amcheck/verify_nbtree.c:699-924 | on any graph the walk accepts exactly the acceptable levels, hands down the first downlink of the first live page, and needs no interruption where there are no half-dead pages and, below, no incomplete splits and root flags |
| NbtreeRuns.MutualDistinct | contrib/amcheck/verify_nbtree.c:726-911 | pages linked both ways from a left edge are pairwise distinct |
| NbtreeSound.GoodIsAcceptable | contrib/amcheck/verify_nbtree.c:699-924 | every sound level without half-dead and deleted pages is accepted |
| NbtreeSound.LeafLevelExact | contrib/amcheck/verify_nbtree.c:699-924 | there an accepted leaf level is a sound one and the other way round |
| NbtreeSound.ChildChainWoven | contrib/amcheck/verify_nbtree.c:1936-2168 | on any graph, below an accepted internal level lies one row across the whole child level: the downlinks in order, and between them only half-dead and deleted pages and pages with an excuse for lacking a downlink, each closed by the key behind the last downlink up to it |
| NbtreeWoven.InternalLevelMeaning | contrib/amcheck/verify_nbtree.c:699-924 | on any graph, an internal level whose first downlinks are all there is accepted exactly when it is a doubly linked row of pages in order, children are not deleted and above their keys, and there is such a row of children |
| NbtreeMeaning.LeafLevelMeaning | contrib/amcheck/verify_nbtree.c:699-924 | on any graph, a leaf level is accepted exactly when each page is at its place and the live ones are in order, each within itself and with the next live one |
| NbtreeMeaning.LeadsToDeletionIff | contrib/amcheck/verify_nbtree.c:2404-2514 | the descent by first downlinks is a path of internal pages, each a level down, to a half-dead leaf that names its top |
| NbtreeMeaning.LackMeaning | contrib/amcheck/verify_nbtree.c:2348-2514 | a page may lack a downlink exactly when it carries a root flag, its left sibling is split half way, or there is such a path from it |
| NbtreeSound.GoodIffLinked | contrib/amcheck/verify_nbtree.c:1936-2168 | without incomplete splits an accepted internal level is sound exactly when no page of it has P_NONE as first downlink and every root-flagged page of the child chain has a downlink |
| NbtreeOrder.LeafLevelIncreasingIff | contrib/amcheck/verify_nbtree.c:1204-1611 | on any graph, the items of an accepted leaf level are one strictly increasing sequence exactly when, for any two live pages with items and only pages without items, a live one among them, between them, the last key of the first is below the first key of the second |
| NbtreeOrder.StepsOverHalfDead | contrib/amcheck/verify_nbtree.c:1706-1719 | on any graph, the check itself settles this for two live pages with only half-dead pages between them |
| NbtreeOrder.EmptyPageHidesDisorder | contrib/amcheck/verify_nbtree.c:1657-1857 | with an empty page in between an accepted level need not be in order |
| NbtreeOrder.DownlinksAreTheChildLevel | contrib/amcheck/verify_nbtree.c:1936-2168 | the downlinks of a sound level are exactly the pages that the walk over the level below visits |
| NbtreeOrder.ChildItemsWithinSeparators | contrib/amcheck/verify_nbtree.c:1613-1638 | each child item is above its downlink's key and at most at the next separator, below it on internal levels |
| NbtreeTree.CheckEveryLevel | contrib/amcheck/verify_nbtree.c:461-612 | from the root down, on any graph, the verifier accepts exactly when every level is acceptable from the page handed down and nothing is handed down at the end |
| NbtreeTree.TreeUnique | contrib/amcheck/verify_nbtree.c:461-612 | the pages visited in an accepted tree are determined by the root |
| NbtreeTree.TreeSoundIff | contrib/amcheck/verify_nbtree.c:461-612 | without half-dead and deleted pages and incomplete splits an accepted tree has sound levels down to the leaves, each the downlinks of the one above, exactly when no level hides a missing first downlink or an unlinked root-flagged page |
| NbtreeTree.SoundIsAcceptable | contrib/amcheck/verify_nbtree.c:461-612 | every sound tree is accepted |
| NbtreeHidden.MissingDownlinkHidesLeaves | contrib/amcheck/verify_nbtree.c:1975-1993 | an accepted tree of one internal page, without leaves |
| NbtreeHidden.RootFlagHidesLeaf | contrib/amcheck/verify_nbtree.c:2363-2365 | an accepted tree in which no downlink leads to a leaf that carries a root flag |
| NbtreeTree.AcceptedTreeIsSorted | contrib/amcheck/verify_nbtree.c:461-612 | on any graph, the leaf items of an accepted tree that has leaves are strictly increasing exactly when live leaves with only leaves without items, a live one among them, between them are in order |
| NbtreeTree.SoundTreeIsSorted | contrib/amcheck/verify_nbtree.c:461-612 | so are those of a sound tree, reached through the downlinks |
| HeapChains.CheckLinePointer | contrib/amcheck/verify_heapam.c:442-573 | validity and successor of a line pointer, and a report exactly for its fault |
| HeapChains.CheckSuccessor | contrib/amcheck/verify_heapam.c:580-744 | the predecessor array gains the first edge into the successor, and the reports are exactly the faults of the edge |
| HeapChains.CompareTuples | contrib/amcheck/verify_heapam.c:675-743 | the reports about flags and transaction states of an updated tuple and its successor |
| HeapChains.CheckRoots | contrib/amcheck/verify_heapam.c:746-776 | a report exactly for each live heap-only tuple without predecessor |
| HeapChains.CheckPage | contrib/amcheck/verify_heapam.c:442-776 | the reports of a page are exactly its faults, and the predecessor array holds the first edge into every line pointer |
| HeapLinks.EdgeIffLeads | contrib/amcheck/verify_heapam.c:580-673 | one line pointer leads to another exactly when it redirects to a tuple, or is a tuple whose ctid names another on the page that its updating transaction inserted |
| HeapLinks.SecondIsReported | contrib/amcheck/verify_heapam.c:627-673 | of several line pointers that lead to one place all but the first are reported, with the first |
| HeapLinks.FirstIsRecorded | contrib/amcheck/verify_heapam.c:627-673 | the first becomes the predecessor, and its target is not reported as a root |
| HeapLinks.RootIsReported | contrib/amcheck/verify_heapam.c:746-776 | a line pointer to which nothing leads has no predecessor and is reported exactly when it is a heap-only tuple whose inserter committed or is in progress |
| HeapLinks.RedirectTarget | contrib/amcheck/verify_heapam.c:627-642 | a redirect is reported exactly when its target is not heap-only |
| HeapLinks.UpdateEnds | contrib/amcheck/verify_heapam.c:675-743 | for the first update that leads to a tuple, each report about flags and transaction states is given exactly in its case |
| HeapLinks.OnlyLinksReported | contrib/amcheck/verify_heapam.c:580-776 | reports about links name redirects and updates, and two tuples are compared only where the update is the first to lead to its target |
| HeapLinks.CleanPage | contrib/amcheck/verify_heapam.c:442-776 | what holds of every link and every heap-only tuple of a page without reports |
| HeapLinks.BadPointerReported | contrib/amcheck/verify_heapam.c:442-573 | a line pointer in use is a tuple within the page or a redirect to one with storage, or draws exactly one report |
| HeapLinks.PrunedPageIsClean | contrib/amcheck/verify_heapam.c:627-642 | a page with a redirect to the only tuple left of a chain draws no report, and the redirect is its predecessor |
| HeapHot.ClashIffNotInjective | contrib/amcheck/verify_heapam.c:627-673 | that another offset also points there is reported exactly when two edges lead to one place |
| HeapHot.PredecessorIsInverse | contrib/amcheck/verify_heapam.c:580-673 | otherwise the predecessor array is the inverse of the edges |
| HeapHot.ChainsNeverMeet | contrib/amcheck/verify_heapam.c:627-673 | and chains from roots that share a line pointer are one chain up to it |
| HeapHot.RootOrCycle | contrib/amcheck/verify_heapam.c:580-673 | every line pointer is on a chain from a root or on a cycle |
| HeapHot.RootXorCycle | contrib/amcheck/verify_heapam.c:580-673 | without clashes it is on a chain from a root exactly when it is on no cycle |
| HeapHot.CycleUnreported | contrib/amcheck/verify_heapam.c:580-776 | two committed heap-only tuples that update each other draw no report |
| HeapHot.HeapOnlyHasPredecessor | contrib/amcheck/verify_heapam.c:746-776 | on a page without reports every live heap-only tuple has exactly one predecessor |
| HeapToast.CheckToastTuple | contrib/amcheck/verify_heapam.c:1457-1541 | the reports are exactly the faults of the chunk: no or an unexpected sequence number, no data, an invalid header, beyond the last chunk, or the wrong size |
| HeapToast.CheckToastedAttribute | contrib/amcheck/verify_heapam.c:1763-1814 | the reports are exactly the faults of the chunks, each against the number expected after those before it, and of the end; there are none exactly when the chunks are 0 .. last, in order, each with its size |
| HeapToast.WholeHasItsSize | contrib/amcheck/verify_heapam.c:1457-1541 | the chunks of an accepted value sum to its size, exactly for sizes of at least one |
| HeapToast.LastSizeRange | contrib/amcheck/verify_heapam.c:1533-1534 | the last chunk holds between one byte and a full chunk |
| HeapXid.WidenMeaning | contrib/amcheck/verify_heapam.c:1880-1917 | the wide id is normal, has the id as low word and lies within 2^31 of the next id unless clamped, which happens only in epoch zero |
| HeapXid.ClampedIffNone | contrib/amcheck/verify_heapam.c:1896-1911 | the id is clamped exactly when no wide id in that window has its low word |
| HeapXid.WidenUnique | contrib/amcheck/verify_heapam.c:1880-1917 | the wide id is the only one in the window with that low word |
| HeapXid.WidenInjective | contrib/amcheck/verify_heapam.c:1880-1917 | different ids widen differently unless clamped |
| HeapXid.WidenStable | contrib/amcheck/verify_heapam.c:2030-2043 | widening again after the counter advanced agrees exactly while the id is in the new window |
| HeapXid.ClassifyMeaning | contrib/amcheck/verify_heapam.c:2014-2082 | an id is within bounds exactly from both lower marks on and before the next id, and a fault is named after the first bound it misses |
| HeapXid.Context.GetXidStatus | contrib/amcheck/verify_heapam.c:2014-2082 | the bounds are classified against the cached range, refreshed exactly when the id is outside it, so nothing is called out of range against stale counters; a wanted status is given exactly within bounds |
| CandidateSelection.Selection.AddCandidate | scripts/evaluate_bound_candidate_oracle.py:682-693 | a candidate is added exactly when below the limit and new in idx and signature, and the sets follow |
| CandidateSelection.SelectBindingAware | scripts/evaluate_bound_candidate_oracle.py:672-727 | the passes per binding, per skeleton and by cost, as a function of the input |
| CandidateSelection.GroupByBinding | scripts/evaluate_bound_candidate_oracle.py:695-697 | the candidates grouped by binding in the order of first occurrence |
| CandidateSelection.Selection.Prefer | scripts/evaluate_bound_candidate_oracle.py:703-709 | the first candidate with a new skeleton, or else the first |
| CandidateSelection.ChosenGrows | scripts/evaluate_bound_candidate_oracle.py:672-727 | nothing preselected is dropped, every addition is new in idx and signature, the limit is kept, and below it every candidate repeats a chosen one |
| CandidateSelection.EveryBindingRepresented | scripts/evaluate_bound_candidate_oracle.py:699-710 | with room for one candidate of each binding every binding is represented |
| CandidateSelection.EverySkeletonRepresented | scripts/evaluate_bound_candidate_oracle.py:712-721 | with room for one of each skeleton besides, every skeleton is too |
| SelectionOrder.ChosenInOrder | scripts/evaluate_bound_candidate_oracle.py:672-727 | after the preselected members come, the cheapest binding first, for each binding its cheapest candidate with a new skeleton or else its cheapest, then in the order of cost the cheapest of skeletons, then each time the cheapest that repeats none before it |
| ProtectedSelection.FillIsFilled | scripts/evaluate_bound_candidate_oracle.py:748-766 | the same of the whole selection, and the cheapest and the cheapest merge-friendly candidate are represented when there is room |
| ProtectedSelection.OracleSelectionMeaning | scripts/evaluate_bound_candidate_oracle.py:730-766 | at most the limit is chosen, all of it from the candidates, and the first default is among it |
| SelectionOrder.OracleKeepsCheapest | scripts/evaluate_bound_candidate_oracle.py:730-766 | with room beside the default the cheapest other candidate is represented, and with room for one more the cheapest merge-friendly one |
| ProtectedSelection.SelectOracleCandidates | scripts/evaluate_bound_candidate_oracle.py:730-766 | the method computes that selection |
| ProtectedSelection.SelectCandidates | scripts/build_candidate_plan_dataset.py:407-452 | the default and the labelled candidate are kept, the limit holds unless these two exceed it, and only new plans are added until every candidate repeats one |
| OracleReport.CollectCandidates | scripts/evaluate_bound_candidate_oracle.py:495-508 | the candidates of all modes under consecutive idx, none marked as default |
| OracleReport.CandidateFacts | scripts/evaluate_bound_candidate_oracle.py:975-985 | idx are distinct and the only default is the collected one |
| OracleReport.PlannerMin | scripts/evaluate_bound_candidate_oracle.py:987 | the first of the cheapest candidates |
| OracleReport.PlannerMinMeaning | scripts/evaluate_bound_candidate_oracle.py:987-1005 | the planner time of a row is that of the cheapest candidate, the least idx among equals |
| OracleReport.BestTime | scripts/evaluate_bound_candidate_oracle.py:995-1028 | the least measured time among the chosen candidates, each measured at most once |
| OracleReport.EvaluateQuery | scripts/evaluate_bound_candidate_oracle.py:914-1035 | the row of a query, with every branch that skips or fails |
| OracleReport.EvaluatedMeaning | scripts/evaluate_bound_candidate_oracle.py:977-1035 | the best time is the least measured among at most the limit of the candidates, all of them without a limit, fewer only when every other candidate but a default repeats one |
| OracleReport.OracleNotWorse | scripts/evaluate_bound_candidate_oracle.py:977-1035 | whenever the default was timed and collected the query is eligible and the best time is not above the default's |
| OracleReport.Recompute | scripts/evaluate_bound_candidate_oracle.py:797-848 | each counter is the number of rows with its property |
| OracleReport.Report.constructor | scripts/evaluate_bound_candidate_oracle.py:881-912 | a report read back has the counters of its rows |
| OracleReport.Report.ProcessQuery | scripts/evaluate_bound_candidate_oracle.py:914-1064 | the row is appended and the running counters still equal a recomputation |
| OracleReport.SkipProcessed | scripts/evaluate_bound_candidate_oracle.py:883-891 | the files whose names are not among the completed rows, in order |
| OracleReport.RunQueries | scripts/evaluate_bound_candidate_oracle.py:881-1064 | the report holds the saved rows and then one row per remaining file |
| OracleReport.ResumeTransparentIff | scripts/evaluate_bound_candidate_oracle.py:881-912 | stopping and resuming gives the rows of an uninterrupted run exactly when every completed file has a name and no remaining one has the name of a completed one |

## Left out

- The buffer manager, write-ahead logging and memory contexts: each lock section is one atomic step, and an aborted page copy changes nothing.
- The free space map: it may hand out any blocks, in any order.
- All GiST penalty functions, the text, bit and numeric wrappers, multibyte prefixes, and the tables of per-type comparators: they add easy members only.
- Floating point: coordinates, costs and times are real numbers; NaN, infinities and rounding are not modelled, and the Euclidean distance is compared before its square root.
- The choice among equal elements by qsort: the splits of btree_gist sort stably here; only the order and the permutation are used.
- Parsing, printing and the remaining operators of cube, and the coordinate -2^31 whose negation does not fit 32 bits.
- Posting lists, tuple normalisation, the Bloom filter of heap tuples, root descent and the checks without the strong lock in verify_nbtree.c.
- Tuple headers, attributes, visibility and multixact ranges in verify_heapam.c: the status of each inserting transaction is part of the page.
- Running queries, reading and writing files and rendering plans in the scripts: what the database answers is an observation, and each key of a candidate is a number compared for equality.
- GistTree.SearchExactIff: pages are visited left to right; the queue of pages that GiST keeps and splits during a search are not modelled.
- BloomHistory.ScanFindsEveryRow: the row must not be deleted while the scan runs, as the heap guarantees for rows a scan can see.
- BloomSweep.VacuumMissesNothing: no row is inserted under a tuple id that a running vacuum is to remove, as the heap's own vacuum order ensures.
- NbtreeCheck.Checker.ChildCheck: a downlink to block 0 behind the first item counts as a page that cannot be read; the source would read the metapage there. Levels are natural numbers and do not wrap.
- NbtreeCheck.Checker.CheckLevel: interruption stands for the cancellation of a walk that does not end; the results about acceptance allow more page visits in one walk than the file has pages.
- NbtreeWoven.InternalLevelMeaning: no page of the level itself is half-dead, as internal pages never are, and no page lacks its first downlink; `NbtreeHidden` shows what such a page hides.
- HeapXid.WidenMeaning: the next id is below 2^64 - 2^31, where the 64-bit sum cannot wrap.
- CubeSplit.PickSplit: needs two entries or more, as GiST guarantees; with fewer the second seed would not exist.
- VarSplit.PickSplit: needs two entries or more, for the same reason.
- NumKeys.PickSplit: needs two entries or more, for the same reason.
