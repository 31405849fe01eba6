# Models of the stateful cores

This project models the algorithms of the repository whose correctness spans
several functions, and proves what they are for. Each module states a value-level
specification, proves the hard properties of it as lemmas, and proves the
imperative form (classes, arrays, loops) equal to it.

| file | models |
|---|---|
| `Common.dfy` | an option type and uniqueness of quotient and remainder |
| `Radix.dfy`, `RadixAdd.dfy`, `RadixRun.dfy`, `RadixHead.dfy` | the Patricia routing tree: search, match, insertion, whole runs, and the loops |
| `Sram.dfy` | the Blackfin L1 SRAM allocator |
| `Heap.dfy` | the cache-replacement heap with back-indices |
| `Md5.dfy` | MD5 streaming for any compression function |
| `Versions.dfy` | package version order and the package index built on it |
| `HashTable.dfy` | the chained hash table and its prefetching iterator |
| `Wcfxs.dfy` | the telephony driver's card-select cache, LED shadow and debouncers |
| `Des.dfy` | Feistel networks for any round function, and DES on bit blocks for every key schedule and salted expansion |
| `Base64.dfy`, `Base64Facts.dfy` | base64 encoding and decoding with their fixed buffers, and what the text is as a number |
| `Drand48.dfy` | the 48-bit generator on 16-bit limbs |

`dafny verify dfyconfig.toml` checks all of them.

## Conventions

- Radix keys are bit strings of one width `w`, counted from the head offset. A mask
  is a host mask (the null pointer) or a prefix length from 1 to `w`, and a route's
  key has no bit past its mask. For such masks the orders by index, by
  `squid_rn_refines` and by `rn_lexobetter` all compare prefix lengths, and interned
  masks are equal exactly when their lengths are. A path of the nodes passed on the
  way down stands in for `rn_p`; rebuilding along it stands in for relinking in
  place. `lifted` is "`rn_mklist` is not null" at a leaf. Search compares bytes
  first in the source; the first differing bit is the same.
- SRAM addresses are integers; the null result is `None`. The only wrap-around that
  matters, that of `size + 3`, is modelled and characterised exactly.
- Heap keys are reals; slot numbers stand for nodes in runs of operations, and the
  class version works on the nodes themselves.
- `longMax` in the version order is the largest `long`, since the comparison narrows
  a `long` difference to an `int` and its correctness depends on the width.
- A traversal of the hash table is a sequence of `Next` and `Remove` events.
- Register reads in the driver are arbitrary inputs.

## Model

| member | source | states |
|---|---|---|
| `Radix.SearchIsClosest` | squid-2.7.STABLE9/lib/radix.c:187-200 | search ends at a leaf whose common prefix with the key is the longest of all leaves |
| `Radix.ClimbIsLongest` | squid-2.7.STABLE9/lib/radix.c:354-380 | climbing over the lifted mask lists finds the longest net below a node that covers the key, or nothing when none does |
| `Radix.MatchIsLongest` | squid-2.7.STABLE9/lib/radix.c:283-381 | in every valid tree match returns exactly the route with the longest mask that covers the key, and nothing when none does; it returns a sentinel exactly for a sentinel key under which no route is stored |
| `RadixAdd.InitValid` | squid-2.7.STABLE9/lib/radix.c:954-982 | the initial tree satisfies the Patricia invariant and stores no route |
| `RadixAdd.PromoteLeaf` | squid-2.7.STABLE9/lib/radix.c:680-686 | a new node above a leaf takes exactly the routes its bit now governs, longest first, and the leaf stays tidy under it |
| `RadixAdd.PromoteNode` | squid-2.7.STABLE9/lib/radix.c:687-696 | splitting a node's mask list at a new bit leaves both lists exactly right |
| `RadixAdd.ForkOk` | squid-2.7.STABLE9/lib/radix.c:446-475 | the new pair keeps the invariant: old keys on one side, the new key on the other, masks listed where they belong |
| `RadixAdd.DuplicateOk` | squid-2.7.STABLE9/lib/radix.c:615-663 | a further mask under a stored key keeps the chain sorted, most specific first, and adds exactly that route |
| `RadixAdd.AddOk` | squid-2.7.STABLE9/lib/radix.c:412-476 | every insertion keeps bits increasing downwards, leaves agreeing on earlier bits, zero left and one right, each mask on the highest node it governs, and adds exactly its key and route |
| `RadixAdd.AddRouteOk` | squid-2.7.STABLE9/lib/radix.c:586-736 | an addition is refused exactly when the route is stored already or is a host route for a sentinel key; otherwise the tree stays valid and gains exactly that route |
| `RadixRun.Build` | squid-2.7.STABLE9/lib/radix.c:586-736 | after any sequence of additions the tree is valid and stores exactly the acceptable routes added |
| `RadixRun.ScanIsLongest` | squid-2.7.STABLE9/lib/radix.c:163-185 | the reference, a linear scan over all additions, finds the longest covering route |
| `RadixRun.MatchIsScan` | squid-2.7.STABLE9/lib/radix.c:283-381 | for every run of additions and every key but the two sentinels, match equals the linear scan over everything added |
| `RadixRun.MatchMeans` | squid-2.7.STABLE9/lib/radix.c:163-185 | in terms of keys and prefix lengths alone: the answer is a route added whose prefix holds the key and which is more specific than every other such route; no answer means that there is none |
| `RadixRun.OrderIrrelevant` | squid-2.7.STABLE9/lib/radix.c:586-736 | runs that store the same routes answer every lookup alike, whatever their order and repetitions |
| `RadixHead.Descend` | squid-2.7.STABLE9/lib/radix.c:187-200 | the descent loop follows the path of the tested bits to a leaf or to the first node at bit d or later |
| `RadixHead.ClimbUp` | squid-2.7.STABLE9/lib/radix.c:354-380 | the climbing loop returns what climbing a path means |
| `RadixHead.ClimbIsPath` | squid-2.7.STABLE9/lib/radix.c:354-380 | climbing the recorded path is climbing the tree |
| `RadixHead.RelistAt` | squid-2.7.STABLE9/lib/radix.c:697-705 | on a path with ascending bits only the highest node whose bit the mask does not pass has its list changed |
| `RadixHead.AddIsPlug` | squid-2.7.STABLE9/lib/radix.c:446-475 | an insertion is a change at the end of the path and of the lists along it |
| `RadixHead.NewPair` | squid-2.7.STABLE9/lib/radix.c:390-409 | the new node, its leaf and the promoted masks are those of the specification |
| `RadixHead.Attach` | squid-2.7.STABLE9/lib/radix.c:586-736 | the loops of insertion compute the specified addition, or find it refused |
| `RadixHead.Head.constructor` | squid-2.7.STABLE9/lib/radix.c:954-982 | a new head holds the tree of the empty run |
| `RadixHead.Head.Lookup` | squid-2.7.STABLE9/lib/radix.c:283-381 | returns what match means, hence what a linear scan over everything ever added finds for a non-sentinel key |
| `RadixHead.Head.Add` | squid-2.7.STABLE9/lib/radix.c:586-736 | succeeds exactly for acceptable routes not added before, keeps the tree that of the run so far, and changes nothing when it fails |
| `Sram.AlignUpExact` | src/blackfin_sram.c:149-150 | rounding up to 4 gives at least the size exactly when size + 3 does not wrap, and 0 otherwise |
| `Sram.InitInv` | src/blackfin_sram.c:97-106 | initialisation establishes tiling, coalescing and the absence of stale addresses below live slots |
| `Sram.AllocCorrect` | src/blackfin_sram.c:141-182 | allocation fails exactly when the size is 0 or no FREE piece holds the rounded size, and then changes nothing; else it takes the first FREE piece that holds it, larger than asked only without a NULL slot, leaves all other allocations alone and keeps the invariant |
| `Sram.AllocKeepsInvIff` | src/blackfin_sram.c:141-182 | the invariant survives an allocation exactly when size + 3 does not wrap, or nothing is FREE, or no NULL slot is left |
| `Sram.WrappedAllocExample` | src/blackfin_sram.c:149-150 | the largest size breaks the invariant of a fresh table of sixteen bytes and two slots |
| `Sram.AllocationsDisjoint` | src/blackfin_sram.c:141-182 | no byte of an allocated block belongs to any other live piece |
| `Sram.AllocMaxCorrect` | src/blackfin_sram.c:185-207 | takes the first whole FREE piece of greatest size and fails exactly when nothing is FREE |
| `Sram.FirstAtIsOwner` | src/blackfin_sram.c:217-226 | the first slot with the address of an allocated block is that block's own, despite stale addresses |
| `Sram.ReleaseCorrect` | src/blackfin_sram.c:210-256 | free succeeds exactly on addresses handed out, ends that allocation alone, and otherwise returns -1 and changes nothing; the invariant is kept |
| `Sram.ReleaseFreesBlock` | src/blackfin_sram.c:230-253 | the bytes that become free are exactly those of the block |
| `Sram.AllocReleaseRoundTrip` | src/blackfin_sram.c:141-256 | freeing a block right after its allocation restores the set of live pieces, with or without a NULL slot to split into |
| `Sram.RunInv` | src/blackfin_sram.c:141-256 | the invariant holds in every state reachable by alloc, alloc_max and free |
| `Sram.RunThenAllFreeIsWhole` | src/blackfin_sram.c:141-256 | after any run that leaves nothing allocated, one FREE piece spans the whole region |
| `Sram.SramInit` | src/blackfin_sram.c:97-106 | the table in place is the specified initial one |
| `Sram.SramAlloc` | src/blackfin_sram.c:141-182 | the loops in place compute the specified allocation |
| `Sram.SramAllocMax` | src/blackfin_sram.c:185-207 | the loop in place takes the specified piece |
| `Sram.SramFree` | src/blackfin_sram.c:210-256 | the loops in place compute the specified release |
| `HeapOrder.SiftUpOrders` | squid-2.7.STABLE9/lib/heap.c:389-401 | sifting up restores the order where one slot may be too small |
| `HeapOrder.SiftDownOrders` | squid-2.7.STABLE9/lib/heap.c:355-383 | sifting down restores the order where one slot may be too large |
| `HeapOrder.InsertCorrect` | squid-2.7.STABLE9/lib/heap.c:143-163 | insertion keeps the order and adds exactly the new entry |
| `HeapOrder.DeleteCorrect` | squid-2.7.STABLE9/lib/heap.c:169-198 | deletion anywhere keeps the order and removes exactly that entry |
| `HeapOrder.UpdateCorrect` | squid-2.7.STABLE9/lib/heap.c:258-272 | update anywhere keeps the order and replaces exactly that entry |
| `HeapOrder.UpdateIsDeleteInsert` | squid-2.7.STABLE9/lib/heap.c:252-272 | update leaves the same entries as delete followed by insert |
| `HeapOrder.RootIsLeast` | squid-2.7.STABLE9/lib/heap.c:216-232 | no key is below the root's |
| `HeapOrder.RunOrders` | squid-2.7.STABLE9/lib/heap.c:143-272 | the order holds after any run of insert, delete, update and extractlast |
| `HeapOrder.DrainSorts` | squid-2.7.STABLE9/lib/heap.c:216-232 | draining by extractmin yields a nondecreasing permutation of the contents |
| `CacheHeap.Heap.SwapElement` | squid-2.7.STABLE9/lib/heap.c:406-414 | entries are swapped and every node still knows its slot |
| `CacheHeap.Heap.IfyUp` | squid-2.7.STABLE9/lib/heap.c:389-401 | the loop computes the specified sift and keeps position agreement |
| `CacheHeap.Heap.IfyDown` | squid-2.7.STABLE9/lib/heap.c:355-383 | the loop computes the specified sift and keeps position agreement |
| `CacheHeap.Heap.Grow` | squid-2.7.STABLE9/lib/heap.c:447-465 | growth doubles the array, or adds half from 10000 slots on, and changes no entry and no position |
| `CacheHeap.Heap.HeapInsert` | squid-2.7.STABLE9/lib/heap.c:143-163 | a new node joins, the entries are those of the specified insertion, and order is kept |
| `CacheHeap.Heap.HeapDelete` | squid-2.7.STABLE9/lib/heap.c:169-198 | exactly that node leaves, the entries are those of the specified deletion, and order is kept |
| `CacheHeap.Heap.HeapUpdate` | squid-2.7.STABLE9/lib/heap.c:258-272 | the node gets its new key and data, the entries are those of the specified update, and order is kept |
| `CacheHeap.Heap.ExtractMin` | squid-2.7.STABLE9/lib/heap.c:216-232 | removes the root's node and returns its data, or nothing from an empty heap; of an ordered heap it is a node of least key, and order is kept |
| `CacheHeap.Heap.ExtractLast` | squid-2.7.STABLE9/lib/heap.c:239-250 | removes the node in the last slot and nothing else, and order is kept |
| `CacheHeap.Heap.VerifyHeapProperty` | squid-2.7.STABLE9/lib/heap.c:498-518 | reports correct exactly when the order holds |
| `CacheHeap.DrainAll` | squid-2.7.STABLE9/lib/heap.c:216-232 | extracting until empty returns the data of the specified drain |
| `Md5.FoldAppend` | squid-2.7.STABLE9/lib/md5.c:109-122 | transforming blocks in two portions is transforming them in one |
| `Md5.FoldBlock` | squid-2.7.STABLE9/lib/md5.c:109-119 | each further block is transformed into the state reached before it |
| `Md5.CountAdd` | squid-2.7.STABLE9/lib/md5.c:94-98 | the two-word count with its carry is the message length modulo 2^64 |
| `Md5.CountBits` | squid-2.7.STABLE9/lib/md5.c:151-153 | the two shifted words are the bit count, low-order word first, modulo 2^64 |
| `Md5.PadCut` | squid-2.7.STABLE9/lib/md5.c:132-150 | the padded message ends in one block or two, as the room after the marker demands |
| `Md5.PadIs` | squid-2.7.STABLE9/lib/md5.c:130-153 | bit by bit, the padding is a single 1, as few 0 bits as bring the length to 448 modulo 512, and the length in bits modulo 2^64, low-order word first |
| `Md5.InitialBytes` | squid-2.7.STABLE9/lib/md5.c:72-78 | the initial state is the sixteen bytes that RFC 1321 lists in section 3.3 |
| `Md5.DigestIs` | squid-2.7.STABLE9/lib/md5.c:156-157 | the digest is sixteen bytes that read as the words of the final state, in order |
| `Md5.WordBytesInvertWords` | squid-2.7.STABLE9/lib/md5.c:53-63 | reading the little-endian bytes of a word gives the word |
| `Md5.Context.constructor` | squid-2.7.STABLE9/lib/md5.c:72-82 | a new context has absorbed the empty message |
| `Md5.Context.Update` | squid-2.7.STABLE9/lib/md5.c:88-123 | the message absorbed grows by exactly the data, whatever the fill of the buffer |
| `Md5.Context.Final` | squid-2.7.STABLE9/lib/md5.c:129-159 | the digest is that of RFC 1321 over everything absorbed |
| `Md5.HashPieces` | squid-2.7.STABLE9/lib/md5.c:72-159 | for every way of cutting a message into updates, the digest is that of the concatenation |
| `Versions.CompareStrings` | scripts/ipkg-utils/ipkg-compare-versions.c:37-74 | the nested loops terminate and return the specified comparison |
| `Versions.LexText` | scripts/ipkg-utils/ipkg-compare-versions.c:49-56 | non-digit parts compare as lists of ranks closed by 0, letters first |
| `Versions.TextsPart` | scripts/ipkg-utils/ipkg-compare-versions.c:49-56 | where two texts part, a letter sorts before any other character, and within the letters and within the others the code decides |
| `Versions.TextEnds` | scripts/ipkg-utils/ipkg-compare-versions.c:49-56 | the end of a text sorts before anything that could follow |
| `Versions.TextsDecide` | scripts/ipkg-utils/ipkg-compare-versions.c:47-56 | different texts before the first digit decide at once |
| `Versions.DigitsAre` | scripts/ipkg-utils/ipkg-compare-versions.c:47-48 | the digits and their values are the usual ones |
| `Versions.NumeralsPart` | scripts/ipkg-utils/ipkg-compare-versions.c:59-60 | of two numerals of one length the first difference decides |
| `Versions.LeadingZero` | scripts/ipkg-utils/ipkg-compare-versions.c:59-60 | leading zeros do not count |
| `Versions.NumbersDecide` | scripts/ipkg-utils/ipkg-compare-versions.c:59-61 | after equal texts the smaller number comes first, whatever follows |
| `Versions.FollowersDecide` | scripts/ipkg-utils/ipkg-compare-versions.c:63-72 | after equal texts and numbers the end comes first, then a dot or hyphen, then anything else; where both go on alike the rest decides |
| `Versions.KeyRound` | scripts/ipkg-utils/ipkg-compare-versions.c:46-73 | the reference order decides one round by text, number and separator, the end of the string first |
| `Versions.OrdersRightIfFits` | scripts/ipkg-utils/ipkg-compare-versions.c:37-74 | with numbers up to INT_MAX the sign of the comparison is that of the lexicographic reference order |
| `Versions.OrdersRightIffFits` | scripts/ipkg-utils/ipkg-compare-versions.c:59-61 | a string is ordered rightly against every fitting string exactly when its own numbers fit |
| `Versions.NarrowLongAlwaysFits` | scripts/ipkg-utils/ipkg-compare-versions.c:59-61 | with a 32-bit long every string fits, by saturation |
| `Versions.WideLongBreaksAntisymmetry` | scripts/ipkg-utils/ipkg-compare-versions.c:61 | with a wider long, numbers 2^31 apart are each below the other |
| `Versions.RoundsPreorder` | scripts/ipkg-utils/ipkg-compare-versions.c:37-74 | the comparison is reflexive, sign-antisymmetric and transitive on fitting versions |
| `Versions.VersionPreorder` | scripts/ipkg-utils/ipkg-compare-versions.c:76-89 | with epochs it still is a total preorder |
| `Versions.EpochsFirst` | scripts/ipkg-utils/ipkg-compare-versions.c:76-89 | the higher epoch wins, and within an epoch the reference order of the strings |
| `Versions.OperatorsMean` | scripts/ipkg-utils/ipkg-compare-versions.c:91-110 | what each operator says in the reference order: `<` and `>` admit equality, `<<` and `>>` do not, and any other operator is unknown |
| `PackageIndex.KeepsLastOfNewest` | scripts/ipkg-utils/ipkg.py:336-347 | for any command that decides a preorder with >=, the index keeps the last of the newest under each name |
| `PackageIndex.CommandDecides` | scripts/ipkg-utils/ipkg-compare-versions.c:91-102 | the command with `>` decides r >= 0 of a total preorder |
| `PackageIndex.NamesDiffer` | scripts/ipkg-utils/ipkg.py:337-339 | packages whose names have no colon share an entry exactly when name and architecture agree |
| `PackageIndex.ColonsConfuse` | scripts/ipkg-utils/ipkg.py:337-339 | with a colon in a name, different packages share one |
| `PackageIndex.IndexKeepsLastOfNewest` | scripts/ipkg-utils/ipkg.py:336-347 | after any additions there is an entry for exactly the names added, at least as new as all under it and the last added of the newest |
| `PackageIndex.OrderOfAddingIrrelevant` | scripts/ipkg-utils/ipkg.py:336-347 | the same packages in another order keep equally new entries |
| `PackageIndex.UnparsableSticks` | scripts/ipkg-utils/ipkg.py:340-343 | an entry whose version does not parse is never replaced |
| `PackageIndex.Packages.AddPackage` | scripts/ipkg-utils/ipkg.py:336-347 | the dictionary is the index of the whole history, and the status says whether the package was stored |
| `Traversal.AtMostOnce` | squid-2.7.STABLE9/lib/hash.c:210-236 | over any events nothing is returned twice and nothing that was not there at the start |
| `Traversal.NeverAfterRemoval` | squid-2.7.STABLE9/lib/hash.c:258-278 | nothing is returned after its removal |
| `Traversal.ExactlyTheUnremoved` | squid-2.7.STABLE9/lib/hash.c:199-278 | an exhausted traversal returned exactly the items that were not removed before their turn |
| `HashTable.FlatRemove` | squid-2.7.STABLE9/lib/hash.c:258-278 | taking a link out of its chain takes it out of the traversal order |
| `HashTable.RestRemove` | squid-2.7.STABLE9/lib/hash.c:258-278 | and out of what a traversal in progress still has to return |
| `HashTable.AllDistinct` | squid-2.7.STABLE9/lib/hash.c:166-176 | a table holds no link twice |
| `HashTable.Table.constructor` | squid-2.7.STABLE9/lib/hash.c:143-161 | a new table is empty and not being traversed |
| `HashTable.Table.Join` | squid-2.7.STABLE9/lib/hash.c:166-176 | the link becomes the first of its bucket; what a traversal still has to return stays as it was, but for the new link, which is among it exactly when its bucket has not been reached |
| `HashTable.Table.Lookup` | squid-2.7.STABLE9/lib/hash.c:181-197 | finds the first link of the bucket with the key, and nothing exactly when no link has it |
| `HashTable.Table.NextBucket` | squid-2.7.STABLE9/lib/hash.c:199-205 | moves to the next non-empty bucket, skipping nothing |
| `HashTable.Table.First` | squid-2.7.STABLE9/lib/hash.c:210-220 | the whole table is still to be returned |
| `HashTable.Table.Next` | squid-2.7.STABLE9/lib/hash.c:226-236 | returns the first of what remains and leaves the rest |
| `HashTable.Table.RemoveLink` | squid-2.7.STABLE9/lib/hash.c:258-278 | takes the link, the prefetched one included, out of the table and of what remains, and nothing else |
| `HashTable.Traverse` | squid-2.7.STABLE9/lib/hash.c:199-278 | a traversal with removals between its steps returns what the event specification says |
| `CardSelect.CodesDistinct` | src/wcfxs.c:567-590 | no two cards and no LED latch share a mux code |
| `CardSelect.CodesReach` | src/wcfxs.c:567-590 | each code connects the card or latch that it is meant for: two boards, lines 1 to 4 for cards and 5 for the latch |
| `CardSelect.BytesUnderstood` | src/wcfxs.c:592-638 | a module of either type makes of the bytes sent exactly the write or read of that register |
| `CardSelect.ByteOfPorts` | src/fx.c:52-66 | a latch byte is its four ports side by side, two bits each, port 1 lowest |
| `CardSelect.PortPlaces` | src/fx.c:68-89 | ports 1 to 8 are the four places of each board in turn, as are the cards |
| `CardSelect.SetPortExact` | src/fx.c:93-94 | a LED update changes only the addressed port's two bits |
| `CardSelect.SafeMeans` | src/wcfxs.c:567-590 | on a safe bus the last mux write before any byte connects exactly the card or latch that the byte is for |
| `CardSelect.Driver.SetCard` | src/wcfxs.c:567-590 | the mux selects the card, written only when the cache does not name it |
| `CardSelect.Driver.SetReg` | src/wcfxs.c:592-606 | the bytes of a register write all reach the card |
| `CardSelect.Driver.GetReg` | src/wcfxs.c:625-638 | the bytes of a register read all reach the card |
| `CardSelect.Driver.SetLed` | src/fx.c:68-101 | one port's colour changes, the latch is selected for the byte, and the cache is dropped (src/wcfxs.c, lines 616 to 623) |
| `CardSelect.CacheIsInvisible` | src/wcfxs.c:567-658 | whatever the cache held, the traffic without the mux writes is exactly the requested data, in order |
| `CardSelect.LedsShowLast` | src/fx.c:68-101 | after any operations each port of the shadow shows the last colour asked for |
| `CardSelect.Driver.Run` | src/wcfxs.c:567-658 | over any interleaving the bus carries exactly the requested operations in order, every byte reaches its addressee, and the cache is empty or right |
| `HookDetect.FxsRunExact` | src/wcfxs.c:923-963 | the debouncer's registers are functions of the readings alone, and its counter stays between 0 and 256 |
| `HookDetect.FxsSignalExact` | src/wcfxs.c:923-963 | a signal is sent exactly when the stable value changes, which takes nine equal consecutive readings |
| `HookDetect.FxsAlternates` | src/wcfxs.c:923-963 | over any readings the signals strictly alternate, off-hook first |
| `HookDetect.FxsPort.CheckHook` | src/wcfxs.c:923-963 | one poll in place takes the specified step |
| `HookDetect.BatteryRunExact` | src/wcfxs.c:843-906 | battery is lost at the 32nd consecutive low reading and regained at the 32nd strong one, at the first one from reset; the counter stays in range |
| `HookDetect.BatterySignalExact` | src/wcfxs.c:843-906 | loss and regain are signalled exactly at those readings |
| `HookDetect.LineRunExact` | src/wcfxs.c:887-921 | the line's registers are functions of the voltages: the sign last seen, the sign last seen for 64 polls, and the polls left until then |
| `HookDetect.LineSignalExact` | src/wcfxs.c:907-921 | a polarity reversal is signalled exactly when the reported sign changes from one that was known |
| `HookDetect.RingCounterExact` | src/wcfxs.c:800-838 | the leaky counter stays between 0 and 512 and is at least v exactly when some tail of the readings, 64 for ringing and -8 for silence, lifts it there |
| `HookDetect.RingRunExact` | src/wcfxs.c:800-838 | the line counts as ringing from when the readings fill the counter until they have emptied it |
| `HookDetect.RingSignalExact` | src/wcfxs.c:800-838 | ringing and its end are signalled exactly when that changes |
| `HookDetect.RingAlternates` | src/wcfxs.c:800-838 | over any readings the ring signals strictly alternate, ring first |
| `HookDetect.FxoRunExact` | src/wcfxs.c:792-921 | over any polls ringing, battery and polarity follow their references and all counters stay in range |
| `HookDetect.FxoSignalExact` | src/wcfxs.c:792-921 | the signals of any poll are exactly the changes of the three references, in the order ring, battery, polarity |
| `HookDetect.FxoPort.CheckHook` | src/wcfxs.c:792-921 | one poll in place takes the specified step |
| `Feistel.RoundInverse` | squid-2.7.STABLE9/lib/encrypt.c:167-190 | a round of any Feistel network undoes itself on swapped halves |
| `Feistel.RoundsInverse` | squid-2.7.STABLE9/lib/encrypt.c:192-215 | for any round function, any number of rounds is undone by the rounds with the keys reversed |
| `Des.TablesRegular` | squid-2.7.STABLE9/lib/encrypt.c:56-79 | the two permutation tables follow their closed forms |
| `Des.PermsCancel` | squid-2.7.STABLE9/lib/encrypt.c:56-79 | initial after final permutation is exactly an exchange of the halves, and the final one undoes it |
| `Des.ReversedKeysUndo` | squid-2.7.STABLE9/lib/encrypt.c:192-215 | between the two permutations any Feistel network is undone by itself with the keys reversed |
| `Des.DecryptUndoesEncrypt` | squid-2.7.STABLE9/lib/encrypt.c:192-215 | decryption undoes encryption and the other way round, for every block, key schedule and expansion |
| `Des.PermInto` | squid-2.7.STABLE9/lib/encrypt.c:157-165 | the loop permutes by the table |
| `SelectionFunctions.RowsPermute` | squid-2.7.STABLE9/lib/encrypt.c:105-155 | in every S-box each row is a permutation of the sixteen values |
| `SelectionFunctions.ChangesSpread` | squid-2.7.STABLE9/lib/encrypt.c:105-155 | in every S-box a change of one input bit, or of the middle two, changes at least two output bits |
| `Des.InputIs` | squid-2.7.STABLE9/lib/encrypt.c:179-180 | what an S-box reads is the number whose binary digits are the six expanded bits mixed with the key |
| `Des.Bits4Are` | squid-2.7.STABLE9/lib/encrypt.c:182-183 | the four output bits, the first worth 8, are the S-box's value |
| `Des.SubstitutedAre` | squid-2.7.STABLE9/lib/encrypt.c:178-185 | the outputs stand in the order of the boxes |
| `Des.ScrambledBit` | squid-2.7.STABLE9/lib/encrypt.c:187-189 | each bit of the round function is the bit of the S-box that the permutation table names |
| `Des.PermInjective` | squid-2.7.STABLE9/lib/encrypt.c:96-102 | the table of the round function repeats no place |
| `Des.PermSurjective` | squid-2.7.STABLE9/lib/encrypt.c:96-102 | and leaves none out |
| `Des.PermMixes` | squid-2.7.STABLE9/lib/encrypt.c:96-102 | four neighbouring bits come from four different S-boxes |
| `Des.InitialBit` | squid-2.7.STABLE9/lib/encrypt.c:56-66 | which bit of the block each bit of the permuted block is |
| `Des.EncryptedIs` | squid-2.7.STABLE9/lib/encrypt.c:192-215 | given the sixteen pairs of halves of FIPS 46-3, with the keys from the first or from the last, the result permuted initially is the last pair exchanged |
| `Des.CryptMain` | squid-2.7.STABLE9/lib/encrypt.c:167-190 | one half is xored with the round function of the other, which stays |
| `Des.Encrypt` | squid-2.7.STABLE9/lib/encrypt.c:192-215 | the block in place becomes the specified encryption or decryption |
| `Base64.CodeValue` | squid-2.7.STABLE9/lib/base64.c:25-38 | every alphabet character has the value it stands for |
| `Base64.ValueCode` | squid-2.7.STABLE9/lib/base64.c:25-38 | every character with a value but the padding is the one that stands for it |
| `Base64Facts.AlphabetSpelled` | squid-2.7.STABLE9/lib/base64.c:22 | the alphabet and the padding character are those of RFC 4648 |
| `Base64.GroupDecodes` | squid-2.7.STABLE9/lib/base64.c:117-160 | one to three bytes, padded, decode to themselves and zeros up to three |
| `Base64.RoundTrip` | squid-2.7.STABLE9/lib/base64.c:40-68 | decoding an encoding gives the bytes and only zeros up to a multiple of three, for every length |
| `Base64Facts.TextIsNumber` | squid-2.7.STABLE9/lib/base64.c:117-160 | the text read to base 64 is the bytes, filled up with zeros, read to base 256 |
| `Base64Facts.DecodingKeepsNumber` | squid-2.7.STABLE9/lib/base64.c:52-65 | decoding whole quanta keeps the number |
| `Base64Facts.EncodingShape` | squid-2.7.STABLE9/lib/base64.c:131-157 | four characters for every three bytes begun, all of them read |
| `Base64Facts.PaddingAtEnd` | squid-2.7.STABLE9/lib/base64.c:146-157 | the padding is at the end, one character for each missing byte, and nowhere else |
| `Base64.JunkIgnored` | squid-2.7.STABLE9/lib/base64.c:47-52 | characters outside the alphabet other than NUL and the padding change nothing, anywhere |
| `Base64.Init` | squid-2.7.STABLE9/lib/base64.c:25-38 | the table in place holds the value of every character |
| `Base64.EncodeBin` | squid-2.7.STABLE9/lib/base64.c:117-160 | the buffer holds the encoding of as much as fits, terminated, with all indices inside |
| `Base64.Decode` | squid-2.7.STABLE9/lib/base64.c:40-68 | the buffer holds the decoding of as much as fits, terminated, with all indices inside |
| `Base64.Transfer` | squid-2.7.STABLE9/lib/base64.c:117-160 | up to 6141 bytes survive both buffers, followed only by zeros up to a multiple of three |
| `Drand48.LimbStep` | squid-2.7.STABLE9/lib/drand48.c:40-55 | multiplication on limbs, carry by carry, is the recurrence modulo 2^48 |
| `Drand48.FirstState` | squid-2.7.STABLE9/lib/drand48.c:17-28 | the state after the initial one |
| `Drand48.MulExact` | squid-2.7.STABLE9/lib/drand48.c:13-14 | the two halves taken from a product of limbs are right whatever the width of a long, wrapped or not |
| `Drand48.Generator.Next` | squid-2.7.STABLE9/lib/drand48.c:40-55 | with a long of 32 bits or more, one step computes 0x5DEECE66D * X + 0xB modulo 2^48 |
| `Drand48.ScalingExact` | squid-2.7.STABLE9/lib/drand48.c:35-37 | every intermediate result of the scaling has at most 53 bits, so no operation on doubles rounds |
| `Drand48.Generator.Draw` | squid-2.7.STABLE9/lib/drand48.c:32-38 | the value is exactly the new state over 2^48, from 0 up to but not 1 |
| `Drand48.Generator.Advance` | squid-2.7.STABLE9/lib/drand48.c:40-55 | any number of steps follows the recurrence |

## Left out

- Radix deletion, the tree walk, all-zero masks and masks with holes, and the interning of masks in the mask tree.
- RadixAdd.AddRouteOk: routes with all-zero masks or masks with holes are not modelled.
- RadixRun.Build: runs with such masks are not modelled.
- RadixHead.Head.Add: such masks are not modelled; the tree is a value that is rebuilt along a recorded path, so relinking nodes in place and their aliasing are not modelled.
- Failure of memory allocation, everywhere.
- The message for a non-unique normal route in the radix tree: the sorted insertion leaves the list alone there, and the invariant shows that it never happens.
- Process ids, locks, `/proc` output and the choice between memory banks in the SRAM allocator; one bank is modelled.
- The 64-step MD5 transform: every compression function is allowed instead, and pieces are shorter than 2^32 bytes, as the type of the length demands.
- The clearing of the MD5 context after the digest: only the first word of the state is modelled as cleared.
- Parsing of version strings into epoch and rest, null pointers for missing strings, and characters above ASCII.
- The floating-point heap keys: reals are used, so neither rounding nor NaN is modelled; `heap_peep` and the printing functions.
- Hash functions (the bucket is any function of the key), links with a null key, removal of links that are not in the table (an assertion in the source), and `hash_last`.
- The LED writes and the re-initialisation that hook detection triggers, and the card probing at start-up.
- The DES key schedule, the salting of the expansion table and `crypt`; every schedule and table is allowed instead. The selection functions are written in the notation of FIPS 46-3 rather than as flat tables.
- `base64_encode` for C strings, which repeats `base64_encode_bin` with a terminator.
- Drand48: a product that overflows a 32-bit `long` is taken to wrap, which the language leaves undefined.
- The regular-expression compiler, the codecs, the database bindings and the other drivers of the repository.
