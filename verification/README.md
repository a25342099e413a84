# Mungi allocators, tables and names

Mungi is an operating system with one address space for all objects. This project models the parts of it that are
algorithms of their own, and proves what they are for:

* the object index, a B+ tree of disjoint address ranges, on heap pages (`IndexTree`, `IndexInsert`, `IndexDelete`,
  `ObjectIndex` on values; `SplitAsWritten`, `InsertAsWritten`, `SearchAsWritten`, `SplitReached` for the code to
  the letter; `BTreePages`, `BTreeFamilies`, `BTreeInsert`, `BTreeDelete`, `BTree` on pages);
* object space and the life of objects (`FreeList`, `FreeListCases`, `FreeListHeap`, `ObjectLifecycle`,
  `ObjectTables`), and the procedure tables of objects (`PdxTable`);
* validation of accesses and the cache in front of it (`VCache`, `Validation`, `CallValidation`, `Denials`);
* the kernel's bucket heap (`BucketHeap`, `BucketHeapAsWritten`, `KernelHeap`);
* the heap of the naming library: page runs, page directory, chunk bitmaps (`HeapPages`, `HeapRuns`, `PageHeap`,
  `HeapChunks`, `HeapFragments`, `HeapBitmaps`, `ChunkStore`, `HeapCalls`, `HMalloc`);
* the serial terminal's ring buffer and its two threads (`SerialRing`, `SerialProtocol`);
* path names, the name table, mount lookup and enumeration (`NamePath`, `NameTokens`, `NameHash`, `NameMap`,
  `NameEnum`), and printing and parsing of numbers (`Numerals`).

Most parts have two layers. One works on values: functions for the operations, and lemmas for what they mean, over
single calls and over every run. The other works in place, as the code does: classes whose methods relink nodes,
shift arrays and clear bits, each proved to compute the function of the same name. `Machine` holds the word and page
size, `Sequences` the sequences that shifting loops produce.

Sizes and addresses are natural numbers. Where 64-bit or `int` arithmetic of the source can wrap, the wrapped form
is modelled beside the one that is meant, and a lemma says exactly when they agree.

`dafny verify dfyconfig.toml` verifies the project.

## Findings

Where the code does not do what it is for, the code is modelled to the letter and the exact condition is proved.

* A split that sends the promoted page to the middle of a full inner page calls BTInsertPage with a negative
  position, which reads an object's field from a page (kernel/lib/klibc/btree.c:390-393, 466-512), on any level
  above the leaves. The resulting index is sound if and only if no insertion meets such a page on its way with a
  word other than the separator that belongs there (`InsertAsWritten.InsertExactly`, over runs
  `InsertAsWritten.RunsExactly`). All objects are still stored, but all of them are found if and only if the word at
  least lies between the objects on its two sides (`SearchAsWritten.SearchExactly`). For every order there is a run
  of insertions that gets there (`SplitReached.MiddleIsReached`, `SplitReached.MiddleBreaks`).
* kfree_obj leaves a merged and freed node on its list, and puts an unrounded size into an empty list
  (kernel/src/mm.c:417-419, 382-385): `FreeList.FreeAsWrittenTidy`.
* kmalloc_obj rounds its size up in 64 bits, so that sizes above 2^64 - 4096 get free space that stays free:
  `FreeList.AllocAgrees`.
* morecore shifts an `int` (kernel/src/mm.c:262). A request of 2^30 + 4089 bytes, which should fail on the 64 MB
  heap, moves the break down by almost 2 GB: `BucketHeapAsWritten.BreakDropsExample`, with the exact bound in
  `BucketHeapAsWritten.NextAgrees`.
* A granted procedure call is cached under the address in the capability instead of the procedure's
  (kernel/src/vcache.c:240-242), so that a later call of that address can hit without being allowed:
  `CallValidation.CallsExactly`. The range of such an entry includes no address, so that flushing the address leaves
  it (kernel/src/vcache.c:93-111): `VCaches.CheckAfterFlush`.
* With passwords that deny, the cache goes on answering what the scan denies (kernel/src/security.c:191-219):
  `Denials.DenialsExactly`.
* The list of pages with free chunks is not kept in address order, against the comment at lib/naming/hmalloc.c:817:
  `HeapFragments.PlaceKeepsOrder`.
* Without a mounted prefix nm_find_trees answers with the tree of the current directory:
  `NameMaps.FindTreesIsPrefix`, `NameMaps.FindTreesOtherwise`.
* The second copy of serial_pdx_read is never made, so a read stops at the end of the array
  (`SerialProtocol.SecondCopyNeverTaken`, `SerialRing.TakeAmount`).

## Model

| member | source | states |
|---|---|---|
| `Extents.OverlapsMeansCommonAddress` | kernel/include/mungi/btree_conf.h:59-64 | two non-empty objects satisfy the overlap macro exactly when some address lies in both |
| `IndexInsert.CandidateIsOnlyMatch` | kernel/lib/klibc/btree.c:181-213 | in every well-shaped tree the one object that the descent for a key ends at is the only stored one that can contain the key |
| `IndexInsert.SearchAgreesWithScan` | kernel/lib/klibc/btree.c:181-213 | the descent finds what a scan of all stored objects finds, or nothing when that finds nothing |
| `IndexInsert.DepthBound` | kernel/lib/klibc/btree.c:181-213 | a tree of d >= 2 levels holds at least 2 * (BT_MINKEY + 1)^(d - 1) objects, so that lookups visit logarithmically many pages |
| `IndexInsert.InnerRejects` | kernel/lib/klibc/btree.c:441-445 | with exact separators an object overlaps something below an inner page if and only if it reaches over the one separator to its right or overlaps something in the one child it routes to |
| `IndexInsert.LeafRejects` | kernel/lib/klibc/btree.c:447-453 | the test of a leaf on one object decides whether any object of the leaf is overlapped |
| `IndexInsert.InsertRejects` | kernel/lib/klibc/btree.c:401-460 | through any number of levels, an insertion is rejected if and only if the new object overlaps some stored one |
| `IndexInsert.SplitHolds` | kernel/lib/klibc/btree.c:466-510 | halving an overfull page gives two well-shaped pages with at least BT_MINKEY keys, the contents in order, and the least key of the right one as separator |
| `IndexInsert.InsertHolds` | kernel/lib/klibc/btree.c:401-512 | an accepted insertion, through any cascade of splits, gives well-shaped pages whose contents are the old ones with the new object at its place in key order, and the reported neighbour is adjacent to it |
| `IndexDelete.RebalanceHolds` | kernel/lib/klibc/btree.c:358-377 | whichever sibling is used, redistribution and collapse keep the contents, restore exact separators and page fill, and cost the parent at most one key |
| `IndexDelete.SiblingIsFattest` | kernel/lib/klibc/btree.c:358-362 | the sibling of a short page has at least as many keys as either neighbour, and is the right one on a tie |
| `IndexDelete.RebalanceShares` | kernel/lib/klibc/btree.c:363-377 | a sibling with keys to spare shares all keys of the two evenly, the right page getting the odd one; otherwise the two become one page, and no other child changes |
| `IndexDelete.DeleteHolds` | kernel/lib/klibc/btree.c:319-377 | a deletion finds an object if and only if one has exactly the given base; it takes out that one only and restores separators, page fill and depth on the way up |
| `ObjectIndex.LookupIsScan` | kernel/lib/klibc/btree.c:181-213 | on every sound index a lookup is a scan of the stored objects |
| `ObjectIndex.InsertCorrect` | kernel/lib/klibc/btree.c:216-270 | an object is accepted if and only if it overlaps none; then the index is sound and holds the old objects and the new one in order, with an adjacent neighbour reported; otherwise the index is the same |
| `ObjectIndex.DeleteCorrect` | kernel/lib/klibc/btree.c:274-306 | an object is removed if and only if one starts at the key, and only that one; the index stays sound, a root without keys gives way |
| `ObjectIndex.RunsRefineList` | kernel/lib/klibc/btree.c:216-306 | over every run of insertions and deletions the tree holds what a plain ordered list holds, and stored objects are pairwise disjoint |
| `ObjectIndex.InsertThenDelete` | kernel/lib/klibc/btree.c:216-306 | deleting the base of an accepted object returns that object and restores the stored objects |
| `BTreePages.Page.Locate` | kernel/lib/klibc/btree.c:429-439 | the binary search of a page returns the number of separators up to the key, and whether the key is one of them |
| `BTreePages.Page.ShiftIn` | kernel/lib/klibc/btree.c:379-399 | the shifting loops put one key and one child into the gap and move nothing else |
| `BTreePages.Append` | kernel/lib/klibc/btree.c:540-556 | the copying of a collapse lays the separator and the right page end to end behind the left one |
| `BTreePages.Rearrange` | kernel/lib/klibc/btree.c:558-615 | the key movement of a redistribution, either way, leaves both pages and the median as one cut of the keys and children laid end to end |
| `BTreeInsert.GetLeastKey` | kernel/lib/klibc/btree.c:309-317 | following first children down the pages gives the least key below the page |
| `BTreeInsert.BTInsertPage` | kernel/lib/klibc/btree.c:379-399 | on a heap page, to the letter: at a position of its own the entry goes there; in front of all others the key is that of the first child if that is an object, and otherwise the stray word that is read |
| `BTreeInsert.SplitAndInsert` | kernel/lib/klibc/btree.c:466-510 | on heap pages, to the letter: the two pages and the key between them are those of the split; they share no object, and own nothing that did not belong to the page or the entry, or is new |
| `BTreeInsert.AddToPage` | kernel/lib/klibc/btree.c:463-510 | the page takes the entry or is split as meant, given the right separator in place of the stray word |
| `BTreeInsert.BTInsert` | kernel/lib/klibc/btree.c:401-512 | on heap pages an insertion does what the insertion on the represented tree does; a rejected one leaves every page as it was |
| `BTreeDelete.BTDeletePage` | kernel/lib/klibc/btree.c:515-538 | the page represents its old tree without the entry, and the status says whether it is too short now |
| `BTreeDelete.BTCollapse` | kernel/lib/klibc/btree.c:540-556 | the left page represents the two subtrees joined around the least key of the right one; no page is lost or shared |
| `BTreeDelete.BTRedistribute` | kernel/lib/klibc/btree.c:558-615 | the two pages represent the joined subtrees cut in the middle, and the returned key is the one at the cut |
| `BTreeDelete.FixSeparator` | kernel/lib/klibc/btree.c:354-357 | a separator equal to the deleted key becomes the least key of its child again; other separators stay |
| `BTreeDelete.PickSibling` | kernel/lib/klibc/btree.c:358-362 | the sibling is the fuller one of the neighbours of the short child, or its only neighbour |
| `BTreeDelete.BTDelete` | kernel/lib/klibc/btree.c:319-377 | on heap pages a deletion does what the deletion on the represented tree does, and returns the object; when nothing is found no page changes |
| `BTrees.BTree.constructor` | kernel/src/objects.c:376-407 | a new index stores nothing |
| `BTrees.FindLeaf` | kernel/lib/klibc/btree.c:181-213 | the loop over pages ends at the one candidate after as many pages as the tree has levels |
| `BTrees.BTree.BTSearch` | kernel/lib/klibc/btree.c:181-213 | found if and only if some stored object contains the address, and then that one; as many pages are visited as the tree is deep |
| `BTrees.BTree.BTIns` | kernel/lib/klibc/btree.c:216-270 | refused exactly when a stored object is overlapped, and then no page changes; otherwise the object is added in key order and the reported neighbour is adjacent |
| `BTrees.BTree.BTDel` | kernel/lib/klibc/btree.c:274-306 | found exactly when an object starts at the key; that one is returned and gone, every other stays; when not found no page changes |
| `SplitAsWritten.SplitAsWrittenShape` | kernel/lib/klibc/btree.c:390-393 | for every full inner page and promoted child, the split to the letter gives a well-shaped right page, and then the split that is meant, if and only if the child does not go into the middle or the stray word is the right separator |
| `SplitAsWritten.SplitIsCut` | kernel/lib/klibc/btree.c:466-510 | to the letter, all cases of the split cut the page with the new entry in the middle; when a promoted page goes there, the stray word stands where the separator behind it should |
| `InsertAsWritten.PromotesWhenFull` | kernel/lib/klibc/btree.c:401-512 | an accepted insertion splits a page if and only if that page and all pages below it on the way down are full |
| `InsertAsWritten.AsWrittenExactly` | kernel/lib/klibc/btree.c:401-512 | to the letter on every level: for every well-shaped tree an accepted insertion gives well-shaped pages, and then those that are meant, if and only if on no level of the way a promoted page goes into the middle of a full page with a stray word that is not the separator there |
| `InsertAsWritten.InsertExactly` | kernel/lib/klibc/btree.c:216-270 | for every sound index and every object, the code to the letter accepts what it should; the new index is sound, and then the one that is meant, if and only if that condition holds |
| `InsertAsWritten.RunsExactly` | kernel/lib/klibc/btree.c:216-306 | over every run of insertions and deletions the code to the letter keeps the index sound, and then does what is meant throughout, if and only if the condition holds at every insertion |
| `SearchAsWritten.GuidedFinds` | kernel/lib/klibc/btree.c:181-213 | whatever the separators are, a search finds every address of every stored object if and only if each separator on each page lies between the objects before it and those behind it |
| `SearchAsWritten.AsWrittenLeads` | kernel/lib/klibc/btree.c:401-512 | to the letter the pages store what they should on every level; every object can be found again if and only if every stray word that is used as a separator lies behind the objects of the middle child and not behind the old separator |
| `SearchAsWritten.SearchExactly` | kernel/lib/klibc/btree.c:181-270 | for every sound index and accepted object, the code to the letter stores the old objects and the new one in key order; every address of each of them is found afterwards if and only if that condition on the stray words holds |
| `SplitReached.MiddleIsReached` | kernel/lib/klibc/btree.c:401-512 | for every order there is a run of insertions, sound whatever it would read, after which the next object splits the root in the middle |
| `SplitReached.MiddleBreaks` | kernel/lib/klibc/btree.c:390-393 | after every such run the next insertion leaves a sound index if and only if the stray word is exactly the separator, and one in which all objects are found if and only if it lies in the gap before that |
| `FreeList.AllocCorrect` | kernel/src/mm.c:518-573 | space is found if and only if some free chunk is large enough; what is handed out are whole free pages of the rounded size, exactly those stop being free, and the list stays sorted and never adjacent |
| `FreeList.AllocTakesFirst` | kernel/src/mm.c:539-566 | what is handed out is the front of the first free chunk that is big enough; the rest of it and all other chunks stay where they are |
| `FreeList.ReleaseCorrect` | kernel/src/mm.c:374-444 | exactly the released pages become free and the list stays sorted and never adjacent, whichever neighbours are joined |
| `FreeList.AllocThenFree` | kernel/src/mm.c:374-444 | releasing what was just allocated gives back the very same list |
| `FreeList.FreeAsWrittenTidy` | kernel/src/mm.c:374-444 | the code to the letter leaves a tidy list, and then the one that is meant, if and only if it does not join on both sides and does not release something other than whole pages into an empty list |
| `FreeList.FreeAsWrittenJoins` | kernel/src/mm.c:374-444 | to the letter, joining on both sides leaves the left chunk reaching to the end of the right one, which stays on the list |
| `FreeList.ThreeWayMergeExample` | kernel/src/mm.c:417-419 | releasing the page between two free pages leaves two chunks that share a page |
| `FreeList.AllocAgrees` | kernel/src/mm.c:518-573 | the 64-bit rounding does what is meant if and only if the size is at most 2^64 - 4096 or nothing is free; otherwise the first free chunk is handed out and stays free |
| `FreeListHeap.ObjectSpace.constructor` | kernel/src/mm.c:579-593 | the linked list starts as one chunk, the region |
| `FreeListHeap.ObjectSpace.FindFit` | kernel/src/mm.c:539-552 | the search ends at the first entry that is large enough, with its predecessor |
| `FreeListHeap.ObjectSpace.kmalloc_obj` | kernel/src/mm.c:518-573 | on linked nodes the allocation to the letter, which is the one that is meant for sizes up to 2^64 - 4096 |
| `FreeListHeap.ObjectSpace.FindGap` | kernel/src/mm.c:389-399 | the search ends at the first entry that does not start before the address, with its predecessor |
| `FreeListHeap.ObjectSpace.Coalesce` | kernel/src/mm.c:403-438 | as meant: the four ways of joining change the linked list as releasing the range at that place changes the value |
| `FreeListHeap.ObjectSpace.kfree_obj` | kernel/src/mm.c:374-444 | as meant: on linked nodes the release whose correctness is stated above |
| `FreeListHeap.ObjectSpace.kfree_obj_as_written` | kernel/src/mm.c:374-444 | to the letter on linked nodes: an unrounded size in an empty list, and a right neighbour that stays linked when both are joined |
| `ObjectLifecycle.FreePagesMeetNothing` | kernel/src/objects.c:101-110 | as long as free chunks and pages of objects partition the region, an object on free pages overlaps no live one |
| `ObjectLifecycle.CreateCorrect` | kernel/src/objects.c:113-134 | creation succeeds if and only if the descriptor could be allocated and a free chunk is large enough; then exactly one object of the asked length is added, otherwise nothing at all changes; free chunks and pages of objects still partition the region |
| `ObjectLifecycle.CreatedAtFirstFit` | kernel/src/objects.c:113-134 | a created object is at the front of the first free chunk that is big enough |
| `ObjectLifecycle.DestroyCorrect` | kernel/src/objects.c:136-151 | deletion succeeds if and only if a live object starts at the address, and removes that one; free chunks and pages of objects still partition the region |
| `ObjectLifecycle.DestroyFrees` | kernel/src/objects.c:136-151 | exactly the pages of the deleted object become free |
| `ObjectLifecycle.CreateThenDestroy` | kernel/src/objects.c:113-151 | creating and deleting an object gives back the same free list and the same live objects |
| `ObjectLifecycle.FindAnswers` | kernel/src/objects.c:41-50 | lookup by address is a scan of the live objects, and finds nothing for free addresses or outside the region |
| `ObjectLifecycle.RunsPartition` | kernel/src/objects.c:113-151 | over every run of creations and deletions the page-rounded live objects and the free chunks are disjoint and cover exactly the region |
| `ObjectLifecycle.CreateNeverOverlaps` | kernel/src/objects.c:113-134 | in no run is the index asked to store an object that overlaps another |
| `ObjectTables.ObjectTable.object_find` | kernel/src/objects.c:41-50 | on the tree pages and the linked list: what a scan of the live objects finds |
| `ObjectTables.ObjectTable.object_add` | kernel/src/objects.c:84-111 | the object is in the table afterwards, unless its descriptor could not be allocated or it overlaps another |
| `ObjectTables.ObjectTable.object_create` | kernel/src/objects.c:113-134 | on the tree pages and the linked list: the creation whose correctness is stated above; a refused object gives its space back |
| `ObjectTables.ObjectTable.object_delete` | kernel/src/objects.c:136-151 | on the tree pages and the linked list: the deletion whose correctness is stated above |
| `PdxTables.RegisterFits` | kernel/src/objects.c:332-373 | every registration leaves distinct passwords and a table that fits the arrays |
| `PdxTables.RegisterLookup` | kernel/src/objects.c:332-373 | a registration leaves lookups under other passwords alone; under its own they find the new entry points if it succeeded and nothing otherwise |
| `PdxTables.RegisterMeans` | kernel/src/objects.c:332-373 | a registration succeeds if and only if fewer than 16 procedures have other passwords and the entry points, if there are any, fit below 192 with theirs and all lie from base to end; the procedures with other passwords stay as they are, in order, and a successful one with entry points follows them as given |
| `PdxTables.RunsFit` | kernel/src/objects.c:332-373 | over every run of registrations the passwords stay distinct and the table fits the arrays |
| `PdxTables.PdxTable.kill_pdx_slot` | kernel/src/objects.c:256-288 | the packed arrays represent the list without that procedure, with every other entry point intact |
| `PdxTables.PdxTable.set_pdx_slot` | kernel/src/objects.c:290-330 | the procedure is appended if and only if its entry points fit and lie in the object; otherwise no procedure has changed |
| `PdxTables.PdxTable.object_pdx` | kernel/src/objects.c:332-373 | the packed arrays represent the list after the registration |
| `PdxTables.PdxTable.FindProcedure` | kernel/src/security.c:222-252 | a password and entry point are found if and only if the list has them, in the slot of that password |
| `PdxTables.PdxTable.object_pdx_get_clist` | kernel/src/objects.c:52-82 | the capability list of the procedure if the list has it, the null capability otherwise, although unused slots are searched too |
| `VCaches.CheckComplete` | kernel/src/vcache.c:114-161 | a check hits if and only if some entry is good for it |
| `VCaches.CheckMeans` | kernel/src/vcache.c:114-191 | a check hits if and only if some entry is in range, at most 60 units of time old and has all rights asked for: the last one used if that does, else the first |
| `VCaches.CheckEmpties` | kernel/src/vcache.c:114-191 | a check empties no entry but those in range that are older, and a miss all of these |
| `VCaches.AnswersForAMinute` | kernel/src/vcache.c:163-258 | what was added at time t answers at every time up to t + 60, on a clock that wraps at 2^64, for all of the object and every part of the rights |
| `VCaches.NoLaterAnswer` | kernel/src/vcache.c:163-258 | at any later time it does not answer and is emptied |
| `VCaches.VictimUnique` | kernel/src/vcache.c:193-258 | there is exactly one slot that may be overwritten: the first empty one, or the first of the oldest |
| `VCaches.VCache.vcache_flush` | kernel/src/vcache.c:82-91 | all entries are empty |
| `VCaches.CheckAfterFlush` | kernel/src/vcache.c:93-161 | after the flush of an address a check there hits if and only if it is for a call and would have hit before, against the comment that any entry that includes the address goes |
| `VCaches.VCache.vcache_flush_addr` | kernel/src/vcache.c:93-111 | exactly the entries whose range has the address are empty |
| `VCaches.VCache.check_entry` | kernel/src/vcache.c:163-191 | true if and only if the entry is in range, at most 60 units of time old and has all rights asked for; an older one in range is emptied |
| `VCaches.VCache.vcache_check` | kernel/src/vcache.c:114-161 | the slot and the new cache are those of a check |
| `VCaches.VCache.ChooseSlot` | kernel/src/vcache.c:220-232 | the loop picks the one slot that may be overwritten |
| `VCaches.VCache.vcache_add` | kernel/src/vcache.c:193-258 | that slot holds the grant, for the object or for the address in the capability; no other entry changes |
| `Validation.StdMeans` | kernel/src/security.c:191-219 | without negative rights a password is allowed if and only if some entry for it has all the rights asked for, the reported rights are those of such an entry, and nothing is denied |
| `Validation.StdVerdict` | kernel/src/security.c:191-219 | the verdict is a denial if and only if some entry for the password has a right that is asked for as a negative one, and no earlier entry for it does or covers the access; it allows, with the rights of that entry, if and only if such a first entry covers the access instead |
| `Validation.ScanVerdict` | kernel/src/security.c:131-170 | the answer is that of the first capability for the object with a verdict; there is none if no capability has one |
| `Validation.UncachedMeans` | kernel/src/security.c:97-177 | without a cache an access that is no call is granted if and only if some capability for the object at the address allows it and no earlier one denies it |
| `Validation.HitAgrees` | kernel/src/vcache.c:114-191 | when no password denies anything, a hit for anything but a call returns the object that the scan of the capability lists would return |
| `Validation.ValidateKeepsBacked` | kernel/src/security.c:97-177 | whatever a validation adds, evicts or drops, every entry stays that of an object the APD is entitled to |
| `Validation.FlushBacks` | kernel/src/vcache.c:82-111 | so does an address flush, and a flush establishes it for whatever objects, passwords and lists follow |
| `Validation.RunsBacked` | kernel/src/security.c:97-177 | that holds after every run since a flush |
| `Validation.CacheIsInvisible` | kernel/src/security.c:97-177 | when no password denies anything: after every run of validations and address flushes since a flush, validation answers what the scan without a cache answers, for every address and every access that is not a call |
| `Validation.do_validate_passwd_std` | kernel/src/security.c:191-219 | denied, or allowed with which rights, by the first entry for the password that denies or covers the access |
| `Validation.do_validate_passwd` | kernel/src/security.c:254-268 | on the packed arrays of the object: the verdict for a call or for other accesses |
| `Validation.ScanLists` | kernel/src/security.c:131-170 | the nested loops stop at the first capability with a verdict |
| `Validation.do_validate_obj` | kernel/src/security.c:97-177 | after a miss the object at the address is returned if and only if some capability allows the access and no earlier one denies it; object and new cache are those of a validation |
| `CallValidation.ScanMeans` | kernel/src/security.c:97-177 | the scan grants a call if and only if some capability of the APD names the object of the procedure, with a password under which the procedure is listed |
| `CallValidation.FirstCaller` | kernel/src/security.c:131-252 | a call is granted through the first capability that can, in the slot that lists it, and is never refused outright |
| `CallValidation.CallHitAgrees` | kernel/src/vcache.c:114-191 | a call that hits gets the answer of the scan if and only if some capability of the APD lets it be called |
| `CallValidation.CallsExactly` | kernel/src/vcache.c:238-246 | the cache is invisible to calls in every run if and only if every capability through which a call can be granted has the address of something that can be called itself |
| `CallValidation.SecondCallHits` | kernel/src/vcache.c:238-246 | the run that fails otherwise: the second call hits although the scan refuses it |
| `CallValidation.UnaimedExample` | kernel/src/vcache.c:238-246 | a concrete object, procedure and capability for which it fails |
| `Denials.DenialsExactly` | kernel/src/security.c:97-219 | with passwords that deny: the cache is invisible in every run, to every access that asks for something and is not a call, if and only if the scan grants together all the rights that it reports together |
| `Denials.StdOfPart` | kernel/src/security.c:191-219 | passwords that allow an access allow every part of it, and those that do not deny it deny no part |
| `Denials.UnsteadyHits` | kernel/src/security.c:97-177 | the run that fails otherwise: the reported rights are answered from the cache although the scan does not grant them |
| `Denials.NoDenialsSteady` | kernel/src/security.c:191-219 | where no password denies anything the condition holds |
| `Denials.UnsteadyExample` | kernel/src/security.c:191-219 | a concrete object with one password that denies reading and one that gives reading and writing |
| `SerialRing.FullMeans` | apps/init/serial_tty/main.c:263-275 | the test for a full buffer is exact at 41 characters, and equal positions mean an empty one |
| `SerialRing.PutAppends` | apps/init/serial_tty/main.c:277-281 | a character put in comes last and displaces nothing |
| `SerialRing.TakeTakesPrefix` | apps/init/serial_tty/main.c:136-174 | a read takes a non-empty prefix of what is there (unless it asks for nothing), leaves the rest, and never has a reason for its second copy |
| `SerialRing.TakeAmount` | apps/init/serial_tty/main.c:138-157 | how many characters a read delivers: what is there and fits, cut at the end of the array |
| `SerialRing.SerialBuffer.Add` | apps/init/serial_tty/main.c:263-281 | refused exactly when 41 characters are waiting, otherwise appended |
| `SerialRing.SerialBuffer.Read` | apps/init/serial_tty/main.c:136-174 | what is copied out followed by what stays is what was there; the rest of the caller's buffer is untouched |
| `SerialProtocol.StepKeepsInv` | apps/init/serial_tty/main.c:110-296 | every step of either thread keeps mutual exclusion, exactly one pending wakeup for a reader that goes to sleep, and what was accepted is what was delivered and what is buffered |
| `SerialProtocol.DeliveredIsPrefix` | apps/init/serial_tty/main.c:110-296 | in every state of every run what was delivered is a prefix of what was accepted, at most 41 characters behind |
| `SerialProtocol.AcceptedAreKeys` | apps/init/serial_tty/main.c:216-296 | over every run what was accepted are the keys pressed, in order and with a return as a new line, less exactly those tested while 41 characters were waiting, and less the one the writer still holds |
| `SerialProtocol.NoLostWakeup` | apps/init/serial_tty/main.c:115-134 | in every state of every run the assertion of the woken reader holds, and it sleeps beside data only if its signal is there or about to be sent |
| `SerialProtocol.SecondCopyNeverTaken` | apps/init/serial_tty/main.c:161-174 | no run takes the second copy, and a copying reader finds data |
| `SerialProtocol.RefusedOnlyWhenFull` | apps/init/serial_tty/main.c:263-275 | in every run a character is refused exactly when 41 are waiting |
| `SerialProtocol.NoDeadlock` | apps/init/serial_tty/main.c:110-296 | when neither thread can step, the writer waits for a key and the reader is not called or sleeps with nothing to read |
| `SerialProtocol.WakeupComes` | apps/init/serial_tty/main.c:283-295 | a reader asleep beside data is woken after at most three steps of the writer, which nothing can hold up |
| `NamePath.TokensOfJoin` | lib/naming/namehash.c:79-152 | the names of two paths joined by a slash are those of the one and then those of the other |
| `NamePath.TokensOfPrint` | lib/naming/namehash.c:228-244 | cutting the printed form into names gives the names back |
| `NamePath.AbsoluteIsCanonical` | lib/naming/namehash.c:251-322 | the result starts at the root, has no empty, "." or ".." name, and its names are those left after walking the path |
| `NamePath.AbsoluteFixes` | lib/naming/namehash.c:251-322 | a path is left as it is if and only if it is canonical; twice is the same as once |
| `NamePath.AbsoluteComposes` | lib/naming/namehash.c:251-322 | a relative path from the absolute form of a directory is the directory followed by the path |
| `NamePath.RelativeStartsThere` | lib/naming/namehash.c:255-275 | a path with a slash in front does not depend on the current directory, and any other starts there |
| `NamePath.RootIsRoot` | lib/naming/namehash.c:177-222 | "/" and "/.." are the root |
| `NamePath.PlainNameGoesDown` | lib/naming/namehash.c:177-222 | a path with one more plain name is that name below the path |
| `NamePath.DotStays` | lib/naming/namehash.c:177-222 | a path with "." behind it is the path |
| `NamePath.SlashStays` | lib/naming/namehash.c:79-152 | a path with a slash behind it is the path |
| `NamePath.DotsUndo` | lib/naming/namehash.c:177-222 | a plain name and then ".." behind a path are the path again |
| `NamePath.DotsGoUp` | lib/naming/namehash.c:177-222 | ".." behind a path that is not the root leads to the directory that the path is a name in |
| `NamePath.WalkMeans` | lib/naming/namehash.c:177-222 | of the names so far ".." takes the last one away, if there is one, "." none, and any other is put behind them |
| `NamePath.AbsoluteFits` | lib/naming/namehash.c:270-303 | with its terminator the result fits the len + 2 bytes that are allocated |
| `NameTokens.CountTokens` | lib/naming/namehash.c:87-99 | the first pass counts the names that the second one cuts |
| `NameTokens.nh_pathtok` | lib/naming/namehash.c:79-152 | a new array with the names of the path and a NULL behind them |
| `NameTokens.nh_squash` | lib/naming/namehash.c:158-174 | the given number of names that end at a position go, as far as there are so many: those before stay, and those behind and the NULL move up over them |
| `NameTokens.nh_compress` | lib/naming/namehash.c:177-222 | one pass in place leaves what walking the path with a stack leaves |
| `NameTokens.nh_tok2str` | lib/naming/namehash.c:228-244 | the buffer holds the printed form and its terminator |
| `NameTokens.nh_absolute` | lib/naming/namehash.c:251-322 | the steps on arrays compute the absolute form |
| `NameHashes.InsertFind` | lib/naming/namehash.c:326-384 | an insertion changes the lookup of its own name only, and only if that was unbound |
| `NameHashes.DeleteFind` | lib/naming/namehash.c:387-431 | a deletion makes its own name unbound and changes no other lookup |
| `NameHashes.ModifyFind` | lib/naming/namehash.c:480-519 | a modification changes the lookup of its own name only, and only if that was bound |
| `NameHashes.InsertMeans` | lib/naming/namehash.c:326-384 | an insertion succeeds if and only if the name is not bound, and puts it last |
| `NameHashes.DeleteMeans` | lib/naming/namehash.c:387-431 | a deletion succeeds if and only if the name is bound, and takes one binding of it out |
| `NameHashes.ModifyMeans` | lib/naming/namehash.c:480-519 | a modification succeeds if and only if the name is bound, and changes the value of one binding of it |
| `NameHashes.FindMeans` | lib/naming/namehash.c:436-477 | a lookup gives the value of a binding of the name, if there is one |
| `NameHashes.NameHash.nh_find` | lib/naming/namehash.c:436-477 | the value bound to the absolute form of the name, if any |
| `NameHashes.NameHash.nh_insert` | lib/naming/namehash.c:326-384 | the chain represents the bindings after the insertion |
| `NameHashes.NameHash.nh_delete` | lib/naming/namehash.c:387-431 | the chain represents the bindings after the deletion |
| `NameHashes.NameHash.nh_modify` | lib/naming/namehash.c:480-519 | the chain represents the bindings after the modification |
| `NameMaps.FindTreesLongest` | lib/naming/namemap.c:60-133 | with the root mounted every path is in the tree of its longest mounted prefix in whole names, and prefix and relative name together are the absolute path |
| `NameMaps.FindTreesIsPrefix` | lib/naming/namemap.c:60-133 | the answer is that of a mounted prefix if and only if some prefix of the path is mounted; otherwise it is that of the current directory with the whole path, or none |
| `NameMaps.FindTreesOtherwise` | lib/naming/namemap.c:60-133 | without a mounted prefix the answer is the tree of the current directory with the whole path, if that directory is mounted, and otherwise none |
| `NameMaps.nm_find_trees` | lib/naming/namemap.c:60-133 | the loop that chops the path computes that answer |
| `NameEnum.FromIsSuffix` | lib/naming/btree.c:116-200 | the entries from a key on are the end of the ordered entries, and all before it have smaller keys |
| `NameEnum.BTEnumPage` | lib/naming/btree.c:116-200 | the first len entries of the subtree from the key on are written in order, across pages, and nothing before the given position is touched |
| `NameEnum.BTEnum` | lib/naming/btree.c:202-216 | the array starts with the first len stored entries from the key on, ascending, and the result is their number |
| `HeapPages.MallocPagesCorrect` | lib/naming/hmalloc.c:399-454 | failure only when no run is long enough and the heap cannot grow, and then nothing changes; otherwise unused pages become one FIRST and its FOLLOWs, and no other entry or allocation changes |
| `HeapPages.MallocPagesTakes` | lib/naming/hmalloc.c:399-454 | the pages are the front of the first run that is long enough; otherwise, if the heap can grow, they are new ones behind the last and the free runs stay as they are |
| `HeapPages.RoomierLength` | lib/naming/hmalloc.c:268-300 | a directory that is too short grows by whole pages of entries |
| `HeapPages.FreePagesCorrect` | lib/naming/hmalloc.c:702-780 | exactly the pages of the allocation become free, joined to the runs beside them, and no other entry or allocation changes |
| `HeapPages.RunsKeepBooks` | lib/naming/hmalloc.c:399-454 | over every run the free runs stay sorted, apart and never adjacent and agree with the directory, and every live allocation has its pages to itself |
| `HeapPages.FreeingReleasesWhatWasTaken` | lib/naming/hmalloc.c:702-780 | whatever other requests come in between, an allocation keeps as many pages as it got, which is what freeing it releases |
| `HeapRuns.RunList.FindFit` | lib/naming/hmalloc.c:410-413 | the search ends at the first run that is long enough |
| `HeapRuns.RunList.TakePages` | lib/naming/hmalloc.c:407-428 | on doubly linked nodes: first fit from the front of the run |
| `HeapRuns.RunList.FindPlace` | lib/naming/hmalloc.c:736-739 | the search ends at the first run that does not end before the pages, or at the last |
| `HeapRuns.RunList.Join` | lib/naming/hmalloc.c:741-775 | the cases change the linked runs as releasing the pages at that place changes the value |
| `HeapRuns.RunList.AddPages` | lib/naming/hmalloc.c:719-776 | on doubly linked nodes: the release of the pages |
| `PageHeaps.PageHeap.map_pages` | lib/naming/hmalloc.c:237-313 | new pages at the end of the heap, and a directory with an entry behind them and the old entries at its front |
| `PageHeaps.PageHeap.malloc_pages` | lib/naming/hmalloc.c:399-454 | on the run list and the directory array: the allocation whose correctness is stated above |
| `PageHeaps.PageHeap.free_pages` | lib/naming/hmalloc.c:702-780 | on the run list and the directory array: the release whose correctness is stated above |
| `HeapChunks.PageFilled` | lib/naming/hmalloc.c:459-523 | for every chunk size the chunks fill the page, the bitmap has a bit for each, and the description takes fewer than all but two of them and fits what it takes |
| `HeapChunks.BucketLeast` | lib/naming/hmalloc.c:538-546 | the chunk size is the least power of two that is at least 16 and the request |
| `HeapChunks.NewDescribed` | lib/naming/hmalloc.c:487-511 | a new description counts exactly the valid free chunks, whatever was in memory behind the bitmap |
| `HeapChunks.TakeChunkCorrect` | lib/naming/hmalloc.c:554-567 | as long as `free` is not 0 the search finds a valid free chunk, never one of the description or a stale bit, and the count stays exact |
| `HeapChunks.GiveChunkCorrect` | lib/naming/hmalloc.c:801-810 | giving back a chunk in use keeps the count exact, and `free` was below `total` |
| `HeapChunks.TakeThenGive` | lib/naming/hmalloc.c:528-580 | giving back the chunk just taken restores bitmap and count |
| `HeapFragments.MakeChunksCorrect` | lib/naming/hmalloc.c:459-523 | a new page of chunks appears exactly when a page can be had, alone on its list, and everything stays consistent |
| `HeapFragments.MallocBytesCorrect` | lib/naming/hmalloc.c:528-580 | failure only when no listed page and no new page is left; otherwise one chunk of the right size that was not in use is, and nothing else about what is in use changes |
| `HeapFragments.MallocBytesTakes` | lib/naming/hmalloc.c:548-580 | the chunk is the lowest free one of the first page on the list, or of the new page when the list is empty; the page leaves the list with its last free chunk, and no other list or page changes |
| `HeapFragments.FreeBytesCorrect` | lib/naming/hmalloc.c:786-844 | exactly that chunk is no longer in use, a page without chunks in use goes back to the free runs, and everything stays consistent |
| `HeapFragments.FreeBytesMoves` | lib/naming/hmalloc.c:801-844 | a page that was full comes back to its list, an unused one leaves it and is no longer described, and otherwise no list changes |
| `HeapFragments.PlaceMeans` | lib/naming/hmalloc.c:814-823 | of the pages behind the first, those with smaller addresses that come one after the other stay in front of the page, all but the last of them |
| `HeapFragments.ChunkInside` | lib/naming/hmalloc.c:572-579 | a chunk lies in its page, behind the description if that is there |
| `HeapFragments.ChunksDisjoint` | lib/naming/hmalloc.c:572-579 | different chunks in use share no byte |
| `HeapFragments.PointerDecodes` | lib/naming/hmalloc.c:793-794 | page and chunk number are recovered from the pointer |
| `HeapFragments.PlaceKeepsOrder` | lib/naming/hmalloc.c:814-823 | an ascending list stays ascending if and only if the page goes in front of all others, against the comment "Insert in address order" |
| `HeapFragments.PlaceExample` | lib/naming/hmalloc.c:814-823 | page 5 goes before 4 in the list 4, 9 |
| `HeapBitmaps.PgInfo.constructor` | lib/naming/hmalloc.c:487-511 | the loops over words and bits write the new bitmap and counts |
| `HeapBitmaps.PgInfo.TakeFirst` | lib/naming/hmalloc.c:554-567 | the search by words and then by bits takes the first free chunk |
| `HeapBitmaps.PgInfo.Give` | lib/naming/hmalloc.c:801-810 | a chunk that is free already is left alone, any other becomes free |
| `HeapBitmaps.BucketList.InsertInOrder` | lib/naming/hmalloc.c:814-823 | on linked descriptions: where the page goes |
| `HeapBitmaps.BucketList.Remove` | lib/naming/hmalloc.c:828-836 | on linked descriptions: the page is taken out, the others stay in order |
| `ChunkStores.ChunkStore.Take` | lib/naming/hmalloc.c:552-570 | on descriptions, bitmaps and lists: the first free chunk of the first page, which leaves its list when it was the last |
| `ChunkStores.ChunkStore.Add` | lib/naming/hmalloc.c:487-518 | on descriptions, bitmaps and lists: a new page in front of its list |
| `ChunkStores.ChunkStore.Give` | lib/naming/hmalloc.c:801-836 | on descriptions, bitmaps and lists: the chunk becomes free, a full page comes back to its list, an unused one leaves it |
| `HMallocs.Aligned` | lib/naming/hmalloc.c:793-799 | a pointer into a page of chunks is that of a chunk exactly when it is a multiple of the chunk size |
| `HMallocs.HMalloc.constructor` | lib/naming/hmalloc.c:318-396 | a heap of which all pages are free |
| `HMallocs.HMalloc.malloc_make_chunks` | lib/naming/hmalloc.c:459-523 | directory, run list, descriptions and lists together: the new page of chunks |
| `HMallocs.HMalloc.malloc_bytes` | lib/naming/hmalloc.c:528-580 | directory, run list, descriptions and lists together: the chunk handed out |
| `HMallocs.HMalloc.free_bytes` | lib/naming/hmalloc.c:786-844 | accepted if and only if the pointer is live, and then that chunk is given back; anything else in a page of chunks changes nothing |
| `HMallocs.HMalloc.imalloc` | lib/naming/hmalloc.c:585-604 | a pointer that was not live, to at least the bytes asked for, and every other live pointer as before; failure only when the heap cannot grow or the size wraps, and then nothing changes |
| `HMallocs.HMalloc.ifree` | lib/naming/hmalloc.c:846-884 | a live pointer is no longer live and every other is as before; a pointer outside the heap or to no chunk changes nothing |
| `HeapCalls.ImallocCorrect` | lib/naming/hmalloc.c:585-604 | success hands out a pointer that was not live, to at least the bytes asked for, and leaves every other live pointer with its bytes; failure only when the heap cannot grow or the size wraps |
| `HeapCalls.ImallocSize` | lib/naming/hmalloc.c:585-604 | up to 2048 bytes the pointer is to a chunk of the least power of two that is at least 16 and the request, above that to the request rounded up to whole pages |
| `HeapCalls.IfreeCorrect` | lib/naming/hmalloc.c:846-884 | exactly that pointer is no longer live, and every other has the bytes it had |
| `HeapCalls.LiveDisjoint` | lib/naming/hmalloc.c:926-978 | different live pointers, of chunks or of pages, cover different bytes |
| `HeapCalls.StepOrderly` | lib/naming/hmalloc.c:926-978 | every call keeps lists, directory and bitmaps consistent, and what is live is what was handed out and not given back |
| `HeapCalls.After` | lib/naming/hmalloc.c:926-978 | that holds after every run of calls, small and large, whether the heap grows or not |
| `HeapCalls.MallocThenFree` | lib/naming/hmalloc.c:926-978 | giving back at once what was handed out leaves the same pointers live with the same bytes |
| `BucketHeap.GrowSound` | kernel/src/mm.c:250-292 | as meant: new blocks for an empty list are disjoint from all others, below the break and filed; nothing changes when there is no room |
| `BucketHeap.InNumbers` | kernel/src/mm.c:250-275 | a block of bucket b has 8 << b bytes below bucket 9 and a page more from there on; a new stretch is one page below bucket 9 and otherwise one block |
| `BucketHeap.GrowMeans` | kernel/src/mm.c:250-292 | as meant: the blocks of a new stretch follow each other from the old break on and fill it; no other list, no other block and no live block changes |
| `BucketHeap.MallocCorrect` | kernel/src/mm.c:166-241 | as meant: success if and only if the request fits a block and one is free or can be cut; the block has room for header and bytes, comes from the first bucket with that, lies below the break and meets no live block |
| `BucketHeap.MallocTakes` | kernel/src/mm.c:208-241 | as meant: the first block of the list, or of a new stretch when the list is empty and there is room, and none otherwise; the other lists stay as they are |
| `BucketHeap.FreeCorrect` | kernel/src/mm.c:294-319 | as meant: the block is in front of its list and no longer live, nothing else changes |
| `BucketHeap.MallocThenFree` | kernel/src/mm.c:166-319 | a block taken from a non-empty list and released gives the same heap |
| `BucketHeap.RunsSound` | kernel/src/mm.c:166-319 | as meant: in every reachable heap all blocks are disjoint and below the break, and each is live or on its list |
| `BucketHeapAsWritten.GrowAgrees` | kernel/src/mm.c:250-292 | the int shift and the 64-bit sum do what is meant if and only if the block has at most 2^30 bytes and the sum does not wrap, or it has 2^31, the break is below 0x7FFFF000 and there is no room anyway |
| `BucketHeapAsWritten.LargestRequest` | kernel/src/mm.c:166-207 | the request has a bucket up to 27 if and only if it is at most 0x40000FF8 bytes |
| `BucketHeapAsWritten.MallocAgrees` | kernel/src/mm.c:166-241 | for a heap above 2 GB the code to the letter serves a request as meant if and only if it is at most 0x40000FF8 bytes, or a block is on the list, or no block could hold it |
| `BucketHeapAsWritten.BreakDrops` | kernel/src/mm.c:324-340 | for the next larger requests a block above the break is handed out and the break drops by 0x7FFFF000, in every sound heap without such a block |
| `BucketHeapAsWritten.BreakDropsExample` | kernel/src/mm.c:250-340 | the first request of 2^30 + 4089 bytes on the 64 MB kernel heap, which should fail |
| `BucketHeapAsWritten.RunsAsWrittenSound` | kernel/src/mm.c:166-340 | over every run of requests up to 0x40000FF8 bytes the code to the letter does what is meant, so that all blocks are disjoint and below the break |
| `BucketHeapAsWritten.NextAgrees` | kernel/src/mm.c:166-340 | after any such run the next request is served as meant if and only if it is one of those, too, or larger than any block |
| `KernelHeaps.KernelHeap.sbrk` | kernel/src/mm.c:324-340 | the break moves by the increment modulo 2^64 if that sum is at most the limit |
| `KernelHeaps.KernelHeap.FindBucket` | kernel/src/mm.c:175-207 | the comparison with wrapped amounts finds the first bucket with room for header and bytes, or none |
| `KernelHeaps.KernelHeap.morecore` | kernel/src/mm.c:250-292 | on chained memory: the growth to the letter |
| `KernelHeaps.KernelHeap.kmalloc` | kernel/src/mm.c:166-241 | on chained memory: the allocation to the letter, and up to 0x40000FF8 bytes the one that is meant |
| `KernelHeaps.KernelHeap.kfree` | kernel/src/mm.c:294-319 | on chained memory: the release |
| `Numerals.ParseMeans` | kernel/lib/klibc/atob.c:54-92 | parsing accepts exactly the numerals of the base and gives their value modulo 2^64 |
| `Numerals.RoundTrip` | kernel/lib/klibc/atob.c:54-222 | what is printed is read back, for every 64-bit value and base 2 to 16, and no value on the way reaches 2^64 |
| `Numerals.PrefixRoundTrip` | kernel/lib/klibc/atob.c:27-109 | the hexadecimal form with its prefix and the decimal form are read back without naming a base, up to 32 bits |
| `Numerals.OtherPrefixes` | kernel/lib/klibc/atob.c:27-109 | numbers in octal behind 0o and in decimal behind 0t or 0n are read back, cut to 32 bits |
| `Numerals.SignedForm` | kernel/lib/klibc/atob.c:176-222 | in base -10 a value from 2^63 on is a minus sign and what is read back as 2^64 less the value; any other is printed without a sign and read back |
| `Numerals.DigitMeans` | kernel/lib/klibc/atob.c:78-86 | the sixteen digits in order, small and capital; every other character is refused |
| `Numerals.DigitsMean` | kernel/lib/klibc/atob.c:176-222 | in every base up to 36 the digits printed are less than the base and stand for the value |
| `Numerals.JoinedHalves` | kernel/lib/klibc/atob.c:54-79 | two hexadecimal halves joined by one dot are read as the first shifted by 16 bits plus the second, in 64 bits, if at most 19 characters come before the dot; otherwise nothing is read |
| `Numerals.DigitsFit` | kernel/lib/klibc/atob.c:176-222 | a 64-bit value has at most 64 digits in any base |
| `Numerals.FillDigits` | kernel/lib/klibc/atob.c:201-210 | the buffer holds the digits of the value backwards |
| `Numerals.llbtoa` | kernel/lib/klibc/atob.c:176-222 | the loops print the value, with sign or prefix for the bases -10 and -16 |
| `Numerals.atob` | kernel/lib/klibc/atob.c:54-92 | the loop gives the value of the string, and joins two halves at a dot in base 16 |

## Left out

- Repairs: on heap pages a page that is split gets the separator that belongs there in place of the word that
  kernel/lib/klibc/btree.c:390-393 reads (`BTreeInsert.AddToPage`), and the object table releases with
  `FreeListHeap.ObjectSpace.kfree_obj`. Arrays have the spare element that kernel/lib/klibc/btree.c:232-236, 254-258
  and 580 and kernel/src/objects.c:272-279 reach.
- InsertAsWritten.RunsExactly: what a stray read finds is a parameter, because it depends on memory layout; a run
  ends at the first index that is not sound, of what the code does with that nothing is said.
- BTreeInsert.AddToPage: is the insertion that is meant; to the letter it is `InsertAsWritten.PassAsWritten` on
  values.
- FreeListHeap.ObjectSpace.kfree_obj: is the release that is meant; to the letter it is `kfree_obj_as_written`,
  after whose three-way merge the list holds a freed node.
- FreeListHeap.ObjectSpace.Coalesce: likewise; to the letter it is `CoalesceAsWritten`.
- ObjectTables.ObjectTable.object_add: is for objects of at least one byte. The interval tests of the index say
  nothing of empty ones (`Extents.OverlapsMeansCommonAddress`), and object_create makes none.
- ObjectTables.ObjectTable.object_create: takes lengths up to 2^64 - 4096, because beyond that the space it gets
  stays free (`FreeList.AllocAgrees`) and the end of the object lies before its base.
- KernelHeaps.KernelHeap.kmalloc: says nothing of requests that shift an `int` by 32 or more, which has no meaning
  in C. A shift by 31 is taken to give the smallest int, as compilers do.
- KernelHeaps.KernelHeap.kfree: is for blocks in use; the magic number and range words that would catch others are
  not modelled.
- HMallocs.HMalloc.ifree: a pointer into whole pages has to be live, because the code does not look; nor may it
  point into the description of a page of chunks.
- HMallocs.HMalloc.free_bytes: says nothing of a pointer into the description at the front of its own page.
- HMallocs.HMalloc.malloc_make_chunks: the description is an object of its own, which can always be had.
- HeapFragments.MakeChunksCorrect: likewise.
- PageHeaps.PageHeap.map_pages: growth of the heap and of its directory either both succeed or do not happen.
- HMallocs.HMalloc.constructor: starts like the page heap.
- PageHeaps.PageHeap.constructor: the heap starts with all pages free, because the state that
  lib/naming/hmalloc.c:381-387 sets up also has a page on its free run that has been handed out.
- ObjectLifecycle.CreateCorrect: allocation of the object descriptor and of free-list nodes succeeds or fails from
  outside; a failing node allocation in kfree_obj is not modelled.
- The pools of tree pages (kernel/lib/klibc/btree.c:56-92): pages are fresh objects, and a page given back is left
  empty. Failing page allocation inside an insertion, which the source says can leave the index inconsistent.
- BTModify and the printing functions of the index; object passwords, object_info, object_resize and
  kmalloc_obj_addr.
- Locks: every call is one step, except for the two threads of the serial terminal.
- Validation.do_validate_obj: where passwords deny, says nothing of an access that asks for no right at all, because
  the scan can report negative rights for that and vcache_add asserts that it does not.
- Validation: pending requests, mandatory access control and rights inheritance; `object_find` is a scan there,
  which `ObjectIndex.LookupIsScan` justifies.
- Serial terminal: semaphores are counters; the driver, the writing procedure and registration are not modelled.
- Naming heap: recycling of list nodes through `px`, and that descriptions and nodes live in the heap themselves; a
  word of the bitmap is 32 booleans; the slots at the front of the directory are lists of their own; irealloc,
  filling with junk or zeros, and the warnings' texts.
- HMallocs.HMalloc.imalloc: growth of the heap and of its directory either both succeed or do not happen.
- Name table: one chain, because nh_hash returns 0 (lib/naming/namehash.c:70); failing allocation.
- Name map: mounting, binding, directories and name operations; only the lookup of the tree.
- Naming tree: enumeration is on the index of the kernel, in the mode that enumerates; insertion and deletion there
  differ in details and are not modelled.
- Numbers: btoa for 32 bits, and btoa's own buffer.
- Threads, protection domains, pagers, system calls, messages, start-up and drivers.
