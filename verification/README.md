# A storage engine, modelled and proved in Dafny

The project models the four layers of a small storage engine written in Rust and proves what each is for:

- the **B+ tree** over pages linked by id (`src/btree/mod.rs`, `src/btree/node.rs`);
- the **page cache** with its free list and LRU-K replacement policy (`src/page_cache.rs`, `src/replacer.rs`);
- the **heap table** of slotted pages with its iterator (`src/table/list.rs`, `src/table/node.rs`), which lies on the page cache;
- the **tuple and page codecs** and schema projection (`src/table/tuple.rs`, `src/catalog.rs`, `src/btree/node.rs`, `src/btree/slot.rs`).

Code that changes things step by step is a class or a method with loops, proved against a function or predicate; what the
engine promises is proved about those. `dafny verify dfyconfig.toml` checks everything.

## Main results

1. **Insertion into the B+ tree, exactly.** For every search tree and every key below the type's maximum, the leaf chain that
   `scan` walks lists the upsert if and only if the key is not the last of the left half of a full leaf that the search for
   it ends at. Then lookups find the upsert, else what they found before. The pages show a search tree again if and only
   if the key is *safe* (`BTreeInsert.Safe`): moreover the right half of a cut leaf must get the separator that the parent
   keeps for the leaf. If it does not, the leaf's old slot stays, nothing shows at first, and any key that the slot takes
   is put out of order when it is inserted next into a leaf that has room. With exact separators every absent key is safe,
   and insertion keeps separators exact. A new tree answers like a map over every history whose insertions, overwrites
   and range queries meet their condition when they come (`BTreeRuns.AllFine`), deletions anywhere between them. Histories
   of absent keys with deletions that keep each leaf's greatest key always do, in any mix, and so do histories that insert
   absent keys first and delete later; insert-only trees also stay half full, and have the height that follows.
2. **Lookup, deletion, scan, range.** On every search tree, `get`, `delete` and `scan` are lookup, removal and listing of the
   sorted slots. `range` always returns a prefix of the right answer and all of it if and only if no leaf without a key in the
   range lies, on the way, before a leaf with one; exact separators guarantee that.
3. **The page cache is a map of pages.** With k of at least 2, over every history of requests the cache answers as a plain map
   of pages would; a request is refused exactly when 64 other pages are held. Pins keep their frames and frames are conserved.
   A page comes in beside the others while fewer than 64 are cached; else the page goes that nobody holds and whose times of
   request, since it was read in, lie as the LRU-K policy asks: with k of them, the longest time from the k-th latest to the
   latest; without such a page, the earliest latest time. The replacement policy by itself does so over every history of
   accesses, pins, unpins and removals.
4. **The heap table appends, and iterators see a snapshot.** An insertion appends if and only if the tuple is no longer than
   what lies before the tuples of the last page, and frames can be had. Up to the first longer one, a record id keeps naming
   its tuple however many are added; an iterator returns the tuples there were when it was created, in order, once each,
   while others are added and pages roll over. The table's pages are bytes in the page cache, and running out of frames is
   covered.
5. **Codecs.** Tuples, B+ tree pages and heap pages are given byte by byte, and what columns and B+ tree pages read as, whatever
   the bytes.
   Projection commutes with encoding byte for byte, and whatever the bytes, copied columns read as they did; index keys decode
   to the row's values. Encoding is injective, and comparing encoded tuples is the dictionary order of their rows, strings by
   their bytes. The tuple after a tuple reads back as the integer's successor, `true`, or the string with the first character's
   code plus one written over its first bytes. B+ tree pages are read back exactly; for all widths of keys and values, whether
   nodes fit until they are cut is decided.
6. **The free list under concurrency.** If each slot is accessed in the order of the swaps that gave it away, every pop returns
   what one stack would, no frame is lost, and none is handed out more often than it came in, for every mix of pops and
   pushes of any threads. The order is kept in every history in which no pop begins during a push and no push during a pop.
   Frames are conserved all along if and only if every pop reads the frame it is due. In every interleaving a pop comes back
   without a frame only if the list was empty at some time during it, and a push fails only if it was full; a call looks again
   only after another has got its slot, and left alone it ends in three steps. Pops alone hand out as many frames as there
   are, or as were asked for. Room for each push when it begins is room enough. On every list with room, a pop that begins
   during a push can lose conservation.

## Where the code does not do what its parts promise

Each is a proved lemma; the code's logic is kept.

- A tuple longer than what lies before the tuples of the last page underflows the unsigned subtraction at
  `src/table/node.rs:108` instead of going to a new page: a panic, or a wrapped offset in a release build. Three tuples of
  2000 bytes do it (`HeapChain.ThirdUnderflows`); the exact condition is in `HeapList.List.Insert`.
- Overwriting the last key of a full leaf's left half stores the key twice, and lookups find the old value
  (`BTreeLimits.OverwriteDoubles`): the comparison at `src/btree/mod.rs:104` sends it to the right half. The exact condition
  is in `BTree.BTree.Insert`.
- After a leaf's largest key was deleted, a later cut of that leaf leaves its old slot in the parent, so that its page is
  reached twice. The leaf chain still lists the upsert, but the next key that the slot takes is put out of order
  (`BTreeLimits.StaleSeparator`, for all such trees `BTreeStale.StaleNext`). The exact condition for the slot to stay is in
  `BTreeIds.InsIds`.
- A leaf that lost all its keys in the range ends a range query early (`BTreeLimits.RangeStopsShort`); the exact condition is
  in `BTree.BTree.Range`. All three of these are reached from an empty tree by operations that are fine.
- Pointers are written for any value type of at least four bytes but read only when values are exactly four bytes wide
  (`NodeCodec.NodeRoundTrip`). Record ids are eight bytes, so an index from record ids cannot read its internal pages.
- Depending on the widths of keys and values, a node can overflow its page before `almost_full` asks for a cut
  (`NodeCodec.AllFit` has the condition). Four-byte keys with four-byte values overflow at slot 454, eight-byte keys with
  record ids at slot 241; eight-byte keys with four-byte values and twelve-byte keys with record ids are safe
  (`NodeCodec.SafeWidths`).
- `next` of a tuple is greater for integers, but of a bool or a string only for `false` and the empty string
  (`TupleOrder.NextGreater`).
- With k = 1 the replacement policy never gives up a frame (`Replacer.LRUKReplacer.Evict`).
- One pop and one push at the same time can hand out a frame twice (`FreeListSteps.MixedPopsTwice`): the array is accessed after
  the swap, so a pop can read a slot that a push has yet to write, or a push write one that a pop has yet to read. Each goes
  wrong exactly when the two frames differ (`FreeListSteps.ReadTooSoon`, `FreeListSteps.WroteTooSoon`).

## Files

| files | what they hold |
|---|---|
| `Options`, `Bytes`, `Buffers`, `Entries` | missing values; big-endian integers; page buffers; key-ordered vectors |
| `BTreeShape`, `BTreeInsert`, `BTreeSafety`, `BTreeOps`, `BTreeRange`, `BTreeFill`, `BTreeTidy`, `BTreeStale`, `BTreeLimits` | the tree that pages stand for, and its laws |
| `BTreeNode`, `BTreePages`, `BTreeIds`, `BTreeStep`, `BTreeChains`, `BTreeQuick`, `BTree`, `BTreeRuns`, `BTreeBytes` | decoded pages, how a tree lies in them, the class over the page map, histories, pages as bytes |
| `Replacer`, `ReplacerRuns`, `FreeList`, `PageStore`, `PagePolicy`, `PageCache`, `CacheRuns`, `FreeListSteps`, `FreeListCalls` | the cache |
| `HeapPage`, `HeapChain`, `HeapList`, `HeapRuns` | the heap table |
| `Schema`, `Fields`, `TupleCodec`, `Projection`, `TupleOrder`, `NodeCodec`, `Layouts` | the codecs |

## Model

| member | source | states |
|---|---|---|
| BTree.BTree.constructor | src/btree/mod.rs:32-39 | a new tree has no root and is valid over any page store |
| BTree.BTree.Insert | src/btree/mod.rs:56-86 | for every key below the maximum the pages afterwards show the tree's insertion: a search tree exactly when the key was safe; the leaf chain lists the old slots with the slot upserted exactly when the key was not at a half's end, and is sorted exactly then; every lookup then finds what is listed, else what it found before; exact separators and half-full nodes are kept by safe keys; no page outside the tree is touched except newly allocated ones |
| BTree.BTree.InsertQuick | src/btree/mod.rs:56-196 | in any pages that show slots and a leaf chain, even with a page reached twice: when no page on the way is full and a separator is above the key, exactly the leaf's page changes, by an upsert of its slots |
| BTree.BTree.InsertFirst | src/btree/mod.rs:56-71 | the first insertion allocates a root leaf with just the slot, and the tree is tight |
| BTree.BTree.InsertAtRoot | src/btree/mod.rs:71-86 | inserting at an existing root shows the inserted tree, whose root is the new page if the old root was cut |
| BTree.BTree.RaiseRoot | src/btree/mod.rs:73-83 | a cut root gets a parent page with the two separators in order, marked as the only root |
| BTree.BTree.InsertInto | src/btree/mod.rs:89-196 | one descent step writes exactly the tree's insertion into the pages below, returns the separators of the halves if the page was cut, and uses only its own pages and new ones |
| BTree.BTree.InsertCut | src/btree/mod.rs:98-156 | a full page is cut and the insertion goes to the half that takes the key |
| BTree.BTree.InsertRight | src/btree/mod.rs:104-149 | insertion into the new right half, with the left half already written |
| BTree.BTree.InsertLeft | src/btree/mod.rs:151-195 | insertion into the left half, with the right half already written |
| BTree.BTree.FindOrBump | src/btree/mod.rs:161-172 | the child found is the one the tree routes to; above all separators the last one is raised to the key's successor, after which a child is always found |
| BTree.BTree.WriteKids | src/btree/mod.rs:186-195 | a node is written with its kid's halves in place, and nothing else changes |
| BTree.BTree.PutSeparators | src/btree/mod.rs:186-189 | putting both separators back is the tree's reinstallation of the kid's halves |
| BTree.BTree.InsertHere | src/btree/mod.rs:159-195 | insertion below a page that is not cut any more |
| BTree.BTree.InsertKid | src/btree/mod.rs:182-192 | the descent into one kid leaves the pages of all others as they are |
| BTree.BTree.Get | src/btree/mod.rs:322-340 | on any readable pages the slot of the key and the value that the slots lead to; in a valid tree the slot with this key that is listed, and none exactly when no listed slot has the key |
| BTree.BTree.Delete | src/btree/mod.rs:342-366 | reports whether the key was listed and removes it; separators stay exact unless a leaf lost its largest key |
| BTree.BTree.Scan | src/btree/mod.rs:199-250 | returns the slots along the leaf chain, on any readable pages; in a valid tree sorted |
| BTree.BTree.Range | src/btree/mod.rs:252-319 | always a prefix of the slots in the range; all of them if and only if no leaf on the way is a gap, and always with exact separators |
| BTree.BTree.GetPtr | src/btree/mod.rs:307-319 | finds the leaf that the tree's search for the key ends at |
| BTree.BTree.RangeFrom | src/btree/mod.rs:268-305 | adds each leaf's window and stops at the first empty one or at the end of the chain |
| BTreeInsert.InsGrew | src/btree/mod.rs:89-196 | a safe insertion below any node, with its old and new upper bound, gives one or two well-filled nodes in order whose slots are the old ones with the key upserted |
| BTreeInsert.TidyGrew | src/btree/mod.rs:89-196 | the leaf chain below any node, after an insertion of a key that is not at a half's end: in order within the old and new bounds, listing the upsert, whether a slot is left behind or not |
| BTreeInsert.InsTidy | src/btree/mod.rs:182-194 | a safe insertion leaves no slot behind, so the pages' tree is the one over the leaf chain |
| BTreeInsert.InstallGrew | src/btree/mod.rs:182-194 | replacing a kid's slot by the separators of its halves keeps the kids in order when the right half's separator is the old one |
| BTreeSafety.InsertGood | src/btree/mod.rs:56-196 | a safe insertion leaves a search tree with the slot upserted; the height grows by one only when a full root is cut |
| BTreeSafety.InsBroken | src/btree/mod.rs:98-149 | an unsafe insertion below any node leaves a tree out of order, a page counting once for each slot that leads to it |
| BTreeSafety.InsertExact | src/btree/mod.rs:56-196 | for every search tree and key: safe if and only if the result is a search tree; not at a half's end if and only if the leaf chain lists the upsert, if and only if it lists a sorted list |
| BTreeSafety.TidyBroken | src/btree/mod.rs:98-149 | inserting the last key of a full leaf's left half lists it twice along the leaf chain, at any depth |
| BTreeTidy.InsertAnswers | src/btree/mod.rs:322-340 | after any insertion every lookup finds what the upserted list has, or what there was before when the key was at a half's end |
| BTreeTidy.InsLookup | src/btree/mod.rs:322-340 | a slot left behind changes no lookup, at any depth |
| BTreeIds.InsIds | src/btree/mod.rs:98-103 | the pages used afterwards are the old ones and all newly allocated ones, each once exactly when no slot is left behind |
| BTreeIds.TidyIds | src/btree/node.rs:190-207 | the leaf chain and the nodes above it never reach a page twice |
| BTreePages.StoredUnique | src/btree/node.rs:159-186 | pages determine the tree they show |
| BTreePages.PtrInstall | src/btree/mod.rs:186-189 | two upserts of pointer slots are the tree's reinstallation |
| BTreeStep.InsertMeans | src/btree/mod.rs:56-86 | the exact conditions of an insertion at the root, for weak, exact and half-full trees |
| BTreeChains.WholeChain | src/btree/mod.rs:213-250 | from the first leaf on, the `next` pointers run through all leaves from left to right and then end |
| BTreeChains.ChainedWalk | src/btree/node.rs:190-207 | after any insertion the `next` pointers run through the leaves of the tree without the slot left behind, and end at -1 |
| BTreeChains.InsertDone | src/btree/mod.rs:56-250 | what pages, leaf chain and lookups show after an insertion at the root, for every key |
| BTreeQuick.QuickWalk | src/btree/mod.rs:159-195 | upserting one leaf page updates that leaf wherever the slots or the chain reach it |
| BTreeChains.ChainFrom | src/btree/mod.rs:252-266 | the same from the leaf a search ends at |
| BTreeChains.KidSwapped | src/btree/mod.rs:350-366 | rewriting one leaf keeps every other page of the tree in place |
| BTreeChains.DeleteMeans | src/btree/mod.rs:342-366 | deletion on a search tree is removal from the listing and keeps the weak invariant; exact separators survive unless the key was its leaf's largest |
| BTreeChains.TightIsExact | src/btree/node.rs:189-221 | trees that only grew have exact separators |
| BTreeOps.LookupIs | src/btree/mod.rs:330-340 | routing from the top finds what a linear search of the listing finds |
| BTreeOps.DeleteIs | src/btree/mod.rs:350-366 | removal below any node keeps order and bounds |
| BTreeOps.RangeExact | src/btree/mod.rs:268-305 | walking sorted leaves with the early stop gives all slots in the range if and only if there is no gap |
| BTreeRange.RangeIsPrefix | src/btree/mod.rs:252-319 | on every search tree a range query returns a prefix of the slots in the range |
| BTreeRange.RangeTight | src/btree/mod.rs:252-319 | with exact separators it returns all of them |
| BTreeFill.HeightBound | src/btree/node.rs:257-261 | a tight tree of height h holds at least twice `min` to the h and at most `cap` to the h + 1 keys |
| BTreeNode.Node.Split | src/btree/node.rs:189-209 | the greater half moves to a new page that follows in the leaf chain; neither is a root |
| BTreeNode.Node.GetSeparator | src/btree/node.rs:212-221 | a leaf's last key plus one, an internal node's last separator |
| BTreeNode.Node.FindChild | src/btree/node.rs:224-241 | the first pointer whose separator is above the key |
| BTreeNode.Node.Insert | src/btree/node.rs:263-279 | adds a slot at its place unless its key is taken |
| BTreeNode.Node.Replace | src/btree/node.rs:283-299 | upserts a slot at its place |
| BTreeNode.Node.PopLast | src/btree/node.rs:301-303 | takes the last slot away |
| BTreeNode.Node.Remove | src/btree/node.rs:323-336 | removes the slot with the key, if any |
| Entries.ReplaceShape | src/btree/node.rs:283-299 | an upsert keeps slots sorted and adds at most one |
| Entries.ToMapReplace | src/btree/node.rs:283-299 | an upsert of sorted slots is an update of the map they stand for |
| Entries.FindIs | src/btree/node.rs:317-321 | a search of sorted slots is lookup in the map they stand for |
| Entries.InsertNewMeans | src/btree/node.rs:263-279 | an insertion of a taken key changes nothing; any other keeps slots sorted, adds one and updates the map they stand for |
| BTreeRuns.ExactSafe | src/btree/mod.rs:98-149 | with exact separators a key is safe unless it is present as the last of a full leaf's left half, so every absent key is safe |
| BTreeRuns.Run | src/btree/mod.rs:56-366 | a new tree gives the answers of a map over every history in which each insertion or overwrite has a safe key and each range query no gap when it comes, deletions, lookups and scans anywhere |
| BTreeRuns.HistoryKept | src/btree/mod.rs:56-366 | such histories keep a search tree that stands for the updated map |
| BTreeRuns.FineExact | src/btree/mod.rs:56-319 | an insertion meets its condition if and only if a search tree is left; the leaf chain lists the upsert, or a sorted list, if and only if the key is not at a half's end; a range query meets its condition if and only if it gives the slots in the range |
| BTreeRuns.MixedFine | src/btree/mod.rs:56-366 | every mix of insertions of absent keys, deletions that keep each leaf's greatest key, and queries meets the conditions |
| BTreeRuns.BuiltFine | src/btree/mod.rs:56-366 | every history that inserts absent keys and deletes later, with range queries before the first deletion, meets the conditions |
| BTreeRuns.InsertOnlyTight | src/btree/mod.rs:56-196 | every insert-only history of absent keys meets the conditions throughout and leaves a tree with exact separators and half-full nodes |
| BTreeLimits.OverwriteDoubles | src/btree/mod.rs:98-131 | after inserting 0 to 255 into an empty tree, overwriting 127 leaves an unsorted leaf chain, and a lookup finds the old value |
| BTreeLimits.StaleSeparator | src/btree/mod.rs:186-194 | after inserting 0 to 256, deleting 127 and inserting -1 to -129, all of it fine, inserting the absent key -130 leaves a page reached twice and the right listing along the chain; inserting the absent key 127 next leaves that unsorted |
| BTreeStale.StaleNext | src/btree/mod.rs:182-194 | after every insertion that leaves a slot behind, inserting any key the slot takes into a leaf with room leaves the leaf chain unsorted |
| BTreeStale.SomeTaken | src/btree/mod.rs:182-194 | a slot left behind takes at least one key |
| BTreeLimits.RangeStopsShort | src/btree/mod.rs:291-293 | after inserting 0 to 256 and deleting 127, the range from 127 to 128 is answered with nothing, though 128 is listed |
| BTreeBytes.PageRoundTrip | src/btree/node.rs:106-186 | every page of up to 256 slots with big-integer keys, four-byte values and page ids fits 4096 bytes and is read back exactly |
| BTreeBytes.PageLayout | src/btree/node.rs:106-133 | such a page byte by byte: header, slots of thirteen bytes with key, flag and value or page id, zeros |
| BTreeBytes.PagesDiffer | src/btree/node.rs:106-133 | two such pages have the same bytes only if they are the same |
| BTreeBytes.TreePagesRoundTrip | src/btree/node.rs:106-186 | every page of a valid tree, including sentinel and chain pointers, fits and is read back exactly |
| Replacer.LRUKReplacer.Evict | src/replacer.rs:57-92 | some frame is chosen if and only if some tracked frame is unpinned and k is at least 2; by the times recorded for the unpinned frames it has, among those with k accesses, the longest time from its k-th latest access to its latest, or else, without any, the earliest latest access |
| Replacer.DistanceIs | src/replacer.rs:24-34 | the k-distance computed from a history is the time from the access with k - 1 later ones to the latest, and there is one exactly with k accesses |
| ReplacerRuns.Run | src/replacer.rs:57-131 | after every history of accesses, pins, unpins and removals the frame given up is the policy's choice by the numbers of the accesses since each frame was removed last, and there is one exactly when a known frame is not pinned and k is at least 2 |
| Replacer.LRUKReplacer.Earliest | src/replacer.rs:80-91 | the one frame whose latest recorded time is before all others' latest |
| Replacer.LRUKReplacer.RecordAccess | src/replacer.rs:94-105 | an access gets a time of its own, later than all others |
| Replacer.LRUKReplacer.Pin | src/replacer.rs:107-111 | one more pin on a tracked frame |
| Replacer.LRUKReplacer.Unpin | src/replacer.rs:113-117 | one pin fewer, given that there is one |
| Replacer.LRUKReplacer.Remove | src/replacer.rs:119-131 | the frame is not tracked any more |
| FreeList.FreeList.constructor | src/page_cache.rs:27-36 | all frames are free |
| FreeList.FreeList.Pop | src/page_cache.rs:39-55 | takes the last free frame off the list, if there is one |
| FreeList.FreeList.Push | src/page_cache.rs:57-71 | appends a frame when there is room |
| PageCache.PageCache.constructor | src/page_cache.rs:136-166 | for every k from 1 on a new cache is consistent and shows the disk |
| PageCache.PageCache.NewPage | src/page_cache.rs:172-176 | a handle on the next page id, refused exactly when no frame is free and the policy gives none up, for k of at least 2 exactly when 64 pages are held; then nothing but the next page id changes; in any case no page does; the page comes in beside the others, or for the page that the policy chooses by the times of request |
| PageCache.PageCache.FetchPage | src/page_cache.rs:178-188 | a handle on the page, refused exactly when it is not cached, no frame is free and the policy gives none up, for k of at least 2 exactly when 64 other pages are held; the access is recorded and the frame pinned once more; a page not cached comes in beside the others while there are fewer than 64, else for the unheld page that the policy chooses by the times of request; no page changes whatever is evicted |
| PageCache.ServesUnlessHeld | src/page_cache.rs:178-194 | with k of at least 2 a frame can be had if and only if the page is held or fewer than 64 are |
| PagePolicy.CachedCount | src/page_cache.rs:190-194 | 64 pages are cached exactly when no frame is free |
| PagePolicy.VictimPage | src/page_cache.rs:190-200 | the frame that the policy gives up holds the page that the policy chooses among the unheld pages by their times of request |
| PagePolicy.ReboundCameIn | src/page_cache.rs:196-220 | giving a frame to a page starts its times anew and forgets those of the page that goes |
| PageCache.PageCache.Hit | src/page_cache.rs:179-185 | a cached page is found in its frame, whose history grows by the access |
| PageCache.PageCache.TryGetPage | src/page_cache.rs:190-221 | uses a free frame first and else the policy's victim; refusal changes nothing |
| PageCache.PageCache.Load | src/page_cache.rs:196-220 | write-back, table swap and read give the frame to the new page, and every other page still reads the same |
| PageCache.PageCache.Unpin | src/page_cache.rs:89-93 | dropping a live handle never underflows a pin count, changes no page and no time of request |
| PageCache.PageCache.Write | src/page_cache.rs:105-111 | the handle's frame still holds its page, so the assertion holds; exactly that page changes |
| PageCache.PageCache.Read | src/page_cache.rs:113-115 | reading through a live handle shows its page |
| PageCache.PageCache.FlushPage | src/page_cache.rs:238-252 | the disk then holds the page if it was cached; nothing reads differently |
| PageCache.PageCache.FlushAllPages | src/page_cache.rs:254-260 | the disk then holds every page |
| PageCache.PageCache.RemovePage | src/page_cache.rs:223-236 | the frame of an unheld page becomes free, without overflow of the list, and its times of request are forgotten; other pages read the same |
| PageStore.RebindLayout | src/page_cache.rs:208-210 | giving a frame to another page conserves frames: free frames and cached ones stay disjoint, duplicate-free and together all 64 |
| PageStore.RebindView | src/page_cache.rs:202-218 | it changes no page for a reader, because a dirty page is written back and a clean one is what the disk holds |
| PageStore.PinsRebound | src/page_cache.rs:196-200 | pin counts stay equal to the numbers of live handles, each for the page its frame holds |
| PageStore.NoFrameLeft | src/page_cache.rs:190-194 | there is neither a free nor an unpinned frame exactly when 64 different pages are held |
| PageStore.LiveInTable | src/page_cache.rs:105-111 | the frame of a live handle holds the handle's page |
| PageStore.Forgotten | src/page_cache.rs:223-236 | removing an unheld page keeps the cache consistent and leaves room on the free list |
| CacheRuns.Run | src/page_cache.rs:135-261 | for every disk, every k of at least 2 and every history of requests, the answers are those of a plain map of pages with 64 places for held pages |
| FreeListSteps.AlternatingRight | src/page_cache.rs:38-71 | in every history in which no pop begins during a push and no push during a pop, every pop that gets a slot returns the frame on top at its swap (which pops get none is in `FreeListCalls`), no frame is handed out more often than it was listed or pushed, and between calls nothing is lost |
| FreeListSteps.OrderedRight | src/page_cache.rs:38-71 | the same for every history, pops and pushes overlapping as they like, in which accesses to each slot come in the order of the swaps |
| FreeListSteps.AlternatingOrdered | src/page_cache.rs:38-71 | histories without a pop during a push keep that order, slot by slot |
| FreeListSteps.ConservedExact | src/page_cache.rs:38-71 | over any history frames are conserved after every step if and only if every pop reads the frame it is due |
| FreeListSteps.ReadTooSoon | src/page_cache.rs:54 | a pop that reads its slot before the last push to it has written conserves frames if and only if the slot holds the pushed frame anyway |
| FreeListSteps.WroteTooSoon | src/page_cache.rs:70 | a push that writes its slot before an earlier pop has read it lets that pop conserve frames if and only if it brings the frame that is due |
| FreeListSteps.NoPushFails | src/page_cache.rs:57-71 | in every interleaving, if at the start of each push fewer frames were listed and pushed than slots and ended pops add up to, no push fails its assertion |
| FreeListSteps.AloneAlternates | src/page_cache.rs:38-71 | the calls of one thread alone never overlap |
| FreeListSteps.PoppedOnce | src/page_cache.rs:39-55 | in every interleaving of threads that only pop no frame is handed out twice or while still listed, and at the end nothing is lost (how many are handed out is in `FreeListCalls.PopsServed`) |
| FreeListSteps.AllPushed | src/page_cache.rs:57-71 | in every interleaving of threads that only push with room for all, no assertion fails, and at the end the list holds the old frames and exactly the pushed ones |
| FreeListSteps.MixedPopsTwice | src/page_cache.rs:39-71 | a concrete interleaving of a push and two pops that hands out one frame twice |
| FreeListSteps.OverlapBreaks | src/page_cache.rs:38-71 | on every list with room, a pop by one thread that begins during a push by another can lose conservation, for every frame but the one lying in the slot |
| FreeListCalls.Answered | src/page_cache.rs:38-71 | in every interleaving each pop begun has come back once, with a frame or without, or is under way, and each push begun has brought its frame |
| FreeListCalls.EmptyOnlyIfEmpty | src/page_cache.rs:39-50 | in every interleaving a pop comes back without a frame only if the tail was 0 at some time while it was under way |
| FreeListCalls.FailedOnlyIfFull | src/page_cache.rs:57-68 | in every interleaving a push fails its assertion only if the list was full at some time while it was under way |
| FreeListCalls.LostTo | src/page_cache.rs:46-67 | a call whose swap comes too late looks again, and since it looked last another call has got its slot |
| FreeListCalls.PopAlone | src/page_cache.rs:39-55 | left alone from any tail it may have seen, a pop ends within three steps, with the frame on top, or without one exactly if the list is empty or was when it looked |
| FreeListCalls.PushAlone | src/page_cache.rs:57-71 | left alone, a push ends within three steps with its frame on top, or fails exactly if the list is full or was when it looked |
| FreeListCalls.PopsServed | src/page_cache.rs:39-55 | threads that only pop: once all are back, the frames handed out are as many as pops begun or frames listed, whichever is less |
| FreeListCalls.PushesServed | src/page_cache.rs:57-71 | threads that only push: once all have ended, the list holds the old frames and all pushed but the refused ones, and none is refused unless the list is full |
| HeapPage.PageParts | src/table/node.rs:34-93 | where header, slots and tuples lie on an encoded page, and that they decode to what was encoded |
| HeapPage.SlotHolds | src/table/node.rs:138-157 | each row lies exactly where its slot says, apart from all others |
| Layouts.HeapLayout | src/table/node.rs:63-93 | a heap page byte by byte: header of twelve bytes, a slot of nine bytes for each row with offset, length and a zero, zeros, then the rows against the end of the page, the first one last |
| HeapPage.BlankIsEmpty | src/table/node.rs:34-61 | a page of zeros is an empty page |
| HeapPage.Node.From | src/table/node.rs:34-61 | decoding the page of some rows gives these rows |
| HeapPage.Node.NextTupleOffset | src/table/node.rs:102-117 | right before the tuples on the page if the row fits, none if it does not, and an underflow if and only if the row is longer than what lies before these tuples |
| HeapPage.Node.Insert | src/table/node.rs:119-136 | the row is added under the next slot number if and only if it fits; the rows before it stay; it underflows if and only if it is longer than what lies before the tuples |
| HeapPage.UnderflowBounds | src/table/node.rs:102-117 | only rows that do not fit underflow, and none on an empty page or when no longer than header and slots |
| HeapPage.EqualLengths | src/table/node.rs:102-117 | with rows of one length the insertion underflows if and only if one row more would take more bytes than a page has |
| HeapPage.Node.Get | src/table/node.rs:138-157 | the row inserted under the slot number |
| HeapPage.Node.ToPage | src/table/node.rs:63-93 | the encoded page holds all rows and the next page, and the assertion on the offset holds |
| HeapChain.ExtendedAll | src/table/list.rs:101-140 | adding a tuple, on the last page or a new one, appends it to the listing and keeps the chain in order |
| HeapChain.NewRIdIs | src/table/list.rs:101-140 | the record id of a new tuple names the last row of the last page, slots counting from 0, with the rows before it as they were |
| HeapChain.RIdsUnique | src/table/list.rs:142-153 | a record id names one tuple |
| HeapChain.OtherTable | src/table/list.rs:101-140 | a table that shares no page with the one written to stays as it is |
| HeapChain.ThirdUnderflows | src/table/node.rs:102-117 | the third of three tuples of 2000 bytes underflows in a table that had been empty |
| HeapChain.WalkKept | src/table/list.rs:167-207 | adding tuples does not move an iterator or its end |
| HeapChain.WalkStep | src/table/list.rs:170-206 | a step from any position before the end reaches the next tuple's position, and never the early end |
| HeapList.List.Default | src/table/list.rs:61-72 | an empty table on the next page of the cache, refused exactly when no frame is left; no page changes |
| HeapList.List.Insert | src/table/list.rs:101-140 | appends the tuple under a new record id if and only if it is no longer than what lies before the tuples of the last page and no frame is lacking; underflows exactly when it is longer, and then promises nothing; else fails and adds nothing; no page there was before changes but the last one, and the next page id by one exactly for a tuple that does not fit; the handles it takes are dropped |
| HeapList.List.RollOver | src/table/list.rs:115-139 | a tuple that neither fits nor underflows goes to a new page to which the old one points; it always fits there |
| HeapList.List.Get | src/table/list.rs:142-153 | the data of every listed tuple by its record id, unless no frame is left |
| HeapList.Iter.Over | src/table/list.rs:82-99 | an iterator over exactly the tuples listed now |
| HeapList.Iter.Advance | src/table/list.rs:167-207 | the next tuple of the snapshot, or the end for ever; a failed fetch leaves the iterator where it is |
| HeapRuns.Run | src/table/list.rs:82-207 | any mix of additions and calls up to the first addition that underflows, which is reported exactly: the answers list the snapshot in order and then end; old tuples stay listed |
| HeapRuns.ListedInOrder | src/table/list.rs:167-207 | such answers contain the snapshot's tuples in order, each once, and the end only after all of them |
| Schema.FromTypes | src/catalog.rs:52-71 | columns lie back to back and the size covers them exactly |
| Schema.Filter | src/catalog.rs:100-112 | keeps the chosen columns with their offsets, and the size is theirs |
| Schema.ChosenExact | src/catalog.rs:100-112 | a column is kept if and only if its name is asked for |
| Schema.Compact | src/catalog.rs:114-129 | same names and types, back to back again |
| TupleCodec.TupleBuilder.Add | src/table/tuple.rs:377-400 | after each call the builder holds the fixed part of the values added so far, with offsets pending |
| TupleCodec.TupleBuilder.Build | src/table/tuple.rs:402-419 | the bytes are the encoding of the values added |
| Fields.Finish | src/table/tuple.rs:402-419 | putting each offset in place when its data is appended gives the assembled tuple |
| Fields.PatchNext | src/table/tuple.rs:408-412 | patching the next offset turns the fixed part with n offsets in place into the one with n + 1 |
| TupleCodec.ReadBack | src/table/tuple.rs:25-72 | every column reads back the value that was added, whatever follows the tuple |
| Layouts.TupleLayout | src/table/tuple.rs:377-419 | a tuple byte by byte: values back to back in one, four or eight bytes, most significant first, strings behind them in order, each with its offset and length in two bytes each |
| Layouts.GetExact | src/table/tuple.rs:25-72 | in any buffer a column reads as a value exactly if the bytes at its place are the value's; a bool is false for a zero byte only |
| Projection.TupleFrom | src/table/tuple.rs:130-185 | copies the columns with offsets put right, if and only if all of them lie within the buffer |
| Projection.ReadableExact | src/table/tuple.rs:139-172 | columns can be copied exactly if each can be read |
| Projection.CopyReads | src/table/tuple.rs:130-185 | from any buffer each copied column reads as it did there, whatever follows the copy |
| Projection.ProjectionCommutes | src/table/tuple.rs:130-185 | picking columns out of an encoded tuple, in any order and with repeats, gives byte for byte the encoding of the picked values |
| Projection.CopyAll | src/table/tuple.rs:139-183 | copying all columns finds where a tuple ends |
| Projection.PickSize | src/catalog.rs:254-269 | a selection of columns in order encodes to no more bytes than the row |
| Projection.IndexKey | src/catalog.rs:254-269 | the key an index makes of a row is the encoding of the row's chosen values, and the compacted schema reads them back |
| TupleOrder.Compare | src/table/tuple.rs:305-320 | comparing encoded tuples column by column gives the dictionary order of their rows: less exactly if, at the first column that differs, the integer or bool is less, or the string is a proper prefix or has the smaller byte where they first differ; equal exactly for equal rows |
| TupleOrder.StringOrder | src/table/tuple.rs:13-20 | a string is less exactly if it is a proper prefix or has the smaller byte at the first place where the two differ |
| TupleOrder.RowLaws | src/table/tuple.rs:305-320 | equal exactly for equal rows, and reversed by swapping |
| TupleOrder.RowTransitive | src/table/tuple.rs:305-320 | the order is transitive |
| TupleOrder.EncodingInjective | src/table/tuple.rs:292-297 | equal bytes, equal rows and comparing equal are the same |
| TupleOrder.Next | src/table/tuple.rs:192-227 | whenever the code can raise the first value (an integer below its maximum, a bool, an empty string, or a string whose first character has a successor no longer than the string) the result has a tuple's bytes; its first column reads back the integer plus one, `true`, a zero byte for the empty string, or a string of the same length that begins with the leading bytes of the next character's code in four bytes, as many as that character takes in UTF-8, and goes on as before; the other columns read back as they were |
| TupleOrder.BumpExact | src/table/tuple.rs:204-211 | a string can be raised exactly if its first character has a successor and that takes no more bytes than the string has |
| TupleOrder.FirstCodeIs | src/table/tuple.rs:204-211 | the first character's code is the one that UTF-8 encodes in the first bytes |
| TupleOrder.NextGreater | src/table/tuple.rs:199-216 | the next tuple is greater if and only if the first value is an integer, `false` or the empty string |
| TupleOrder.NextImmediate | src/table/tuple.rs:192-227 | for one integer column nothing lies strictly between a tuple and the next |
| TupleOrder.IntegerKeys | src/table/tuple.rs:192-320 | tuples of one big integer compare, differ and succeed each other as the integers do |
| NodeCodec.EitherRoundTrip | src/btree/slot.rs:37-80 | a value or pointer is read back, except a pointer when values are not four bytes wide |
| NodeCodec.Write | src/btree/node.rs:106-133 | writes the node's page if and only if its slots fit |
| NodeCodec.Read | src/btree/node.rs:159-186 | the loop reads the slots that lie back to back, and stops where one is malformed |
| NodeCodec.NodeRoundTrip | src/btree/node.rs:106-186 | a node that fits, with any self-delimiting keys, is read back exactly if it has no pointers or values are four bytes wide, and cannot be read otherwise |
| Layouts.NodeLayout | src/btree/node.rs:106-133 | a node's page byte by byte for every width of keys and values: type, root flag, number of slots, next page and id, slots back to back, zeros |
| Layouts.NodeExact | src/btree/node.rs:159-186 | any page reads as a node exactly if its bytes say so: type 1 or 2, flag 0 before a value, 1 before a page id, every key and value within the page |
| NodeCodec.FitsIff | src/btree/node.rs:106-133 | a node fits its page if and only if the header and as many keys, flags and values as it has slots take at most a page |
| NodeCodec.CutAt | src/btree/node.rs:257-261 | a node is due to be cut exactly from as many slots on as half a page has keys, rounded up |
| NodeCodec.AllFit | src/btree/node.rs:257-261 | for every width of keys and values, all nodes up to that size fit if and only if one of that size does |
| NodeCodec.SafeWidths | src/btree/node.rs:257-261 | the sizes at which nodes of the common widths are cut, and at which they overflow before that |
| Bytes.SignedRoundTrip | src/storable.rs:15-40 | integers in two's complement, most significant byte first, are read back |
| Bytes.SignedDigits | src/storable.rs:15-40 | each byte written for an integer is its digit in base 256, most significant first, in two's complement |

## Left out

- BTree.BTree.Insert: fetching and allocating pages always succeeds here, keys are below the greatest of the type (one more would overflow `next`), and page ids do not overflow; the pages of the class hold decoded nodes, and that bytes can stand for them is proved separately in BTreeBytes.
- B+ tree over the cache: the class `BTree` keeps decoded pages in a map and never lacks a frame; it is not refined to byte pages fetched through `PageCache`, as the heap table is.
- BTree.BTree.Range: an empty tree has no page to start from; the assertion at `src/btree/mod.rs:308` is a precondition.
- Replacer.LRUKReplacer.Evict: k is at least 1, as with k = 0 the code reads past a history; the clock does not wrap.
- CacheRuns.Run: k is at least 2, and so it is for the heap table; with k = 1 no frame is ever given up, so requests are refused as soon as no frame is free (`PageCache.PageCache.FetchPage`).
- PageCache.PageCache.constructor: k is at least 1 and the first page id not negative.
- BTree.BTree.InsertQuick: after a slot was left behind, insertions that cut a page or raise a separator, deletions and range queries are not covered; lookups, scans and this insertion are.
- Replacer.LRUKReplacer.Unpin: unpinning a tracked frame that has no pin is a precondition; the cache never does it.
- PageCache.PageCache.FetchPage: a removed page is not fetched again and ids below the next one are fetched only; the code would let a later frame take the page's table entry away (`src/page_cache.rs:209`).
- PageCache.PageCache.RemovePage: the page must not be held.
- HeapList.List.Insert: tuples of 1 to 4075 bytes that are not deleted, on fresh pages that read as zeros; nothing is said of the state after an underflow, where a debug build has panicked with locks poisoned and a release build has written outside the page.
- HeapList.List.Default: opening an existing table from its first and last page is not modelled.
- TupleCodec.ReadBack: whole encodings below 65536 bytes, as offsets have two bytes; strings are bytes, without UTF-8.
- TupleOrder.Next: where the first value cannot be raised the code panics; that is a precondition. Strings are what UTF-8 encodes, and reading back is for results below 65536 bytes.
- Extendible hash table, bitmaps and pairs: the split writes one bucket to both pages and directory ranges overlap, so a map is not what they compute.
- B+ tree keys of several columns, bools or strings: `next` gives no separator for them; codec and order cover these types.
- Latches, lock order and races in tree and cache: modelled sequentially; only the free list is modelled step by step, with the steps of `compare_exchange` in one global order.
- Disk errors and the file format of the disk: the disk is a map of pages, and pages never written read as zeros.
- The deleted bit of tuples (written as 1, read only above 1), `List::update`, and hash indexes in the catalog.
- Names and bookkeeping of tables and indexes in the catalog, and building an index from a table: its parts, the key of a row and insertion, are modelled.
- Buffers shared between a decoded page and its frame: a decoded page has a buffer of its own.
