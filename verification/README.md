# A paged storage engine, modelled and proved in Dafny

The repository stores SQL tables in one file of fixed-size pages. This project models the layers under
the SQL statements and proves what each of them promises to the one above:

| layer | files | stands for |
|---|---|---|
| slotted pages | `Bytes`, `SlottedPage` | a sequence of entries (flags and payload) in each page |
| page chains and the free list | `PageLists`, `PageLinks`, `PageGroups`, `GroupRuns` | a map from group to list of pages, and one list of free pages |
| items in groups | `PageStorage`, `ItemScan` | for each group a sequence of pages of entries; a cursor over the visible ones |
| cross-page compaction | `Compaction`, `CompactionRun`, `VacuumSlots`, `VacuumChain`, `Vacuum`, `VacuumResult`, `VacuumLayout`, `VacuumRows` | the surviving entries, in order, in fewer pages |
| table operations and runs | `ScanEffects`, `Tables`, `Engine` | for each table a multiset of rows |
| query cursor | `RecordViews` | the joined rows that satisfy WHERE, in scan order |
| write-back cache | `PageCache`, `CacheRecency`, `PageManagers` | a plain list of pages; a least-recently-used clock, with ties for pages created one right after the other |
| page file | `LittleEndian`, `PageFile` | disjoint byte ranges for the headers and pages |
| record codec, queue | `RecordCodec`, `UnrolledQueue`, `Wrappers` | a list of typed values; a sequence |

The code that changes state is modelled by classes and methods with the same fields, loops and branches:
page bytes, slot flags, links, iterators, cache entries and file bytes are changed in place. Each such
method is tied to a function or relation on values, and the theorems are about those. Page size, cache size
and node size are parameters; the original uses pages of 128 bytes, a 22-byte file header, a 24-byte
application header, 16 bytes of links and 6 of data header in each page, 10 cache entries, and 10 entries in a
queue node. `cap` is what is left of a page for slots and payloads (106 bytes there).

Main results, by file:

* `Vacuum.Vacuum`: two cursors, overlapping moves, a stop-and-restart case. The pages left are a function of the pages
  before and hold exactly the entries that were not deleted, same bytes and order, none flagged; every page closed on
  the way kept all its entries or had no room for the first entry of the next; the tail goes to the free list in
  order. As written, the code leaves a group fit for further writes if and only if no page is released and the final
  write of the free-space pointers is right (`Vacuum.VacuumValid`). Otherwise the head names a page that is free, or the
  last page is blind: its free space starts at 0 and a later vacuum sees no slot of it. The theorem holds for groups
  that earlier vacuums left so, and names exactly the heads and pages that are wrong afterwards.
* `VacuumRows.VacuumRowsKept`: a vacuum loses rows exactly when it is compacting as it gets to a blind last page, and
  then all the rows of that page.
* `Engine.Run`: over every run of create, drop, insert, delete and update, as the code has them or with the repairs
  below, the pages of each table, the wrong pointers among them included, are a function of the operations, and each
  table is the multiset of rows that they make it, but for the rows that vacuums lose. `Engine.RunLoses`: an operation has its
  outcome if and only if it loses no row, and with the repairs it always has. `Engine.Covered` is what is asked of an
  operation as written; it can be computed from the operations before it.
* `GroupRuns.Run`: over every run each page id minted lies on exactly one list, and all links are right.
* `Tables.DeleteWhere`, `Tables.UpdateWhere`: position by position which row is there afterwards. An update in place
  writes over its rows in scan order, whatever their length (`PatchedInOrder`); UPDATE in its delete-and-reinsert form
  meets every earlier row once and never its own replacements, though it inserts into the group it is iterating.
* `SlottedPage.PatchSparesExactly`: an update in place that makes a row longer spares the other rows if and only if
  what runs over the old payload is what was there before.
* `PageManagers.Sessions`, `PageCache.RunRefines`: from a new file on, session after session, as long as pages are
  written through marked entries, the cache stands for a plain list of pages, and after each close the bytes of the
  file do.
* `CacheRecency.FetchedStaysExactly`, `CreatedStaysExactly`: a page fetched is evicted exactly when as many other pages
  were touched as there are entries. Pages created one right after the other share a value, and the index decides: a
  created page is evicted exactly when the pages ahead of it and those touched are as many as there are entries, for a
  run that does not start with a creation, or any run when it took the first entry; creations at the start of a run
  never evict a page from another entry. So the newest page may go first (`NewestEvicted`), and nothing is ahead of a
  page exactly when no entry behind it carries its value (`NothingAhead`).
* `PageFile.ApartExactly`: pages and headers keep apart if and only if the last offset fits in 32 bits.
* `RecordViews.Query`, `RecordCodec.RecordRoundTrip` with `RecordReadPacks`, and `UnrolledQueue.Drain`.

## Repairs and departures

Two repairs, used only where a method is called with `repaired`:

1. `vacuum` writes the free-space pointers of the last page also when it is not compacting; they are then 0 and
   whatever the destination index held last (database/src/storage/page_data_manager.c:258-259). Repaired: the
   write is skipped then.
2. `free_page_current` leaves the head's `previous` at the last page when it frees that page
   (database/src/storage/page_group_manager.c:285-300). Repaired: `vacuum` points it to the new last page.

Where names or comments in the code promise something else than it does, the code is followed:

* `page_item_unset_new` clears every flag, since `!` is a logical negation (page_item.h:48-50).
* `max_item_size` subtracts the slot but not the data header, so it is 6 bytes too generous
  (page_data_manager.c:422-425); `PageStorage.PageDataManager.Insert` says exactly which items break a page.
* `free_page` does not clear `next` (page_group_manager.c:254-269); `PartlyDissolved` in `PageLinks` carries the
  dangling link through `delete_group`.
* A cache miss does not mark the entry as altered (page_manager.c:85-96); `PageCache.PutTracked` says exactly when
  a later write is safe and `PageCache.LostWrite` gives a run that loses one.
* `page_manager_create_page` asks for the counter with the null id each time, so creations in a row get the same
  value (page_manager.c:71-83, 123): `CacheRecency.NewestEvicted`.
* `applicable_in_place` is always true in the original (record_update.c:19); both branches of UPDATE are modelled.
* UPDATE ignores the error of its insertion (table_manager.c:442-444), so an update over the item size loses the
  row: `Tables.ReinsertedSize`.
* `str_try_from` compares the length with what is left of the item before the length field is deducted
  (string.c:38-47): `RecordCodec.StringStaysExactly`.

## Model

| member | source | states |
|---|---|---|
| SlottedPage.SlotLayout | database/include/database/public/storage/domain/page_item.h:16-45 | the bytes in which a slot has its offset, size and flags, and the two bits that say deleted and new |
| SlottedPage.LaysRead | database/include/database/public/storage/domain/page_item.h:16-26 | slots growing up and payloads growing down that lay out a list of entries are read back as exactly that list |
| SlottedPage.AppendLays | database/src/storage/page_data_manager.c:118-138 | one slot and one payload written into the gap add one entry and disturb no other |
| SlottedPage.FlaggedEntries | database/include/database/public/storage/domain/page_item.h:31-36 | setting the deleted flag of slot i changes the flags of entry i and nothing else, and a well-formed page stays so |
| SlottedPage.PatchedEntries | database/src/database/table_manager.c:439-440 | bytes no longer than a payload, written over it, change that entry only |
| SlottedPage.PatchStaysInPage | database/src/database/table_manager.c:439-440 | bytes written over payload i stay in the page if and only if they are no more than the payloads of slots 0 to i; for slot 0 any longer bytes leave it |
| SlottedPage.PatchedOverlays | database/src/database/table_manager.c:439-440 | bytes of any length that stay in the page run over the payloads of the slots before, in this exact way, and the page stays well formed |
| SlottedPage.PatchSparesExactly | database/src/database/table_manager.c:439-440 | bytes at least as long as the payload leave every other entry as it was if and only if what runs over equals what was there |
| SlottedPage.LongerPatchSpills | database/src/database/table_manager.c:439-440 | a longer payload whose next byte differs changes the entry of the slot before |
| PageStorage.InsertedFormed | database/src/storage/page_data_manager.c:118-138 | with room for slot and payload an insertion appends exactly one entry, flagged new or not, and the page stays packed |
| PageStorage.FirstInsert | database/src/storage/page_data_manager.c:422-433 | into an empty page an insertion is right if and only if the item leaves room for its slot |
| PageStorage.FirstEntryOverwritten | database/src/storage/page_data_manager.c:118-138 | into a page whose free space a vacuum left starting at 0 but ending above slot and item, an insertion replaces the first entry |
| PageStorage.PageDataManager.InsertItem | database/src/storage/page_data_manager.c:118-138 | the page gets the slot, the payload and the new counters, all other pages stay |
| PageStorage.PageDataManager.FindRoom | database/src/storage/page_data_manager.c:435-458 | the page found is the head if free space end minus start there is more than the item and a slot, or else the page its `previous` names if the same holds there, or none; that page is the last one unless the head is stale |
| PageStorage.PageDataManager.TargetOf | database/src/storage/page_data_manager.c:435-458 | in terms of the entries: the head or else the last page, the first with strictly more room, passing over blind pages that offer none |
| PageStorage.PageDataManager.FitPlace | database/src/storage/page_data_manager.c:435-458 | in a group fit for writes, from the bytes used: the item goes to the head if slots, payloads, one more slot and the item are less than the page, or else to the last page if they are, or else to neither |
| PageStorage.PageDataManager.InsertOn | database/src/storage/page_data_manager.c:452-457 | the page that takes the item gains exactly one entry when its pointers are right; its first entry is replaced when its free space starts at 0; the group has the same pages when a stale head named another page |
| PageStorage.PageDataManager.InsertIntoNewPage | database/src/storage/page_data_manager.c:460-474 | a new last page holding the item; the store stays as fit for writes as it was if and only if item and slot fit a page; behind a stale head the chain of the group is as before, and the item is lost |
| PageStorage.PageDataManager.Insert | database/src/storage/page_data_manager.c:427-474 | the error if and only if the item is over the page capacity, then nothing changes; on a group fit for writes, the head gains the item if slots and payloads with it are less than the page, or else the last page if they are, or else and only then the group has one page more; visible at once if and only if immediate, all others and their order kept, the store as fit for writes as before if and only if item and slot fit a page. On a blind page that offers room the first entry is replaced. With a stale head the item is kept if and only if the head has room |
| PageStorage.PageDataManager.CreateGroup | database/src/storage/page_data_manager.c:390-413 | a new group of one empty page, every other group as it was, whatever heads and pages are wrong |
| PageStorage.PageDataManager.DeleteGroup | database/src/storage/page_data_manager.c:415-420 | the group's pages are appended to the free list, every other group as it was; its wrong head and pages are wrong no more |
| PageLists.OnExactlyOneList | database/src/storage/page_group_manager.c:70-115 | in a partition every id minted so far has one list and one index in it |
| PageLists.TakeNewPartition | database/src/storage/page_group_manager.c:215-228 | taking a page for a new group keeps the partition |
| PageLists.AttachPartition | database/src/storage/page_group_manager.c:168-213 | moving a new page to the end of a chain keeps the partition |
| PageLists.CutOutPartition | database/src/storage/page_group_manager.c:273-303 | moving a page from a chain to the end of the free list keeps the partition |
| PageLists.DissolvePartition | database/src/storage/page_group_manager.c:305-326 | turning free list F and chain G into F followed by G keeps the partition |
| PageLinks.AfterTake | database/src/storage/page_group_manager.c:70-115 | popping the free list leaves both link directions of every list right |
| PageLinks.AfterAttach | database/src/storage/page_group_manager.c:182-211 | the link writes of add_page make the chain one longer with all links right |
| PageLinks.AfterFound | database/src/storage/page_group_manager.c:215-228 | a head that points back to itself is a chain of one page |
| PageLinks.AfterCutOut | database/src/storage/page_group_manager.c:273-303 | after a page is cut out, forward chains are right; which backward links are not is stated exactly |
| PageLinks.AfterDissolve | database/src/storage/page_group_manager.c:305-326 | when every page of the chain was freed, all links of F followed by G are right with a null end, though mid-loop the last free page pointed into the rest |
| PageGroups.PageGroupManager.GetNewPage | database/src/storage/page_group_manager.c:70-103 | an id is minted only when the free list is empty, otherwise its first page is taken and the next one becomes first |
| PageGroups.PageGroupManager.CreatePage | database/src/storage/page_group_manager.c:105-115 | the page is on no list before and heads a list of its own after, partition and links kept |
| PageGroups.PageGroupManager.AddPage | database/src/storage/page_group_manager.c:168-213 | the new page is the last of its chain and no longer first on the free list if it was, every other list as it was; with a stale head the chain stays as it was and the new page is on no chain |
| PageGroups.PageGroupManager.CreateGroup | database/src/storage/page_group_manager.c:215-228 | a new chain of one page, named by it, no longer first on the free list if it was, every other list as it was |
| PageGroups.PageGroupManager.FreePageCurrent | database/src/storage/page_group_manager.c:273-303 | the page leaves its place in the chain and is last on the free list, every other list as it was; the head's back link becomes stale if and only if it was the last |
| PageGroups.PageGroupManager.RepairHead | database/src/storage/page_group_manager.c:285-300 | the repair: with the head's back link set to the last page everything is right again |
| PageGroups.PageGroupManager.FreeChain | database/src/storage/page_group_manager.c:313-323 | the loop ends with every page of the chain freed, in order |
| PageGroups.PageGroupManager.DeleteGroup | database/src/storage/page_group_manager.c:305-326 | free list F and chain G become F followed by G, nothing else moves, all links right, also when the head of G was stale |
| PageGroups.PageIterator.Next | database/src/storage/page_group_manager.c:34-53 | the error past the end, otherwise one page on along next, or previous when inverse |
| PageGroups.VisitGroup | database/src/storage/page_group_manager.c:14-68 | forward iteration yields the chain, inverse iteration the head and then the rest in reverse, each page once |
| GroupRuns.Step | database/src/storage/page_group_manager.c:168-326 | one operation on the manager follows the same operation on lists |
| GroupRuns.Run | database/src/storage/page_group_manager.c:70-326 | over every run of create, add and delete the lists are what the operations make them and every id minted lies on exactly one list |
| GroupRuns.EveryIdOnce | database/src/storage/page_group_manager.c:70-115 | the manager's invariant puts each id in 1..page_amount on exactly one list |
| Compaction.SurvivorsAre | database/src/storage/page_data_manager.c:190-204 | what a compaction keeps of a chain: the entries at exactly the positions that are new or not deleted, in order, with their bytes, the new ones without any flag |
| Compaction.MoveWithin | database/src/storage/page_data_manager.c:229-244 | inside one page, with overlap, the move stores the slot and payload at the destination and touches no other byte below the slot or above the payload |
| Compaction.MoveApart | database/src/storage/page_data_manager.c:229-244 | across two pages the same, and in the source only the offset of the slot moved changes |
| Compaction.UnreadKept | database/src/storage/page_data_manager.c:182-254 | no move changes a slot or payload not yet looked at |
| Compaction.PlacedKept | database/src/storage/page_data_manager.c:229-253 | no move changes an entry already placed; the new one joins behind them |
| Compaction.KeepInPlace | database/src/storage/page_data_manager.c:183-203 | while nothing is being compacted a live slot stays where it is |
| Compaction.CloseAndAdvance | database/src/storage/page_data_manager.c:204-211 | the page closed is well formed |
| CompactionRun.Begin | database/src/storage/page_data_manager.c:168-179 | the run's invariant holds before the first slot |
| CompactionRun.Unset | database/src/storage/page_data_manager.c:189-191 | clearing the flags of a new slot keeps the invariant |
| CompactionRun.Drop | database/src/storage/page_data_manager.c:193-202 | a deleted slot leaves the page's count and starts the compaction if it had not started |
| CompactionRun.Keep | database/src/storage/page_data_manager.c:197-203 | a live slot before the compaction starts counts as kept |
| CompactionRun.Moved | database/src/storage/page_data_manager.c:229-253 | an entry that fits the destination page is placed there, nothing lost or reordered, the destination behind the source |
| CompactionRun.Pause | database/src/storage/page_data_manager.c:204-221 | the stop case: the first entry of the next page did not fit, the page behind is closed and compaction stops |
| CompactionRun.MovedOn | database/src/storage/page_data_manager.c:204-254 | an entry that does not fit goes to the front of the next page, and the page closed could not have held it |
| CompactionRun.NextPage | database/src/storage/page_data_manager.c:176-181 | the source moves to the next page, and the destination with it when nothing is being compacted |
| CompactionRun.EndContents | database/src/storage/page_data_manager.c:176-256 | at the end the destination pages hold exactly the survivors in order, none flagged, each closed page tight |
| CompactionRun.FinalWriteForms | database/src/storage/page_data_manager.c:257-259 | the last write leaves the last page well formed if and only if the run ends compacting, or the page is empty and the stale index is the whole page |
| VacuumSlots.VacuumSlot | database/src/storage/page_data_manager.c:183-254 | one round of the inner loop keeps the invariant and advances the source by one slot |
| VacuumSlots.VacuumPage | database/src/storage/page_data_manager.c:181-255 | the inner loop handles every slot of the source page once and ends; a blind page is passed without a look |
| VacuumChain.CompactChain | database/src/storage/page_data_manager.c:168-256 | the outer loop handles every page of the chain once and ends: pages up to the last blind page but one are passed, those behind are compacted in one run, a blind last page is passed |
| VacuumChain.Round | database/src/storage/page_data_manager.c:176-255 | one round of the outer loop: the next page is passed, starts the run or goes on with it |
| Vacuum.ReleaseTail | database/src/storage/page_data_manager.c:260-264 | the chain is cut at the destination page and the pages behind it go to the end of the free list in order |
| Vacuum.FinishVacuum | database/src/storage/page_data_manager.c:257-264 | the last write, the release and the repair: the pages that stay hold what was compacted, and only these pages and heads may be wrong |
| Vacuum.Vacuum | database/src/storage/page_data_manager.c:165-267 | for groups with a stale head or blind pages too, when nothing is removed before a blind page other than the last: the pages left as a function of the pages before, survivors exactly and in order, closed pages tight, tail released in order, other groups untouched; exactly which heads and pages are wrong afterwards, and with which pointers |
| Vacuum.VacuumValid | database/src/storage/page_data_manager.c:165-267 | on a store that is fit for writes: fit again if and only if repaired, or no page was released and the last write was right; each page but the last has the rows it had, or the first row of the next page, with a slot, does not fit behind its own |
| Vacuum.ValidIs | database/src/storage/page_data_manager.c:257-264 | when only one group may be wrong, the store is fit for writes if and only if its head names its last page and all its pages have right pointers |
| Vacuum.StaleHead | database/src/storage/page_group_manager.c:285-300 | after a release without the repair the back link of the head breaks the invariant |
| VacuumLayout.IdleVacuumBreaksLayout | database/src/storage/page_data_manager.c:257-259 | a vacuum that finds nothing to remove never leaves a group fit for further writes |
| VacuumLayout.LastPageDeletionCloses | database/src/storage/page_data_manager.c:193-202 | a deleted slot in the last page makes the last write right |
| VacuumLayout.OnePageLayout | database/src/storage/page_data_manager.c:165-267 | a group of one page is fit for further writes after a vacuum if and only if something was removed |
| VacuumLayout.TwoPagesRelease | database/src/storage/page_data_manager.c:260-264 | two pages, a row that moves to the first: the last write is right, but the release leaves the head's back link wrong |
| VacuumLayout.VacuumedFlat | database/src/storage/page_data_manager.c:165-267 | whatever the sizes, the pages after a vacuum hold the survivors in order |
| VacuumLayout.BlindPageLost | database/src/storage/page_data_manager.c:181-264 | the entries of a blind last page are lost if and only if the vacuum is compacting at the end of the page before it; otherwise they stay, with their flags |
| VacuumLayout.BlindRowLost | database/src/storage/page_data_manager.c:181-264 | two pages, one deleted row before a blind page with one row: the row is lost |
| VacuumRows.VacuumRowsKept | database/src/storage/page_data_manager.c:165-267 | the rows after a vacuum and those it loses are the rows before, in order |
| VacuumRows.SettledRows | database/src/storage/page_data_manager.c:27-58 | when nothing is pending, the rows a scan meets are those a vacuum would keep |
| ItemScan.AdvancedRest | database/src/storage/page_data_manager.c:27-58 | a cursor that skips only invisible slots yields the rest of the visible entries |
| ItemScan.ItemIterator.Begin | database/src/storage/page_data_manager.c:94-116 | the iterator stands on the first visible entry of the group, or is empty |
| ItemScan.ItemIterator.NextSlot | database/src/storage/page_data_manager.c:30-52 | the slot looked at next is the next of the page, or slot 0 of the next page whatever its count |
| ItemScan.ItemIterator.Preload | database/src/storage/page_data_manager.c:27-58 | the loop ends on the next entry neither deleted nor new, or at the end of the chain |
| ItemScan.ItemIterator.Next | database/src/storage/page_data_manager.c:60-87 | the entry the cursor was on, its bytes, and the cursor on the next visible one; the error when empty |
| ItemScan.ItemIterator.DeleteItem | database/src/storage/page_data_manager.c:490-503 | the entry returned last gets the deleted flag, nothing else changes, whatever the free-space pointers of the group's pages |
| ItemScan.ItemIterator.OverwriteItem | database/src/database/record_serialization.c:178-188 | bytes of any length that stay in the page are written over the entry returned last and run over those before it, nothing else changes |
| ScanEffects.TouchesRest | database/src/storage/page_data_manager.c:27-58 | a change at or before an item already passed leaves the rest of the scan as it was |
| ScanEffects.WalkingNext | database/src/database/table_manager.c:403-447 | a scan that changes the group as it goes does to each row of the start what a walk over those rows does |
| ScanEffects.RejectIs | database/src/database/table_manager.c:485-499 | what a delete leaves of a list of rows: the rows at exactly the positions that do not match, in increasing order |
| ScanEffects.RejectCount | database/src/database/table_manager.c:485-499 | each row that does not match as often as before, no row that matches |
| Tables.MarkWhere | database/src/database/table_manager.c:464-499 | each entry keeps its payload, and gets the deleted bit if and only if it was neither deleted nor new and its payload matches, though the scan flags as it goes; free-space pointers and links stay as right or wrong as they were |
| Tables.DeleteWhere | database/src/database/table_manager.c:455-505 | with nothing pending, row i afterwards, those the vacuum loses counted in, is the row that was at at[i], at being the increasing list of exactly the positions that do not match; each such row as often as before; on the pages a vacuum makes of them; the table can be read again, and written again in exactly the cases of the vacuum; also on a table with a stale head or blind pages |
| Tables.PatchWhere | database/src/database/table_manager.c:403-447 | when no matching row grows, each visible match starts with its update, ends with what the update does not cover and keeps its flags, and every other entry is as it was; when a single row matches, of any length, its page is the page overlaid with it and the other pages are as they were |
| Tables.PatchedInOrder | database/src/database/table_manager.c:403-447 | rows of any length: the matching entries are written over one after the other in scan order, each on the pages that those before it left, and all of them |
| Tables.PatchedOnce | database/src/database/table_manager.c:439-440 | a single match: the page is overlaid with its update, also when that is longer |
| Tables.PatchedAlone | database/src/database/table_manager.c:439-440 | no matching row grows: what each entry becomes, written out |
| Tables.PatchedIsMapped | database/src/database/table_manager.c:439-440 | when no matching row grows, each is replaced by its update and nothing else changes |
| Tables.ReplaceItem | database/src/database/table_manager.c:441-445 | deleting the row and inserting its update leaves what the scan has still to see as it was, and exchanges one row in the multiset |
| Tables.ReinsertWhere | database/src/database/table_manager.c:403-447 | the scan meets every row visible before exactly once, in order, and none of its own replacements, and ends; the pages it leaves are a function of the pages before |
| Tables.ReinsertedSize | database/src/database/table_manager.c:442-444 | no row is lost if and only if no update of a matching row is over the item size |
| Tables.ReinsertedIs | database/src/database/table_manager.c:430-446 | row by row: what does not match stays, what matches is its update, and exactly the matches whose update is over the item size are missing |
| Tables.ReinsertedIsUpdate | database/src/database/table_manager.c:430-446 | then the rows left are the rows before with each matching one replaced by its update |
| Tables.UpdateWhere | database/src/database/table_manager.c:393-453 | with nothing pending, those the vacuum loses counted in: in place, when no matching row grows, row i is the update of row i followed by what that does not cover if it matches, and row i if not; reinserted, the rows met at exactly the positions whose update is not over the item size, each replaced by its update if it matches; the pages as a function of the pages before; written again in exactly the cases of the vacuum; in place also on a table with a stale head or blind pages |
| Tables.FindOne | database/src/database/table_manager.c:309-353 | the first row in scan order that matches, or the error if and only if there is none |
| Engine.Step | database/src/database/table_manager.c:369-505 | one operation on the store makes exactly these pages with these wrong pointers, and follows the operation on multisets of rows, with the rows lost back |
| Engine.Run | database/src/database/table_manager.c:369-505 | over every run, as written or with the two repairs, the pages are a function of the operations and each table is the multiset of rows its operations make it, but for the rows lost |
| Engine.RunLoses | database/src/database/table_manager.c:369-505 | each operation of a run has its outcome on the multisets of rows if and only if its vacuum loses no row; with the repairs it always has |
| Engine.RepairedRun | database/src/database/table_manager.c:369-505 | with the repairs no table ever has a blind page or a stale head |
| Engine.AbstractStepUnique | database/src/database/table_manager.c:369-505 | an operation has one outcome on multisets of rows |
| Engine.UpdatedIs | database/src/database/table_manager.c:393-453 | the outcome of an update on a table, row by row, in either form |
| Engine.DeleteByBag | database/src/database/table_manager.c:455-505 | the rows left by a delete do not depend on the order of the rows |
| Engine.UpdateByBag | database/src/database/table_manager.c:393-453 | nor do those left by an update, in either form |
| RecordViews.LookAheadSelects | database/src/database/domain/record/record_view.c:24-58 | one look ahead takes the first selected record and leaves exactly the others |
| RecordViews.ExtendTakesFirst | database/src/database/domain/record/record_view.c:39-50 | each joined row is the first of its table that matches what was filled before it |
| RecordViews.ExtendIs | database/src/database/domain/record/record_view.c:39-50 | a main row is extended to r if and only if r is that row followed by the first match of each joined table, and to nothing if and only if some joined table has no match for what was filled before it |
| RecordViews.SelectedIs | database/src/database/domain/record/record_view.c:24-58 | the records selected are those of exactly the main rows, up to the first without a record, whose record satisfies WHERE, in increasing order |
| RecordViews.LookAheadIs | database/src/database/domain/record/record_view.c:24-58 | one look ahead passes over rows whose record fails WHERE and stops at the first record that satisfies it, at the end, or at a row without a record |
| RecordViews.RecordView.FindJoins | database/src/database/domain/record/record_view.c:39-50 | the holder is filled table by table, or the error of the first table without a match |
| RecordViews.RecordView.LookForNext | database/src/database/domain/record/record_view.c:24-58 | the loop ends with a record that satisfies WHERE in the holder, the next one by LookAheadIs, or at the end of the main table, or with the error of a main row without a match |
| RecordViews.RecordView.Next | database/src/database/domain/record/record_view.c:16-61 | the record looked ahead before is returned and not overwritten; the other holder gets the record of the next main row whose record satisfies WHERE, all rows passed over having one that fails it, or the cursor is empty, or the error; without a next record the holders are swapped and nothing is looked for |
| RecordViews.Query | database/src/database/table_manager.c:267-300 | the records are those of exactly the main rows that satisfy WHERE, strictly increasing in scan order, each the main row followed by first matches, up to the first main row without a match in some joined table; the error if and only if there is such a row, and then the last of these records is lost |
| PageCache.HitSound | database/src/file/page_manager.c:98-105 | a hit marks the entry and changes what no page reads |
| PageCache.ReuseRead | database/src/file/page_manager.c:85-96 | reusing an entry keeps the page it held if and only if the entry is marked or agrees with the file |
| PageCache.LoadRefines | database/src/file/page_manager.c:85-96 | a miss brings the page in, leaves the mark of the entry as it was, and changes what no page reads |
| PageCache.GetRefines | database/src/file/page_manager.c:136-152 | the entry returned holds the page, no page is visible twice, every page reads as before |
| PageCache.CreateRefines | database/src/file/page_manager.c:115-134 | a new page reads as zeroes, every other as before |
| PageCache.PutRefines | database/src/file/page_manager.c:136-152 | a write through the pointer changes what that page reads and no other |
| PageCache.PutTracked | database/src/file/page_manager.c:85-105 | the write is safe from eviction if and only if the entry is marked as altered or the file agrees with it |
| PageCache.HitsAreProper | database/src/file/page_manager.c:98-105 | a write through a hit is always safe |
| PageCache.ProperExactly | database/src/file/page_manager.c:85-105 | a write is through a marked entry if and only if the page is in the cache or the entry it will take over is marked |
| PageCache.FlushRefines | database/src/file/page_manager.c:158-175 | flush changes what no page reads and makes the file equal the list of pages |
| PageCache.ServeRefines | database/src/file/page_manager.c:115-175 | each request follows the same request on the plain list of pages; a fetch returns the last write |
| PageCache.RunRefines | database/src/file/page_manager.c:115-175 | over every run in which writes go through marked entries the cache stands for the plain list of pages |
| PageCache.OpenedHolds | database/src/file/page_manager.c:188-202 | a cache just built over a complete file stands for it |
| PageCache.LostWrite | database/src/file/page_manager.c:85-96 | a run from an empty file, with one entry, in which a write after a miss is lost |
| PageCache.KeptWrite | database/src/file/page_manager.c:53-96 | the same accesses with no flush before: the mark of the entry taken over stays, and the write is kept |
| PageCache.ResetKeeps | database/src/file/page_manager.c:62-69 | resetting the counter loses nothing if and only if every visible entry agrees with the file |
| CacheRecency.ServeClocked | database/src/file/page_manager.c:71-83 | no visible entry is ahead of the counter, and unless the last request was a creation only the page accessed last carries its current value; every request keeps this |
| CacheRecency.BuiltClocked | database/src/file/page_manager.c:188-202 | a cache just built has this clock, and its next value is fresh |
| CacheRecency.VictimIs | database/src/file/page_manager.c:40-51 | a page's entry is taken over if and only if, with the page touched now, the pages ahead of it are as many as there are entries; ahead is by value, then by index |
| CacheRecency.FetchedStays | database/src/file/page_manager.c:136-152 | a page fetched stays in its entry through every run that touches fewer other pages than there are entries |
| CacheRecency.FetchedStaysExactly | database/src/file/page_manager.c:40-51 | in a run that leaves the page alone it is still cached if and only if fewer others were touched than there are entries |
| CacheRecency.CreatedStays | database/src/file/page_manager.c:115-134 | a created page stays in its entry through every run in which the pages ahead of it and those touched are fewer than there are entries |
| CacheRecency.CreatedStaysExactly | database/src/file/page_manager.c:40-51 | in a run that leaves the page alone that bound is exact when the page took the first entry or the run does not start with a creation; otherwise the creations at the start do not evict it, and the bound is exact after them |
| CacheRecency.NothingAhead | database/src/file/page_manager.c:40-51 | nothing is ahead of a created page if and only if no entry behind the one it took carries its value |
| CacheRecency.CreationsSpare | database/src/file/page_manager.c:115-134 | creations in a row never evict a page that shares their value from an entry other than the first |
| CacheRecency.NewestEvicted | database/src/file/page_manager.c:115-134 | four creations in a cache of two entries: the third page, the newest, is evicted and the second, which was ahead of it, stays |
| CacheRecency.OlderSpared | database/src/file/page_manager.c:115-134 | two entries, a page in the second, two creations: the newer of the two others goes and the page stays |
| PageManagers.PageManager.GetLeastRelevantEntry | database/src/file/page_manager.c:40-51 | an entry of least relevancy, the first of them |
| PageManagers.PageManager.GetRelevancyValue | database/src/file/page_manager.c:71-83 | the counter grows by one unless the page is the one accessed last; at its maximum it starts again at one and every entry is hidden |
| PageManagers.PageManager.LoadPageFromResolver | database/src/file/page_manager.c:85-96 | the least relevant entry is written back if marked, then holds the page as it is on file, with the current value and the mark it had; every other entry stays |
| PageManagers.PageManager.LoadPageFromCache | database/src/file/page_manager.c:98-105 | the entry is marked and gets the current value, and nothing else of the cache changes |
| PageManagers.PageManager.GetPage | database/src/file/page_manager.c:136-152 | the loop finds the visible entry if there is one, otherwise the page is loaded; the entry returned is marked if and only if the page was visible or the entry taken over was marked |
| PageManagers.PageManager.CreatePage | database/src/file/page_manager.c:115-134 | the least relevant entry is written back if marked, then is marked and holds a page with a new id whose bytes are all 0; every other entry stays |
| PageManagers.PageManager.Flush | database/src/file/page_manager.c:158-175 | the loop writes back, hides and unmarks exactly the marked entries, the others stay |
| PageManagers.PageManager.FlushOne | database/src/file/page_manager.c:53-60 | a marked entry is on file afterwards, and the header with it |
| PageManagers.HoldsUpdate | database/src/file/page_manager.c:85-105 | fetch and write in place: the cache stands for the updated pages if and only if the entry is marked or the write changes nothing |
| PageManagers.ServeRequest | database/src/file/page_manager.c:115-175 | a request on the cache array and the file bytes follows the request on the cache as a value, and on the plain list of pages |
| PageManagers.Close | database/src/file/page_manager.c:177-182 | after the flush the file, opened again, has the current headers and exactly the list of pages |
| PageManagers.Session | database/src/file/page_manager.c:115-182 | after any run of requests and a close the bytes of the file hold exactly the pages the requests make on a plain list, and the manager is still valid |
| PageManagers.OpenAgain | database/src/file/page_resolver.c:135-163 | a file left by a close opens with the same headers and exactly its pages |
| PageManagers.Sessions | database/src/file/page_manager.c:115-202 | from a new file on, after any number of sessions, each opening the file the one before closed, the file holds exactly the pages all requests make on a plain list |
| PageFile.ApartExactly | database/src/file/page_resolver.c:18-21 | pages 1..n and both headers occupy disjoint bytes if and only if the offset of page n fits in 32 bits |
| PageFile.WrappedCollides | database/src/file/page_resolver.c:18-21 | the first page past that lies in the headers or on page 1 |
| PageFile.WriteKeepsOthers | database/src/file/page_resolver.c:61-73 | a page write changes no other page and no header |
| PageFile.HeaderWriteKeepsPages | database/src/file/page_resolver.c:23-41 | a header write changes no page |
| PageFile.HeaderRoundTrip | database/include/database/private/file/page_resolver.h:15-20 | the packed 22-byte header reads back as written |
| PageFile.PageResolver.Create | database/src/file/page_resolver.c:81-91 | a new file holds both headers, as they are in memory, and no page |
| PageFile.HeaderOfRoundTrip | database/include/database/private/file/page_resolver.h:15-20 | any 22 bytes are the packing of the header read from them |
| PageFile.HeaderLayout | database/include/database/private/file/page_resolver.h:15-20 | the bytes in which the header has its type, offset, page size and page amount, lowest first |
| PageFile.PageResolver.Reopen | database/src/file/page_resolver.c:135-163 | a file of this format opens with the headers and pages its bytes hold, and its header counts as current |
| PageFile.OpenExactly | database/src/file/page_resolver.c:135-163 | by its bytes: a file is refused for its type, not read when shorter than its headers, and otherwise opened with the headers these bytes are |
| PageFile.PageResolver.WriteHeader | database/src/file/page_resolver.c:23-27 | the header on file becomes current, every page and the application header stay |
| PageFile.PageResolver.GetNewPageId | database/src/file/page_resolver.c:43-49 | the next id, and the header on file counts as stale |
| PageFile.PageResolver.WritePage | database/src/file/page_resolver.c:61-73 | the file holds the page, every other page as before, and the current header |
| PageFile.PageResolver.ReadPage | database/src/file/page_resolver.c:51-59 | a page written reads as written last |
| PageFile.PageResolver.FlushApplicationHeader | database/src/file/page_resolver.c:37-41 | the application header on file becomes current, every page stays |
| PageFile.Reopened | database/src/file/page_resolver.c:135-163 | a file whose header is current opens again with the same header, application header and pages |
| RecordCodec.PackBytes | database/src/database/record_serialization.c:145-176 | the bytes of each column: numbers lowest byte first, a negative one as its two's complement, a string as its length in eight bytes and its characters, true as 1 and false as 0 |
| RecordCodec.PackAllJoin | database/src/database/record_serialization.c:178-188 | the columns are packed one after the other in order |
| RecordCodec.PackAllSize | database/src/database/record_serialization.c:117-143 | the size computed beforehand is the size packed |
| RecordCodec.ColumnRoundTrip | database/src/database/record_serialization.c:67-100 | one packed column is read back, and exactly its bytes are consumed |
| RecordCodec.RecordRoundTrip | database/src/database/record_serialization.c:101-206 | for every schema, well-typed record and column offset, reading what was packed gives the same values, consumes exactly the computed size and leaves every other column |
| RecordCodec.RecordReadPacks | database/src/database/record_serialization.c:101-115 | whatever the reader accepts is the packing of the values it returns |
| RecordCodec.StringStaysExactly | common/src/util/string.c:38-47 | a string is accepted if and only if its length is at most what is left, and stays in the item if and only if that holds with the length field added |
| RecordCodec.StringPastEnd | common/src/util/string.c:38-47 | an item of ten bytes read three bytes past its end |
| RecordCodec.FixedErrors | database/src/database/record_serialization.c:22-59 | when a column of fixed size is refused, and as what: too little left of the item, or a byte over 1 for a bool |
| RecordCodec.FixedColumnsStay | database/src/database/record_serialization.c:22-39 | without string columns the reader never leaves the item |
| RecordCodec.StringPack | common/src/util/string.c:70-73 | the length and the characters are written at the place given, nothing else changes |
| RecordCodec.SerializeColumn | database/src/database/record_serialization.c:145-176 | the packed column is written at the offset, nothing else changes, and the offset moves by its size |
| RecordCodec.RecordSerializeInto | database/src/database/record_serialization.c:178-188 | the packed record is written at the front of the item, the rest stays |
| RecordCodec.RecordSerialize | database/src/database/record_serialization.c:190-206 | a new item that is exactly the packed record |
| RecordCodec.RecordDeserialize | database/src/database/record_serialization.c:101-115 | the loop fills the columns in order and stops at the first error, the columns from there on as they were |
| UnrolledQueue.Queue.InsertFirst | common/src/util/queue.c:55-60 | the first entry gets the first node |
| UnrolledQueue.Queue.InsertIntoLast | common/src/util/queue.c:62-64 | an entry that fits joins the last node |
| UnrolledQueue.Queue.InsertIntoNew | common/src/util/queue.c:65-71 | an entry that does not fit gets a new last node |
| UnrolledQueue.Queue.PushBack | common/src/util/queue.c:51-73 | the queue's sequence is one longer, every node but the last is full, and the place returned holds the entry, or what the place held when none is given |
| UnrolledQueue.Queue.Get | common/src/util/queue.c:75-89 | the i-th entry pushed, by division and remainder, or the error if and only if there is none |
| UnrolledQueue.Queue.Clear | common/src/util/queue.c:90-103 | every entry is handed to the destructor once, in push order, and the queue is empty |
| UnrolledQueue.QueueIterator.HasNextExactly | common/src/util/queue.c:117-127 | has-next holds if and only if fewer entries were yielded than pushed |
| UnrolledQueue.QueueIterator.Next | common/src/util/queue.c:129-142 | the entry with the number of those yielded before, or the error at the end |
| UnrolledQueue.Drain | common/src/util/queue.c:109-142 | an iterator yields all entries in push order and then stops |

## Left out

What the repository does and the model does not:

- `vacuum_page` (page_data_manager.c:269-340) is not called anywhere in the original.
- The Thrift service and its mappers, the lexer and parser, and the dispatch of statements.
- The table catalog: creating and finding tables by name is insert, find and delete on one more table.
- Expressions and predicates: predicates and updates are total functions of a row's bytes.
- File errors, memory allocation and freeing, error texts; an error is kept where it changes a result.
- Deserialization errors inside scans: a scan hands the bytes of the item to its predicate.
- Floating-point values are their four bytes.
- The page is kept as links, counters and contents, not as one run of 128 bytes; the layers above the cache work on
  these pages directly, and the cache is proved by itself against a plain list of pages. That a pointer into the
  cache held by an upper layer outlives the entry it points to is not modelled.
- Iterators hold a page id and read the page again when asked for it; the repeated cache accesses this makes are not
  counted.
- The byte that `string_new` copies behind a string, and clearing a record holder before it is filled.

Statements that ask for more, or say less, than a reader may expect:

- Engine.Run: rows between the room in a page and the item size (six bytes) are excluded, and so is an update in place
  that makes a row longer. What happens then is stated by PageStorage.PageDataManager.Insert,
  SlottedPage.PatchSparesExactly and Tables.PatchWhere. As the code has it, every update in place of a table with no
  deleted row, and every delete without a match, leaves the last page blind (VacuumLayout.IdleVacuumBreaksLayout); runs
  go on from there as long as operations are covered: no row is removed before a blind page other than the last, and
  a table whose head is stale takes a row only into its head. What an insertion does otherwise is stated by
  PageStorage.PageDataManager.Insert.
- Engine.Step: the same.
- PageStorage.PageDataManager.Insert: with a stale head the page it names is not of the group, and the pages looked at
  end within the page.
- PageGroups.PageGroupManager.AddPage: the same for the page a stale head names.
- Tables.PatchWhere: no update runs over the end of its page; PatchStaysInPage says when it would.
- Tables.ReplaceItem: updated rows in the six bytes are excluded, and groups with a stale head or blind pages.
- Tables.ReinsertWhere: the same.
- Tables.UpdateWhere: the same conditions for its two forms.
- Vacuum.Vacuum: nothing is removed before a blind page other than the last; a compaction that starts there may write
  over that page.
- PageManagers.PageManager.GetPage: the page is in the cache or on file; the original reports a read error otherwise.
  PageManagers.HoldsFinds shows that this holds for every id minted before. The counter is below its maximum;
  PageCache.ResetKeeps says what the reset at the maximum costs.
- PageManagers.PageManager.CreatePage: the same for the counter, and the page's offset fits in 32 bits.
- PageManagers.Session: writes go through marked entries, the offset of the last page fits in 32 bits, and the counter
  stays within its maximum.
- PageFile.PageResolver.WritePage: the page's offset fits in 32 bits; PageFile.ApartExactly says what happens beyond.
- PageManagers.Sessions: the same, for each session.
- RecordViews.RecordView.FindJoins: a join predicate sees the rows of the tables before it and its own.
- UnrolledQueue.QueueIterator.Next: an iterator made over an empty queue stays empty, as in the original.
