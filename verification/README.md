# A verified model of the client's stateful components

This project models the components of the client that keep state across calls, and the server's
receiving end, and proves what they promise. Each `.dfy` file holds one module; `dafny verify
dfyconfig.toml` checks them all.

| file | what it models | main results |
|---|---|---|
| Bytes.dfy | bytes and words on the wire | the bytes of a word in both orders, by position, and back |
| RingBuffers.dfy | `QRingBuffer`, a list of blocks with two cursors | every operation has its meaning on one plain byte sequence; exactly when `reserve`, `getChar` and `readPointerAtPosition` can be relied on |
| HistoryFilter.dfy | `HistoryFilterModel` | the index kept row by row is the one a rebuild finds |
| HistoryTree.dfy | `HistoryTreeModel` | the cached rows are exactly those with another date than the row above; both mappings are inverse; exactly when a removal in place, of one row or of several, agrees with a rebuild |
| HistoryMenu.dfy | `HistoryMenuModel` | the tree and the root of the menu by position; what the menu lists, and exactly when it lists every row once |
| HistoryLog.dfy | `HistoryManager` | what any file reads as, newest entry first, and exactly when it needs a sort; exactly when a save makes the append log read as the list in memory, title changes included; what the next session loads |
| Sigslot.dfy | signals and slot holders | no live signal leads to a destroyed holder; a copied holder is called like the original, slot by slot |
| Bookmarks.dfy | bookmark nodes, undo commands, the model's notifications | what each command changes, field by field; every run of the undo stack keeps the tree it should |
| BookmarksLoad.dfy | what loading makes of the bookmarks file | where every child of the root goes, and that a session changes nothing |
| Xbel.dfy | the XBEL reader and writer | the fields of every node read, from its elements; exactly which trees survive a file, and what comes back of the others |
| LokiFraming.dfy | length-prefixed frames, client and server | the frames handed out are the frames sent, however the stream is cut; what becomes of them between hosts of different byte order |
| DigestChallenge.dfy | HTTP authentication challenges | parsing gives back what was written; which header is chosen, by name and order |
| Ntlm.dfy | the NTLM authenticate message | its fields byte by byte; exactly when descriptors select their payloads |
| Board.dfy | the drawing board | undo and redo by position; what the reader makes of any token stream |
| AutoSaving.dfy | `AutoSaver` | exactly when a change is saved at once; every change is saved in time |

Code that changes things in place is modelled by classes whose methods have loops and are proved
against functions on values; what the program promises is then proved about these functions, and as
invariants (`Valid`, `Linked`, `Invariant`) that every method keeps, or says exactly when it does.

Where the code does not do what it seems meant to do, the code is kept, and the exact condition under
which it does is proved:

- `QRingBuffer::reserve` on a buffer without bytes but with several blocks
  (Client/src/common/qringbuffer_p.h:155) hands out memory that is not the end of the buffer, and
  `getChar` and `readPointerAtPosition` have conditions of their own (`Reserve`, `GetChar`,
  `ReadPointerAtPosition`).
- `HistoryTreeModel::mapFromSource` (Client/src/browser/history.cpp:1247) reads behind its list for
  rows after the start of the last date (`UncheckedMapping`). Everything that uses it is proved with
  the search as written, for any value behind the list: the menu lists every row exactly if that value
  is no row that a folder lists below the last start (`MenuListsEveryRow`), and whatever it is exactly
  if the last date has one row or all rows of the one date are moved up (`MenuCanBeReliedOn`).
  `CheckedMenuListsEveryRow` alone is about the search repaired by a check of the end of the list.
- `HistoryTreeModel::sourceRowsRemoved` leaves a right cache for one row unless two dates merge
  (`RemovedOneRow`), for several rows in date order in four cases only (`RemovedSeveralRows`).
- `HistoryManager::save` (Client/src/browser/history.cpp:312) finds its place by URL, so it loses
  entries when the last saved page is visited again (`Save`, `SavesWellMeans`). `updateHistoryItem` takes
  a page for saved when none is known to be (Client/src/browser/history.cpp:193-205), so that a first
  visit whose title arrives is never written (`RetitleFirstVisit`). `UpdateHistoryItem` and
  `RetitleAndSave` say for every valid state and every title change whether the next save makes the
  file read as the list; it does when that save repeats one record, which reading skips.
- The history menu of an empty history has -1 rows (`EmptyHistoryMenu`).
- `signal1::disconnect` (SharedCode/sigslot_loki.h:623) forgets the sender although further
  connections to the same holder may be left (`Disconnect`).
- `XbelReader::readSeparator` (Client/src/browser/xbel.cpp:199) takes exactly one token, so its folder
  ends where it should only for an empty separator (`SeparatorMustBeEmpty`). `XbelWriter` writes a
  description as an attribute when it is too late for one (Client/src/browser/xbel.cpp:273;
  `RoundTrip`).
- `BookmarksManager::load` (Client/src/browser/bookmarks.cpp:115-137) drops every folder at the top
  that is neither the bar nor the menu (`KeepsAllExactlyWhen`).
- Undoing an insertion gives the tree back only for a node that had no parent
  (`UndoInsertNeedsDetached`).
- The NTLM descriptors point behind their payloads after a payload of odd length
  (`DescriptorsSelectPayloads`, `PointAtStarts`, `OddDomain`).
- A frame built on a big-endian host (SharedCode/LokiReceiveBuffer.cpp:50-66) has its length in the
  wrong order, and such a server reads lengths in that order (`BuildFrame`, `OtherHostReads`).

## Model

| member | source | states |
|---|---|---|
| Bytes.BytesOfWord | Client/src/common/LokiSocket.cpp:68-87 | the bytes of a word, most significant first, are n / 16777216, n / 65536 % 256, n / 256 % 256 and n % 256; low byte first, the other way round |
| Bytes.WordOfBytes | Client/src/common/LokiSocket.cpp:136-140 | the word that four bytes stand for, in either order |
| Bytes.TakeAndDrop | Client/src/common/qringbuffer_p.h:329-334 | what is taken off the front and what is left are the whole, and as much is taken as there is |
| RingBuffers.QRingBuffer.constructor | Client/src/common/qringbuffer_p.h:62-65 | a new buffer holds nothing and is ready |
| RingBuffers.QRingBuffer.NextDataBlockSize | Client/src/common/qringbuffer_p.h:67-69 | the number of bytes that can be read in one piece: never more than what is held nor past the first block, and all of it when there is one block |
| RingBuffers.QRingBuffer.EmptyMeansReady | Client/src/common/qringbuffer_p.h:225-227 | `isEmpty` holds exactly when nothing is held and everything is in one block |
| RingBuffers.QRingBuffer.Clear | Client/src/common/qringbuffer_p.h:258-266 | afterwards nothing is held and one block is left |
| RingBuffers.QRingBuffer.Free | Client/src/common/qringbuffer_p.h:121-151 | drops the first min(bytes, size) bytes; always ends ready; removes blocks even when asked for no bytes, which makes the read loops terminate |
| RingBuffers.ReserveInDrainedBlocks | Client/src/common/qringbuffer_p.h:154-160 | with no bytes but several blocks left, the branch for a fresh buffer makes room exactly when the cursor stands at the new end of the first block and the last block is large enough |
| RingBuffers.QRingBuffer.ReserveFresh | Client/src/common/qringbuffer_p.h:154-160 | the branch for an empty buffer keeps the buffer consistent if and only if that is safe |
| RingBuffers.QRingBuffer.ReserveMore | Client/src/common/qringbuffer_p.h:162-188 | extends the content by the bytes asked for, in each of the three ways, without moving what is held |
| RingBuffers.QRingBuffer.Reserve | Client/src/common/qringbuffer_p.h:153-188 | keeps the buffer consistent if and only if it was ready (or the accidental case above); then the old content is a prefix of the new one and the place returned is its end |
| RingBuffers.QRingBuffer.PutChar | Client/src/common/qringbuffer_p.h:237-240 | appends one byte, if and only if the reservation is safe |
| RingBuffers.QRingBuffer.Chop | Client/src/common/qringbuffer_p.h:195-223 | drops the last min(bytes, size) bytes; says exactly when the buffer is left unready |
| RingBuffers.QRingBuffer.Truncate | Client/src/common/qringbuffer_p.h:190-193 | keeps a prefix |
| RingBuffers.QRingBuffer.GetChar | Client/src/common/qringbuffer_p.h:229-235 | takes one byte off the front; the byte returned is the right one exactly under the condition stated |
| RingBuffers.QRingBuffer.UngetChar | Client/src/common/qringbuffer_p.h:242-252 | puts one byte in front, in a new block when the first has no room; consistent afterwards if and only if there was room or blocks have a size |
| RingBuffers.FindInConcat | Client/src/common/qringbuffer_p.h:268-286 | a search that fails in one block goes on in the next with the index shifted by the block length |
| RingBuffers.FindWithinStep | Client/src/common/qringbuffer_p.h:288-313 | the same for a search limited to a number of bytes |
| RingBuffers.ScanBlock | Client/src/common/qringbuffer_p.h:278-283 | the scan of one block finds the first occurrence |
| RingBuffers.QRingBuffer.IndexOf | Client/src/common/qringbuffer_p.h:268-286 | the first occurrence in the content, -1 without one |
| RingBuffers.QRingBuffer.IndexOfWithin | Client/src/common/qringbuffer_p.h:288-313 | the first occurrence within the first `maxLength` bytes |
| RingBuffers.QRingBuffer.Peek | Client/src/common/qringbuffer_p.h:388-408 | the first bytes of the content, which does not change |
| RingBuffers.QRingBuffer.ReadPointerAtPosition | Client/src/common/qringbuffer_p.h:78-119 | the address and length returned describe the content from that position on exactly outside the `head` positions behind the first block |
| RingBuffers.QRingBuffer.PointerBehindFirstBlock | Client/src/common/qringbuffer_p.h:101-118 | the walk over the later blocks is right for every position |
| RingBuffers.QRingBuffer.ReadInto | Client/src/common/qringbuffer_p.h:315-327 | moves exactly the first min(size, maxLength) bytes into memory and leaves the rest; terminates across empty blocks |
| RingBuffers.QRingBuffer.CopyInto | Client/src/common/qringbuffer_p.h:321-322 | copies the first bytes of the content to their place |
| RingBuffers.OverlayAt | Client/src/common/qringbuffer_p.h:321-322 | byte by byte what a copy leaves in the caller's memory |
| RingBuffers.QRingBuffer.ReadBytes | Client/src/common/qringbuffer_p.h:329-334 | what is returned followed by what stays is the old content, as much returned as asked for and there is; a negative length reads nothing |
| RingBuffers.QRingBuffer.ReadAll | Client/src/common/qringbuffer_p.h:336-338 | returns the whole content |
| RingBuffers.QRingBuffer.Skip | Client/src/common/qringbuffer_p.h:410-412 | drops the first bytes |
| RingBuffers.QRingBuffer.ReadBlock | Client/src/common/qringbuffer_p.h:341-377 | the block returned followed by what stays is the old content; says exactly when the buffer is left unready |
| RingBuffers.QRingBuffer.Append | Client/src/common/qringbuffer_p.h:380-386 | appends an array as a block; ready afterwards unless nothing at all is held |
| RingBuffers.QRingBuffer.ReadLine | Client/src/common/qringbuffer_p.h:414-433 | with a newline, min(index + 1, maxLength - 1) bytes and a terminator; without, what `read` gives |
| RingBuffers.QRingBuffer.ReadToNewline | Client/src/common/qringbuffer_p.h:421-428 | the loop of that: the bytes up to and with the newline, or as many as there is room for |
| RingBuffers.QRingBuffer.CanReadLine | Client/src/common/qringbuffer_p.h:435-437 | whether the content has a newline |
| RingBuffers.AppendEmptyBreaksReserve | Client/src/common/qringbuffer_p.h:153-160 | a concrete run: an empty array appended to a fresh buffer makes the next reservation unsafe |
| HistoryFilter.IndexIsUnique | Client/src/browser/history.cpp:855-871 | for every source list there is one index: list of offsets and hash |
| HistoryFilter.IndexMeans | Client/src/browser/history.cpp:855-871 | an index by rows: a row is in the list exactly when its URL does not occur above it, the hash then has its offset from the back, and the list goes down the source |
| HistoryFilter.ShownAfterPrepend | Client/src/browser/history.cpp:873-893 | which rows are shown after a prepend: the new one, and the old ones with other URLs |
| HistoryFilter.PrependKeepsIndex | Client/src/browser/history.cpp:881-891 | removing the old entry of the URL and inserting the new one gives an index of the longer list |
| HistoryFilter.LoadStep | Client/src/browser/history.cpp:862-869 | one round of the rebuild extends an index of the rows above to one row more |
| HistoryFilter.IndexSize | Client/src/browser/history.cpp:794-800 | the hash and the list of offsets have the same size, the number of different URLs |
| HistoryFilter.RemovedUrls | Client/src/browser/history.cpp:906-917 | the URLs shown in the removed rows are those of the removed source block that do not occur above it |
| HistoryFilter.WithoutBlockAt | Client/src/browser/history.cpp:915-919 | the rows above the removed block stay in place, those below move up by its size |
| HistoryFilter.ReturningMeans | Client/src/browser/history.cpp:915-926 | the URLs that come back are those of the removed block that do not occur above it but do below |
| HistoryFilter.SurvivorCount | Client/src/browser/history.cpp:906-926 | how many rows a rebuild finds after the block is gone |
| HistoryFilter.HistoryFilterModel.Load | Client/src/browser/history.cpp:855-871 | builds the index of the source |
| HistoryFilter.HistoryFilterModel.RowCount | Client/src/browser/history.cpp:794-800 | the number of visible rows |
| HistoryFilter.HistoryFilterModel.FindVisibleRow | Client/src/browser/history.cpp:817-835 | finds the visible row with the offset of a source row, if there is one |
| HistoryFilter.HistoryFilterModel.MapFromSource | Client/src/browser/history.cpp:814-838 | a source row is visible exactly when its URL does not occur above it, and then its visible row maps back to it |
| HistoryFilter.HistoryFilterModel.MapToSource | Client/src/browser/history.cpp:807-812 | a visible row shows the first occurrence of its URL; any other row none |
| HistoryFilter.HistoryFilterModel.SourceRowsInserted | Client/src/browser/history.cpp:873-893 | updating in place keeps the index, offsets from the back included |
| HistoryFilter.HistoryFilterModel.PrependAgreesWithRebuild | Client/src/browser/history.cpp:873-893 | it gives the very list and hash that a rebuild gives |
| HistoryFilter.HistoryFilterModel.RemoveBlock | Client/src/browser/history.cpp:910-926 | rows left and reset, behind the guard |
| HistoryFilter.HistoryFilterModel.RemoveRows | Client/src/browser/history.cpp:906-927 | takes the block from the first removed row to the last out of the source, row by row; leaves oldCount - count + s rows, s being the removed URLs that occur again further down; resets exactly if s > 0 |
| HistoryTree.CachedRowsAreStarts | Client/src/browser/history.cpp:1077-1088 | a row is cached exactly when its date differs from the row above, stated for every part of the list |
| HistoryTree.CachedRows | Client/src/browser/history.cpp:1077-1088 | row i is cached if and only if i is 0 or its date is not that of row i - 1 |
| HistoryTree.StartsPartition | Client/src/browser/history.cpp:1077-1088 | the cache starts at 0, increases strictly and stays below the number of rows |
| HistoryTree.OneDatePerGroup | Client/src/browser/history.cpp:1093-1096 | all rows of one group carry one date, and the row above the group another |
| HistoryTree.SizesSum | Client/src/browser/history.cpp:1093-1096 | no group is empty and the sizes add up to the number of rows |
| HistoryTree.MapFromSourceIsPlace | Client/src/browser/history.cpp:1237-1252 | the binary search as written finds the group and place of a row if and only if it is not both below the last start and what the memory behind the list holds; with the end of the list checked it would find every row |
| HistoryTree.PlaceMeans | Client/src/browser/history.cpp:1116-1123 | a place in terms of the cache: row r is as far below the start of its date as its row says, and above the next start |
| HistoryTree.PlaceIsUnique | Client/src/browser/history.cpp:1116-1123 | no row has two places |
| HistoryTree.MappingsAreInverse | Client/src/browser/history.cpp:1116-1252 | the two mappings, as written, are inverse to each other exactly on the rows that are found |
| HistoryTree.UncheckedMapping | Client/src/browser/history.cpp:1245-1251 | without the check, the mapping can be relied on exactly for rows up to the start of the last group |
| HistoryTree.StartsAfterPrepend | Client/src/browser/history.cpp:1214-1235 | the groups after a prepend |
| HistoryTree.FirstRowsDate | Client/src/browser/history.cpp:1226-1228 | the first group has one row exactly when the second row has another date |
| HistoryTree.StartsAfterRemove | Client/src/browser/history.cpp:1254-1291 | the groups a rebuild finds after the removal of one row |
| HistoryTree.WithoutRowAt | Client/src/browser/history.cpp:1254-1291 | the list after the removal of one row, by position |
| HistoryTree.WithoutRowsAt | Client/src/browser/history.cpp:1254-1291 | the list after the removal of several, by position |
| HistoryTree.RemovedOneRow | Client/src/browser/history.cpp:1254-1291 | the update in place for one removed row drops the cache or gives what a rebuild gives, if and only if no two groups merge |
| HistoryTree.SortedNeverMerges | Client/src/browser/history.cpp:1254-1291 | rows in date order never merge |
| HistoryTree.RoundKeepsPartition | Client/src/browser/history.cpp:1271-1288 | as long as there is another round, the cache stays a partition of the rows reported, so that every date keeps a positive number of rows and the next round is for a row further up: the loop ends |
| HistoryTree.KeptRounds | Client/src/browser/history.cpp:1260-1290 | rounds that take no whole date away do what a rebuild without their rows does |
| HistoryTree.RoundsMoveLast | Client/src/browser/history.cpp:1281-1288 | rounds above the last date move its start up by at most one row each |
| HistoryTree.WholeDateRemoved | Client/src/browser/history.cpp:1260-1290 | when a whole date with others below it goes, the cache is right exactly if it was a single row and the last one removed |
| HistoryTree.LastDateRemoved | Client/src/browser/history.cpp:1260-1290 | when the last date, of one row, goes with rows above it, the cache is right exactly if no date begins in the two rows above |
| HistoryTree.RemovedSeveralRows | Client/src/browser/history.cpp:1254-1291 | for rows in date order, the removal of any rows start to end leaves the cache dropped or as a rebuild finds it, if and only if no whole date goes, or the last date loses its end, or the only whole date that goes is the first row removed, or the last date of one row goes and no date begins in the two rows above |
| HistoryTree.RemovedTwoRowsFails | Client/src/browser/history.cpp:1281-1288 | a concrete removal of two rows after which the cache is wrong |
| HistoryTree.HistoryTreeModel.DateCount | Client/src/browser/history.cpp:1073-1090 | the count fills the cache with exactly the rows whose date differs from the row above, in order |
| HistoryTree.HistoryTreeModel.CountDates | Client/src/browser/history.cpp:1075-1089 | the loop of that |
| HistoryTree.HistoryTreeModel.SourceDateRow | Client/src/browser/history.cpp:1100-1114 | where a group starts; beyond the last, the number of rows |
| HistoryTree.HistoryTreeModel.SourceRowsInserted | Client/src/browser/history.cpp:1214-1235 | for a row in front, a new date is announced if and only if the row below has another date, and the change announced to views, applied to the old groups, gives the new ones, whatever the memory behind the cache holds; for any other rows the cache is dropped |
| HistoryTree.HistoryTreeModel.RemoveOneRound | Client/src/browser/history.cpp:1271-1288 | one round: the cache stays a partition for as long as there are rounds, and the next one is for a row further up |
| HistoryTree.HistoryTreeModel.RemoveLoop | Client/src/browser/history.cpp:1260-1290 | the loop over the removed rows, the last one first |
| HistoryTree.HistoryTreeModel.MoveEntriesUp | Client/src/browser/history.cpp:1287-1288 | the loop that moves the later entries |
| HistoryTree.HistoryTreeModel.SourceRowsRemoved | Client/src/browser/history.cpp:1254-1291 | dropped or equal to a rebuild: for a single row exactly unless groups merge, for any rows in date order exactly in the four cases |
| HistoryMenu.TreeShape | Client/src/browser/history.cpp:1061-1142 | the tree by depth: the root has the dates, a date the rows from its own start to the next, a row nothing below it; going up leads back |
| HistoryMenu.RootShape | Client/src/browser/history.cpp:489-514 | the root of the menu by position: the rows of the first date, fifteen at most, and then a folder for every date that has rows left |
| HistoryMenu.NothingBelow | Client/src/browser/history.cpp:502-527 | nothing stands below a row of the menu if and only if the row is not lost; below a lost one the menu counts every date once more |
| HistoryMenu.FolderFacts | Client/src/browser/history.cpp:502-548 | which date a folder of the menu is for and how many rows it lists |
| HistoryMenu.SearchFacts | Client/src/browser/history.cpp:1237-1252 | what the search as written finds for a row: its place, or nothing when the row is below the last start and is what the memory behind the cache holds |
| HistoryMenu.ChildFacts | Client/src/browser/history.cpp:555-575 | which row a child of a folder is for, and what it shows |
| HistoryMenu.MenuLists | Client/src/browser/history.cpp:489-575 | what the menu of a non-empty history lists, with the search as written: every row in order, but for the one row that is lost |
| HistoryMenu.MenuListsEveryRow | Client/src/browser/history.cpp:489-575 | it lists every row exactly once, in order, if and only if the memory behind the cache does not hold a row that a folder lists below the last start |
| HistoryMenu.MenuCanBeReliedOn | Client/src/browser/history.cpp:489-575 | it does so whatever that memory holds, if and only if the last date has one row, or there is one date and all its rows are moved up |
| HistoryMenu.CheckedMenuListsEveryRow | Client/src/browser/history.cpp:489-575 | not the code as it is but the repaired search, with the end of the cache checked: then the menu of every non-empty history lists every row |
| HistoryMenu.EmptyHistoryMenu | Client/src/browser/history.cpp:507-514 | the number of root rows is not negative if and only if there is a history; without one it is -1 |
| HistoryMenu.ParentOfChild | Client/src/browser/history.cpp:577-592 | `parent(index(r, c, p)) == p`, from the root always, from a folder if and only if the child is not the row that is lost |
| HistoryLog.LoadedIsLoadable | Client/src/browser/history.cpp:251-288 | a list read without a need to sort can be written and read again |
| HistoryLog.LoadableMeans | Client/src/browser/history.cpp:260-288 | a list can be written and read again without a sort if and only if all entries have times, the newest is first, and no two neighbours are equal |
| HistoryLog.FileReadsAs | Client/src/browser/history.cpp:260-288 | what any file reads as: its entries of version 23 with a valid time, each run of equal ones once, newest record first; a sort is needed if and only if among these entries one has an earlier time than another before it |
| HistoryLog.LoadLog | Client/src/browser/history.cpp:260-288 | reading the records of new entries after those of a readable list puts them in front, if and only if the whole is readable |
| HistoryLog.TimeoutDecides | Client/src/browser/history.cpp:161-168 | the capped timeout is positive exactly for unexpired entries; in milliseconds it stays below 8 * 86400 * 1000 |
| HistoryLog.TimeoutIs | Client/src/browser/history.cpp:161-168 | the timeout is the time until the entry is the limit's days old, seven days at most |
| HistoryLog.UnexpiredMeans | Client/src/browser/history.cpp:160-175 | what expiry from the end leaves, in seconds: every entry it drops is the limit's days old, the last it leaves is not |
| HistoryLog.KeptMeans | Client/src/browser/history.cpp:152-179 | the same with a limit that may be negative, when nothing goes |
| HistoryLog.ExpiryKeepsLiving | Client/src/browser/history.cpp:160-175 | expiry from the end keeps exactly the unexpired entries if and only if no expired one stands above an unexpired one |
| HistoryLog.NewestFirstExpiresAtEnd | Client/src/browser/history.cpp:160-175 | a list with the newest entry first is such a list |
| HistoryLog.KeptAboveGone | Client/src/browser/history.cpp:160-175 | expired entries at the end of a list make no difference to what expiry leaves |
| HistoryLog.LoadableOverlap | Client/src/browser/history.cpp:260-288 | lists that overlap in an entry are readable together exactly if each is |
| HistoryLog.SaveAllReads | Client/src/browser/history.cpp:346-362 | a new file reads back as the list if and only if the list is readable |
| HistoryLog.SaveNewReads | Client/src/browser/history.cpp:346-353 | an append reads back as the whole list if and only if nothing was left out and the whole is readable |
| HistoryLog.AppendReads | Client/src/browser/history.cpp:260-288 | records appended to a file that reads as a list put their entries in front of it exactly if the whole is readable |
| HistoryLog.HoldsDropped | Client/src/browser/history.cpp:160-175 | an entry that expires stays in the file, below those that the list still has |
| HistoryLog.ReadsAsMeans | Client/src/browser/history.cpp:260-288 | a file reads as a list and expired entries below it exactly if it needs no sort, starts with the list, and the rest has expired |
| HistoryLog.AddedBySave | Client/src/browser/history.cpp:307-353 | when a save makes the file read as the list, it has added exactly the entries that the file did not hold, and the file had the others as they are now |
| HistoryLog.RepeatedRecord | Client/src/browser/history.cpp:260-288 | a save that writes the newest saved record once more makes the file read as the list exactly if that is readable |
| HistoryLog.TooManyRecords | Client/src/browser/history.cpp:260-288 | a save that writes two or more of the saved records again never does |
| HistoryLog.SavedWithTitle | Client/src/browser/history.cpp:193-363 | with a page known to be saved last, a title change and then a save make the file read as the list exactly if that is readable, the page was not visited again, and the entry is above the saved part or keeps its title |
| HistoryLog.SavedWithNewTitle | Client/src/browser/history.cpp:193-363 | with none known, exactly if the list is readable, the title does not change, the entry is the newest saved one or the one below, the file needs no sort, and no saved title is another than it was |
| HistoryLog.SavedAfterTitle | Client/src/browser/history.cpp:193-363 | that for every manager state, page and title |
| HistoryLog.HistoryManager.constructor | Client/src/browser/history.cpp:69-75 | an empty list and an empty file, with the given limit |
| HistoryLog.HistoryManager.SavesWellMeans | Client/src/browser/history.cpp:301-363 | in every valid state a save makes the file read as the list exactly if the list is readable and no entry added since the last save has the URL saved last |
| HistoryLog.HistoryManager.CheckForExpired | Client/src/browser/history.cpp:152-179 | drops from the end what is the limit's days old and stops at the first entry that is not, forgets what was saved if anything went, and starts the timer for the time until the last entry left expires, seven days at most; in any state |
| HistoryLog.HistoryManager.DropExpired | Client/src/browser/history.cpp:158-175 | the loop of that |
| HistoryLog.HistoryManager.DropLast | Client/src/browser/history.cpp:171-174 | the oldest entry goes, and with it what was known to be saved |
| HistoryLog.HistoryManager.AddHistoryItem | Client/src/browser/history.cpp:181-191 | prepends unless browsing is private; a first entry is checked for expiry; in any state |
| HistoryLog.HistoryManager.SetHistoryLimit | Client/src/browser/history.cpp:212-219 | expires with the new limit; what is known about the file stays known if and only if every entry that only the file still holds has expired under the new limit too |
| HistoryLog.HistoryManager.FirstToSave | Client/src/browser/history.cpp:307-319 | the place of the page saved last decides what is written |
| HistoryLog.HistoryManager.WriteRecords | Client/src/browser/history.cpp:346-353 | the records of the newest entries, oldest first, by position, with their version |
| HistoryLog.HistoryManager.WriteFile | Client/src/browser/history.cpp:307-361 | the records of the entries above the page saved last are appended, or those of all entries are the new file |
| HistoryLog.HistoryManager.Save | Client/src/browser/history.cpp:301-363 | appends the records above the page saved last or writes all anew, and knows the newest page as saved last; the file reads as the list in memory, and below it entries that have expired, if and only if the page saved last was not visited again since and the list is readable; whenever it does, everything is known about the file again |
| HistoryLog.HistoryManager.VisitAndSave | Client/src/browser/history.cpp:181-363 | any number of visits and then a save, from any list: which entries are left, and, when none is to the page saved last, that the file reads as the list exactly if that is readable |
| HistoryLog.HistoryManager.VisitWithTitle | Client/src/browser/history.cpp:181-205 | a visit and then its title, with a page known to be saved last: the new entry has the title, and everything stays known about the file |
| HistoryLog.HistoryManager.BrowseAndSave | Client/src/browser/history.cpp:181-363 | any number of visits, each followed by its title, and then a save: the file reads as the list, titles included, exactly if that is readable |
| HistoryLog.HistoryManager.RetitleAndSave | Client/src/browser/history.cpp:193-363 | from every valid state, a title change and then a save make the file read as the list, if and only if the list is readable and the change was harmless (the conditions of SavedWithTitle and SavedWithNewTitle) |
| HistoryLog.HistoryManager.UpdateHistoryItem | Client/src/browser/history.cpp:193-205 | gives the first entry with the URL the title and changes nothing else, in any state; from a valid one, whether the next save makes the file read as the list, as an if and only if, and when everything stays known about the file |
| HistoryLog.HistoryManager.Clear | Client/src/browser/history.cpp:221-228 | empties list and file and forgets what was saved, in any state, after which everything is known again |
| HistoryLog.HistoryManager.Load | Client/src/browser/history.cpp:238-299 | for every file the list has the newest entry first; it is what was read, sorted if a later record has an earlier time, without what has expired; the page saved last is the newest left, unless there was a sort; the file reads as it and below it as entries that have expired |
| HistoryLog.HistoryManager.ReadRecords | Client/src/browser/history.cpp:256-288 | the loop over the records |
| HistoryLog.HistoryManager.SetHistory | Client/src/browser/history.cpp:118-134 | takes the list and drops its expired end; the newest entry left counts as saved last, unless the list had to be sorted |
| HistoryLog.NextSession | Client/src/browser/history.cpp:238-363 | a save and then a load in the next session: whenever the save makes the file read as the list, the list loaded is exactly the one saved but for what has expired meanwhile |
| HistoryLog.SortByTime | Client/src/browser/history.cpp:289-290 | a permutation with the newest entry first |
| HistoryLog.RetitleFirstVisit | Client/src/browser/history.cpp:193-205 | a concrete run: after a first visit, its title change and a save the file is empty, and does not read as the list |
| HistoryLog.RetitleAfterExpiry | Client/src/browser/history.cpp:193-205 | another: after an expiry, a title change and a save the file reads as the list exactly if the title is the old one |
| Sigslot.WithoutDests | SharedCode/sigslot_loki.h:641-658 | after `slot_disconnect` the signal leads to the same holders but that one |
| Sigslot.CopiesDests | SharedCode/sigslot_loki.h:588-601 | the copies lead to the new holder exactly if there was a connection to the old one |
| Sigslot.CopiesCount | SharedCode/sigslot_loki.h:588-601 | as many copies as there were connections |
| Sigslot.CopyOfConnection | SharedCode/sigslot_loki.h:588-601 | the copy of a connection leads to the new holder at the slot of the original, and the copies stand in the order of the originals |
| Sigslot.ConnectionKept | SharedCode/sigslot_loki.h:641-658 | where each connection to another holder stands after `slot_disconnect` |
| Sigslot.RemoveFirst | SharedCode/sigslot_loki.h:623-639 | without its first connection to a holder a signal still leads there exactly if it had more than one |
| Sigslot.HasSlots.Copy | SharedCode/sigslot_loki.h:422-433 | a copied holder is connected wherever the original is, at the same slots and in the same order, and both sides agree |
| Sigslot.HasSlots.SignalConnect | SharedCode/sigslot_loki.h:435-439 | adds the sender |
| Sigslot.HasSlots.SignalDisconnect | SharedCode/sigslot_loki.h:441-445 | removes the sender |
| Sigslot.HasSlots.DisconnectAll | SharedCode/sigslot_loki.h:447-464 | no live signal leads to the holder any more; both sides agree with and without it |
| Sigslot.Signal1.Copy | SharedCode/sigslot_loki.h:575-586 | a copied signal has the same connections and every holder knows of it |
| Sigslot.Signal1.Connect | SharedCode/sigslot_loki.h:1855-1862 | appends the connection; both sides agree |
| Sigslot.Signal1.Disconnect | SharedCode/sigslot_loki.h:623-639 | removes the first connection to the holder; both sides still agree if and only if there was at most one |
| Sigslot.Signal1.DisconnectAll | SharedCode/sigslot_loki.h:603-621 | no holder knows of the signal any more |
| Sigslot.Signal1.SlotDisconnect | SharedCode/sigslot_loki.h:641-658 | removes every connection to the holder; the others keep their order, holders and slots |
| Sigslot.Signal1.SlotDuplicate | SharedCode/sigslot_loki.h:588-601 | terminates although it walks the list it appends to, and appends one copy per old connection, in order and with the same slot |
| Sigslot.Signal1.Emit | SharedCode/sigslot_loki.h:1864-1876 | calls every slot once, in the order of connection |
| Sigslot.EmitToCopy | SharedCode/sigslot_loki.h:422-433 | a signal emitted after a holder was copied calls everything it would have, and then the copy, once for every call to the original, in the same order, at the same slots and with the same argument |
| Sigslot.NoDanglingConnection | SharedCode/sigslot_loki.h:447-464 | in every state where both sides agree, every connection leads to a live holder that knows of the signal |
| Bookmarks.RemovedIsConsistent | Client/src/browser/xbel.cpp:111-115 | removing a child keeps the links of all nodes consistent |
| Bookmarks.AddedIsConsistent | Client/src/browser/xbel.cpp:100-109 | adding a node keeps them consistent, and removing it again gives the tree back |
| Bookmarks.AddMoves | Client/src/browser/xbel.cpp:100-109 | a node added anywhere is listed by its new parent and nowhere else |
| Bookmarks.AddBack | Client/src/browser/xbel.cpp:100-115 | a child removed and added at its old row gives the tree back |
| Bookmarks.UndoAfterRedo | Client/src/browser/bookmarks.cpp:303-358 | for each of the three commands, undo after redo is the identity |
| Bookmarks.CommandDoes | Client/src/browser/bookmarks.cpp:303-358 | what each command does, field by field: a removal takes the child at its row out and clears its parent, an insertion puts the node at its row, or at the end for -1, after leaving its old parent, a change gives the node the new title or address; all other fields of all nodes stay |
| Bookmarks.NoNodeIsLost | Client/src/browser/bookmarks.cpp:296-301 | a node of a command that stands outside the tree belongs to a command that deletes it when the stack goes |
| Bookmarks.KeptMembers | Client/src/browser/bookmarks.cpp:414-421 | of the rows removed exactly the menu and the bar are left |
| Bookmarks.UndoInsertNeedsDetached | Client/src/browser/bookmarks.cpp:286-323 | undoing an insertion gives the tree back if and only if the node had no parent |
| Bookmarks.AfterIsConsistent | Client/src/browser/bookmarks.cpp:286-358 | the links stay consistent after any number of commands |
| Bookmarks.StepKeeps | Client/src/browser/bookmarks.cpp:169-208 | every push, undo and redo keeps the tree equal to the first one with the commands below the index done |
| Bookmarks.RunsKeep | Client/src/browser/bookmarks.cpp:169-208 | that for every run |
| Bookmarks.UndosAndRedos | Client/src/browser/bookmarks.cpp:303-358 | k undos give the tree before the last k commands, k redos give everything back |
| Bookmarks.UndosAfterPushes | Client/src/browser/bookmarks.cpp:169-208 | pushing any number of commands and undoing as many gives the tree from before |
| Bookmarks.NoNodeIsDestroyedTwice | Client/src/browser/bookmarks.cpp:296-301 | no two commands of a stack that is cut off or destroyed delete the same node |
| Bookmarks.BookmarkNode.Remove | Client/src/browser/xbel.cpp:111-115 | the two fields changed, all other nodes as they were |
| Bookmarks.BookmarkNode.Add | Client/src/browser/xbel.cpp:100-109 | leaves the old parent, joins the new one at the offset, or at the end for -1, all other nodes as they were |
| Bookmarks.IndexOfChild | Client/src/browser/bookmarks.cpp:373-379 | the row found for a child is its row |
| Bookmarks.BookmarksModel.EntryAdded | Client/src/browser/bookmarks.cpp:381-391 | the tree does not change and the row announced is the row of the node |
| Bookmarks.BookmarksModel.EntryRemoved | Client/src/browser/bookmarks.cpp:393-400 | the tree does not change |
| Bookmarks.BookmarksManager.constructor | Client/src/browser/bookmarks.cpp:68-81 | an empty stack |
| Bookmarks.BookmarksManager.Detach | Client/src/browser/bookmarks.cpp:310-315 | the node is removed, with or without a model attached |
| Bookmarks.BookmarksManager.Attach | Client/src/browser/bookmarks.cpp:303-308 | the node is added, with or without a model attached |
| Bookmarks.BookmarksManager.RedoCommand | Client/src/browser/bookmarks.cpp:310-358 | does the command on the heap, field by field |
| Bookmarks.BookmarksManager.UndoCommand | Client/src/browser/bookmarks.cpp:303-349 | gives the tree before the command back |
| Bookmarks.BookmarksManager.PushCommand | Client/src/browser/bookmarks.cpp:169-208 | drops the undone commands, does the new one, keeps the flags of all commands; undo can be relied on afterwards if and only if an inserted node had no parent |
| Bookmarks.BookmarksManager.Undo | Client/src/browser/bookmarks.cpp:303-349 | one step back |
| Bookmarks.BookmarksManager.Redo | Client/src/browser/bookmarks.cpp:310-358 | one step on |
| Bookmarks.BookmarksManager.AddBookmark | Client/src/browser/bookmarks.cpp:169-176 | pushes an insertion once loaded, at any row and for any node: the node then is at that row, or last for -1, and below its parent; the stack stays valid if and only if the node had no parent |
| Bookmarks.BookmarksManager.RemoveBookmark | Client/src/browser/bookmarks.cpp:178-188 | pushes the removal of the node from its row: it has no parent then, its parent the other children in order |
| Bookmarks.BookmarksManager.SetTitle | Client/src/browser/bookmarks.cpp:190-198 | pushes a change of the title: once loaded the node has the new title, its address and every other node are as before |
| Bookmarks.BookmarksManager.SetUrl | Client/src/browser/bookmarks.cpp:200-208 | pushes a change of the address: once loaded the node has the new address, its title and every other node are as before |
| Bookmarks.BookmarksManager.RemoveRow | Client/src/browser/bookmarks.cpp:408-421 | the child at the row is removed by a command of its own |
| Bookmarks.BookmarksManager.RemoveBlock | Client/src/browser/bookmarks.cpp:414-421 | the loop over the rows, last first |
| Bookmarks.BookmarksManager.RemoveRows | Client/src/browser/bookmarks.cpp:408-427 | removes exactly the rows that are neither the menu nor the bar, changes no other folder, and as many undos as there were commands give the tree back |
| Bookmarks.ParentOfIndex | Client/src/browser/bookmarks.cpp:501-526 | the parent of an index below another is that other |
| BookmarksLoad.Load | Client/src/browser/bookmarks.cpp:112-154 | the tree loaded has two children: the last bar and the last menu folder, or new ones; every child of the root that is no folder is in the menu, behind its own children, in reverse order |
| BookmarksLoad.Choose | Client/src/browser/bookmarks.cpp:115-137 | the loop over the root's children |
| BookmarksLoad.LoadedIs | Client/src/browser/bookmarks.cpp:112-154 | that by position, for every tree |
| BookmarksLoad.LoadIsStable | Client/src/browser/bookmarks.cpp:112-154 | loading what was loaded changes nothing |
| BookmarksLoad.KeepsAllExactlyWhen | Client/src/browser/bookmarks.cpp:115-137 | all children of the root are kept, each of them being no folder or the last one with a title of the bar or the menu, if and only if every folder among them is a bar or a menu, one of each at most |
| BookmarksLoad.LoadKeepsStorable | Client/src/browser/bookmarks.cpp:112-154 | of a tree that a file can hold, loading makes one that a file can hold |
| BookmarksLoad.SessionKeepsTree | Client/src/browser/bookmarks.cpp:93-167 | for any file, a loaded tree that is saved, read and loaded again is what a file can hold of it, and does not change any more; it is that very tree if and only if a file can hold all of it |
| Xbel.SameIsEquality | Client/src/browser/xbel.cpp:64-78 | the recursive comparison decides equality of whole trees |
| Xbel.SkipElement | Client/src/browser/xbel.cpp:182-184 | skipping an element ends right after it, however deep its content |
| Xbel.ElementTextOf | Client/src/browser/xbel.cpp:187-197 | the text of an element without elements in it |
| Xbel.ReadMarkOf | Client/src/browser/xbel.cpp:206-221 | a bookmark is read as what its content means |
| Xbel.ReadContentStep | Client/src/browser/xbel.cpp:152-184 | each piece of a folder is read as what it means |
| Xbel.ReadContentOf | Client/src/browser/xbel.cpp:148-185 | for every document with plain titles and empty separators, at any depth, the reader builds what the document means and stops right after it |
| Xbel.TextOfConcat | Client/src/browser/xbel.cpp:187-197 | the text of pieces is that of their parts, a comment has none |
| Xbel.BookmarkStands | Client/src/browser/xbel.cpp:206-221 | a bookmark read has the address of its element, the text of the last title element as title, "Unknown title" without one, and that of the last description element as description, "" without one |
| Xbel.FolderStands | Client/src/browser/xbel.cpp:164-185 | a folder read has the texts of its last title and description elements, is expanded exactly if it says folded="no", and has for every folder, bookmark and separator in it, in order, the node that it stands for |
| Xbel.SeparatorInFolder | Client/src/browser/xbel.cpp:199-204 | what is read around a separator with any content: its first piece stands for its end, and the end of the separator for that of the folder |
| Xbel.SeparatorMustBeEmpty | Client/src/browser/xbel.cpp:199-204 | the folder ends where it should if and only if the separator is empty |
| Xbel.StripMeansNothing | Client/src/browser/xbel.cpp:152-184 | text, comments and unknown elements mean nothing at any depth |
| Xbel.ReadOfDocument | Client/src/browser/xbel.cpp:132-146 | which documents are read at all, and as what |
| Xbel.DocumentStands | Client/src/browser/xbel.cpp:132-185 | every document of version 1.0 or none is read as the nodes that its elements stand for, in order, any other as an empty tree |
| Xbel.BookmarkWithBoth | Client/src/browser/xbel.cpp:206-221 | a document with one bookmark that has a title and a description is read as just that |
| Xbel.NoiseIsIgnored | Client/src/browser/xbel.cpp:132-221 | documents that differ only in text between elements, comments and unknown elements are read as the same tree |
| Xbel.WrittenMeansStored | Client/src/browser/xbel.cpp:256-282 | what was written for a node means what can be stored of it |
| Xbel.ReadOfWritten | Client/src/browser/xbel.cpp:237-282 | a written tree is read back in its stored form, however it is laid out |
| Xbel.StoredAllIsSame | Client/src/browser/xbel.cpp:256-282 | storing changes nothing exactly for nodes with fields that fit their type; what is stored is such a node |
| Xbel.RoundTrip | Client/src/browser/xbel.cpp:237-282 | the tree read back equals the one written if and only if it has no descriptions, a title for every bookmark and only fields that fit the types |
| Xbel.StoredIsStable | Client/src/browser/xbel.cpp:237-282 | a tree read from a written file is written and read unchanged |
| Xbel.TreeComesBack | Client/src/browser/xbel.cpp:237-282 | what comes back of a tree, field by field: every node not of type root in its place, folders with title and state, bookmarks with title and address, no descriptions |
| Xbel.XbelReader.constructor | Client/src/browser/xbel.cpp:118-120 | starts before the first token |
| Xbel.XbelReader.ReadNextStartElement | Client/src/browser/xbel.cpp:152 | stops at the next start or end |
| Xbel.XbelReader.SkipCurrentElement | Client/src/browser/xbel.cpp:160 | ends right after the current element |
| Xbel.XbelReader.ReadElementText | Client/src/browser/xbel.cpp:187-197 | reads the text, and nothing more after an error |
| Xbel.XbelReader.ReadBookmarkNode | Client/src/browser/xbel.cpp:206-221 | reads a bookmark as the reading function says |
| Xbel.XbelReader.ReadPart | Client/src/browser/xbel.cpp:211-218 | the branches of that loop: a title element sets the title and nothing else, a description element the description and nothing else, any other nothing, as the reading function says |
| Xbel.XbelReader.ReadSeparator | Client/src/browser/xbel.cpp:199-204 | adds a separator and takes one token |
| Xbel.XbelReader.ReadFolder | Client/src/browser/xbel.cpp:164-185 | reads a folder and all below it as the reading function says |
| Xbel.XbelReader.ReadChild | Client/src/browser/xbel.cpp:172-183 | the branches of that loop: as for a bookmark, and a folder, bookmark or separator is one more child behind the others, as the reading function says |
| Xbel.XbelReader.ReadXbel | Client/src/browser/xbel.cpp:148-162 | reads the whole document as the reading function says |
| Xbel.XbelReader.ReadTopLevel | Client/src/browser/xbel.cpp:153-160 | the branches of that loop as the reading function says |
| Xbel.XbelReader.ReadDocument | Client/src/browser/xbel.cpp:132-146 | reads a file as the reading function says |
| Xbel.XbelWriter.WriteTextElement | Client/src/browser/xbel.cpp:262 | an element that holds one text |
| Xbel.XbelWriter.WriteItem | Client/src/browser/xbel.cpp:256-282 | appends the tokens of the node's document |
| Xbel.XbelWriter.WriteFolder | Client/src/browser/xbel.cpp:259-266 | a folder with its title and all below it |
| Xbel.XbelWriter.WriteBookmark | Client/src/browser/xbel.cpp:267-275 | a bookmark; a description ends up in its text |
| Xbel.XbelWriter.Write | Client/src/browser/xbel.cpp:237-254 | the tokens of the whole document |
| Xbel.ReadFile | Client/src/browser/xbel.cpp:132-185 | the tree read from a document has the nodes that its elements stand for |
| Xbel.SaveAndLoad | Client/src/browser/xbel.cpp:132-282 | a tree saved and loaded: what comes back of each node, field by field; equal to the tree exactly as said above |
| LokiFraming.LengthRoundTrip | Client/src/common/LokiSocket.cpp:68-87 | a length is read back, in either byte order |
| LokiFraming.ParseEncoded | Client/src/common/LokiSocket.cpp:68-87 | parsing the encoding of any list of frames gives them back, whatever follows |
| LokiFraming.ParseByBytes | Client/src/common/LokiSocket.cpp:132-149 | one step of the parser in terms of bytes: the first four are the length, the next as many are the frame, and fewer are left alone |
| LokiFraming.SendData | Client/src/common/LokiSocket.cpp:68-87 | the four bytes of the length, most significant first, each given by division, and then the buffer |
| LokiFraming.HeaderTaken | Client/src/common/LokiSocket.cpp:136-140 | taking a length off the stream keeps receiver and stream in step |
| LokiFraming.FrameTaken | Client/src/common/LokiSocket.cpp:144-147 | so does taking the data of a frame |
| LokiFraming.DrainedIsComplete | Client/src/common/LokiSocket.cpp:132-149 | when the parser stops, every frame with data that has arrived has been handed out |
| LokiFraming.ParseIsMonotone | Client/src/common/LokiSocket.cpp:120-149 | later bytes only add frames |
| LokiFraming.FramesSentAreFramesParsed | Client/src/common/LokiSocket.cpp:68-149 | of any part of the encoded frames that has arrived, the complete frames are the first of those sent; of all of it, all |
| LokiFraming.LokiSocket.constructor | Client/src/common/LokiSocket.cpp:120-149 | nothing received yet |
| LokiFraming.LokiSocket.ParseCommand | Client/src/common/LokiSocket.cpp:132-149 | one round keeps receiver and stream in step |
| LokiFraming.LokiSocket.OnDataReadTriggered | Client/src/common/LokiSocket.cpp:120-130 | however the stream is cut into chunks, after each of them the non-empty buffers handed out are the non-empty frames that have arrived, in order |
| LokiFraming.SwapIsInvolution | SharedCode/LokiReceiveBuffer.cpp:50-66 | swapping the bytes twice gives the word back, and a swapped word stored low byte first is in network order |
| LokiFraming.LittleEndianOfRead | SharedCode/LokiReceiveBuffer.cpp:69-85 | a word read low byte first and swapped is the word in network order |
| LokiFraming.LayoutsAgree | SharedCode/LokiReceiveBuffer.cpp:50-66 | both layouts of a word agree exactly when it reads the same from both ends |
| LokiFraming.LokiReceiveBuffer.InsertData | SharedCode/LokiReceiveBuffer.cpp:41-48 | appends the bytes in order |
| LokiFraming.LokiReceiveBuffer.InsertNetworkUInt32 | SharedCode/LokiReceiveBuffer.cpp:50-66 | appends the word in network order on a little-endian host, in the reverse order on the other kind |
| LokiFraming.LokiReceiveBuffer.Get4BytesHead | SharedCode/LokiReceiveBuffer.cpp:69-85 | takes four bytes as a word, low byte first, in numbers; fewer are left alone |
| LokiFraming.LokiReceiveBuffer.GetBuffer | SharedCode/LokiReceiveBuffer.cpp:87-100 | takes that many bytes, or none when there are not enough |
| LokiFraming.BuildFrame | Server/Giants/src/loki/NetCommandHandler.cpp:284-290 | a frame built by the server is what the client parses, on a little-endian host always, on the other kind exactly for lengths that read the same from both ends |
| LokiFraming.User.constructor | Server/Giants/src/loki/User.cpp:42-52 | nothing received yet |
| LokiFraming.OtherHostReads | Server/Giants/src/loki/User.cpp:54-108 | on a big-endian host the server reads the frames of a client as they were sent if and only if each length reads the same from both ends |
| LokiFraming.User.TakeHead | Server/Giants/src/loki/User.cpp:58-62 | the length of the next frame, in the order of the host, keeps receiver and stream in step |
| LokiFraming.User.ParseCommand | Server/Giants/src/loki/User.cpp:54-108 | one round of the server keeps receiver and stream in step, on either kind of host |
| LokiFraming.User.OnData | Server/Giants/src/loki/User.cpp:42-52 | however the stream is cut, the server hands out the frames in it as its kind of host reads their lengths; on a little-endian host those that the client sent |
| DigestChallenge.ValueOfEscape | Client/src/common/qhttpauthenticator.cpp:515-532 | reading an escaped value gives it back and stops at its end mark |
| DigestChallenge.PlainValue | Client/src/common/qhttpauthenticator.cpp:515-532 | a value without escapes is what stands before its end mark |
| DigestChallenge.NoMoreOptions | Client/src/common/qhttpauthenticator.cpp:499-506 | a key without a value ends the parsing |
| DigestChallenge.ReadWritten | Client/src/common/qhttpauthenticator.cpp:499-536 | one written parameter is read as itself, up to the comma |
| DigestChallenge.ParseOfWriteAll | Client/src/common/qhttpauthenticator.cpp:498-537 | the parser gives back every written list of parameters |
| DigestChallenge.CollectKeys | Client/src/common/qhttpauthenticator.cpp:536 | the keys are those of the parameters |
| DigestChallenge.CollectDistinct | Client/src/common/qhttpauthenticator.cpp:536 | with distinct keys each keeps its value |
| DigestChallenge.CollectLast | Client/src/common/qhttpauthenticator.cpp:536 | of several parameters with one key the last one stays |
| DigestChallenge.CollectKeeps | Client/src/common/qhttpauthenticator.cpp:536 | keys that do not occur keep their values |
| DigestChallenge.SplitIsSplit | Client/src/common/qhttpauthenticator.cpp:541 | the pieces are what the commas separate |
| DigestChallenge.SkipBlanks | Client/src/common/qhttpauthenticator.cpp:499-500 | passes over spaces, line feeds and carriage returns and stops at the first other character |
| DigestChallenge.FindChar | Client/src/common/qhttpauthenticator.cpp:502-503 | stops at the first mark, or at the end without one |
| DigestChallenge.ReadValue | Client/src/common/qhttpauthenticator.cpp:515-532 | the loop over the characters of a value |
| DigestChallenge.ReadOneBody | Client/src/common/qhttpauthenticator.cpp:508-536 | the second half of a round |
| DigestChallenge.ReadOneOption | Client/src/common/qhttpauthenticator.cpp:498-536 | one round |
| DigestChallenge.ReadOptions | Client/src/common/qhttpauthenticator.cpp:494-537 | all rounds |
| DigestChallenge.ParseDigestAuthenticationChallenge | Client/src/common/qhttpauthenticator.cpp:492-555 | the options read: as they are without a quality of protection, with `auth` for one that lists it, and none at all for any other |
| DigestChallenge.ParseWhatWasWritten | Client/src/common/qhttpauthenticator.cpp:492-555 | for every list of writable parameters with distinct keys exactly that map; a quality of protection that lists `auth` becomes it, any other leaves nothing (RFC 2617 section 3.2.1) |
| DigestChallenge.BestIsStrongest | Client/src/common/qhttpauthenticator.cpp:391-407 | the scheme is offered, and none offered is stronger |
| DigestChallenge.LowerIs | Client/src/common/qhttpauthenticator.cpp:391-406 | letters from A to Z become small, everything else stays |
| DigestChallenge.ChosenMeans | Client/src/common/qhttpauthenticator.cpp:391-407 | digest if any header of that name starts with it, in letters of either case, otherwise NTLM, otherwise basic, otherwise none; the text is what follows the scheme in the first such header |
| DigestChallenge.BestIgnoresOrder | Client/src/common/qhttpauthenticator.cpp:391-407 | headers in another order give the same scheme (RFC 2617 section 1.2) |
| DigestChallenge.ChosenStep | Client/src/common/qhttpauthenticator.cpp:392-406 | one more header changes the choice exactly when it offers something stronger |
| DigestChallenge.ChooseMethod | Client/src/common/qhttpauthenticator.cpp:376-407 | digest before NTLM before basic, for the header that belongs to a proxy or a server, and what follows the scheme in the first header that offers it |
| Ntlm.WireSize | Client/src/common/qhttpauthenticator.cpp:895-904 | two bytes a character for Unicode, one otherwise |
| Ntlm.WireIs | Client/src/common/qhttpauthenticator.cpp:890-904 | Unicode text on the wire is each character's low byte and then its high byte, other text one byte a character, a question mark for one that does not fit |
| Ntlm.FixedFields | Client/src/common/qhttpauthenticator.cpp:1001-1012 | signature, message type 3 and flags are where they belong |
| Ntlm.OffsetsDrift | Client/src/common/qhttpauthenticator.cpp:908-925 | the offset of a payload is its start plus the number of payloads of odd length before it |
| Ntlm.ConcatSlice | Client/src/common/qhttpauthenticator.cpp:1013-1023 | where each payload is in the message |
| Ntlm.DescriptorsSelectPayloads | Client/src/common/qhttpauthenticator.cpp:1001-1027 | offset and start agree if and only if no payload before has an odd length; then the descriptor selects exactly its payload (MS-NLMP section 2.2.1.3) |
| Ntlm.EvenPayloads | Client/src/common/qhttpauthenticator.cpp:917-925 | payloads of even length move nothing |
| Ntlm.AllPayloadsFound | Client/src/common/qhttpauthenticator.cpp:1398-1438 | then all five descriptors select their payloads |
| Ntlm.PointAtStarts | Client/src/common/qhttpauthenticator.cpp:1398-1438 | all five descriptors of a message say where their payloads start if and only if the first four payloads have even length |
| Ntlm.OddDomain | Client/src/common/qhttpauthenticator.cpp:1398-1438 | a concrete message: after a domain of one byte the server reads the first byte of the response in place of the user name |
| Ntlm.DescriptorRoundTrip | Client/src/common/qhttpauthenticator.cpp:928-938 | a descriptor on the wire is read back |
| Ntlm.QNtlmBuffer.EncodeBuffer | Client/src/common/qhttpauthenticator.cpp:908-914 | a descriptor at the next even offset |
| Ntlm.QNtlmBuffer.EncodeString | Client/src/common/qhttpauthenticator.cpp:917-925 | the same for a string |
| Ntlm.QNtlmPhase3Block.Fill | Client/src/common/qhttpauthenticator.cpp:1398-1434 | the descriptors of all five payloads, one after the other |
| Ntlm.QNtlmPhase3Block.FillNames | Client/src/common/qhttpauthenticator.cpp:1401-1416 | those of the three strings |
| Ntlm.QNtlmPhase3Block.Write | Client/src/common/qhttpauthenticator.cpp:1001-1027 | the signature, message type 3, the descriptors in their slots, an empty session key, the flags, and then the payloads |
| Ntlm.QNtlmPhase3Block.WritePayloads | Client/src/common/qhttpauthenticator.cpp:1013-1023 | empty domain and workstation strings are left out, which changes nothing on the wire |
| Ntlm.Phase3 | Client/src/common/qhttpauthenticator.cpp:1378-1441 | the flags are NTLM with Unicode or OEM; with lengths that fit 16 bits, all descriptors of the message say where their payloads start if and only if the strings are Unicode or byte strings of even length and the LM response has even length; then each selects exactly its payload |
| Board.StepsStayProper | Client/src/hera/BanBaseWidget.cpp:453-477 | removal, undo and redo keep both lists free of repetition and disjoint, and lose no element |
| Board.RedoAfterUndo | Client/src/hera/BanBaseWidget.cpp:453-477 | one redo takes back one undo |
| Board.RedosAfterUndos | Client/src/hera/BanBaseWidget.cpp:453-477 | k redos take back k undos |
| Board.RedoAfterRemove | Client/src/hera/BanBaseWidget.cpp:614-623 | a redo takes back a removal if and only if the top-most element was removed |
| Board.OnlyPlace | Client/src/hera/BanBaseWidget.cpp:618-621 | taking an element out of a list without repetition leaves the elements before and behind it |
| Board.MovedElement | Client/src/hera/BanBaseWidget.cpp:633-660 | moving an element to either end only reorders |
| Board.ReadPacked | Client/src/hera/BanBaseWidget.cpp:153-236 | reading the tokens of a board gives back its identity and every element of a supported type, in order |
| Board.PackedAt | Client/src/hera/BanBaseWidget.cpp:136-146 | what is saved, by position: type and data of each element shown |
| Board.TypeIsLast | Client/src/hera/BanBaseWidget.cpp:170-173 | the type of a raw object is the last integer before it that is not negative |
| Board.ReadMeans | Client/src/hera/BanBaseWidget.cpp:153-236 | whatever the stream holds: the first two raw objects of type 0 are the identity and the board itself, the elements built are the raw objects of a supported type, in order, and everything else is passed over |
| Board.BanBaseWidget.constructor | Client/src/hera/BanBaseWidget.cpp:500-511 | an empty board |
| Board.BanBaseWidget.AddElement | Client/src/hera/BanBaseWidget.cpp:524-563 | puts the element on top and ends what can be redone; the lists stay proper if and only if it was not shown |
| Board.BanBaseWidget.RemoveDrawingElementTriggered | Client/src/hera/BanBaseWidget.cpp:614-623 | moves the element to the undone ones and leaves the others in order; one that is not shown changes nothing |
| Board.BanBaseWidget.OnUndoTriggered | Client/src/hera/BanBaseWidget.cpp:453-462 | moves the top-most element to the undone ones; changes nothing when none is shown or drawing is disabled |
| Board.BanBaseWidget.OnRedoTriggered | Client/src/hera/BanBaseWidget.cpp:464-477 | puts the last undone element on top and keeps the others redoable; changes nothing when none is undone or drawing is disabled |
| Board.BanBaseWidget.OnTopMostElementTriggered | Client/src/hera/BanBaseWidget.cpp:633-641 | moves the element to the end |
| Board.BanBaseWidget.OnBottomMostElementTriggered | Client/src/hera/BanBaseWidget.cpp:651-659 | moves the element to the front |
| Board.BanBaseWidget.FindElement | Client/src/hera/BanBaseWidget.cpp:618-621 | erasing at the place found removes the first occurrence |
| Board.BanBaseWidget.ClearAll | Client/src/hera/BanBaseWidget.cpp:500-511 | empties all lists |
| Board.BanBaseWidget.GetMsgPackData | Client/src/hera/BanBaseWidget.cpp:97-151 | the identity, the board itself, and type and data of every shown element |
| Board.BanBaseWidget.SetMsgPackData | Client/src/hera/BanBaseWidget.cpp:153-236 | the board is what the stream holds: identity, data, and elements of supported types in order, whatever was shown before |
| Board.BanBaseWidget.ReadTokens | Client/src/hera/BanBaseWidget.cpp:161-234 | the loop over the tokens |
| Board.SaveAndRead | Client/src/hera/BanBaseWidget.cpp:97-236 | a board saved and read on another shows the same, but for unsupported types |
| AutoSaving.ElapsedIsDifference | Client/src/browser/autosaver.cpp:65-68 | within a day the wrap at midnight does no harm |
| AutoSaving.AutoSaver.ChangeOccurred | Client/src/browser/autosaver.cpp:63-73 | a change is written at once, with all that wait, if and only if the first of these waits for more than 15 seconds; otherwise the timer starts again, for 3 seconds |
| AutoSaving.AutoSaver.TimerEvent | Client/src/browser/autosaver.cpp:75-82 | the timer writes all waiting changes |
| AutoSaving.AutoSaver.SaveIfNecessary | Client/src/browser/autosaver.cpp:84-93 | one save for all waiting changes, none without |
| AutoSaving.EveryChangeIsSavedInTime | Client/src/browser/autosaver.cpp:63-93 | in every run whose timer fires when due, each change is in a save no later than 18 seconds after the first change of that save, or waits with that bound ahead |

## Left out

- Windows, menus, painting, dialogs, the clipboard, cursors and highlighting.
- Sockets, files, settings and the event loop: a socket is a sequence of bytes that grow by chunks, the history file a list of records, a bookmarks file a list of XML tokens. The XML lexer, MessagePack and Qt's containers and undo stack stand as what they provide.
- Integer widths, but for the words on the wire and the 16-bit length fields; addresses are a block and an offset.
- QRingBuffer: what `resize` puts into new bytes is left unspecified; negative arguments of `free`, `chop` and `reserve`, which no caller passes, are excluded.
- HistoryFilter: `historyContains` and `historyLocation`, which look up the same hash; signals to views beyond the reset; the work of the source model's own `removeRows` beyond what it removes.
- HistoryTree.HistoryTreeModel.SourceRowsRemoved: for several rows that are not in date order it says what the loop computes, not when that is right.
- HistoryLog.HistoryManager.Save: a file that cannot be opened or renamed is not modelled. Times are seconds on one clock, days of 86400 seconds; Qt's sort is any sorting by time.
- HistoryLog.HistoryManager.UpdateHistoryItem: after a title change that is not harmless, or a clock set back, nothing is known about what the file holds until a save makes it read as the list, a clear or the next load; every method can still be called and says what it does. BrowseAndSave, VisitAndSave and RetitleAndSave start from states in which it is known.
- HistoryLog.HistoryManager.AddHistoryItem: takes the private-browsing setting and the present time as parameters; the URL is taken as it is.
- Sigslot: one arity of signals; locks, member function types, and slots that change the list while a signal is emitted.
- Sigslot.Signal1.Emit: for slots that do not connect or disconnect.
- Bookmarks: `desc` and `expanded`, which no command touches; deleting nodes, beyond NoNodeIsDestroyedTwice; whether a node is inserted below itself, which nothing in the source prevents; drag and drop, which only pushes several of the commands modelled, and grouping commands into one undo step.
- Bookmarks.BookmarksManager.constructor: all nodes that a run uses are there from the start, those not inserted yet without a parent.
- BookmarksLoad.Load: works on the tree as a value, so links to parents and the folders that are dropped without being deleted are not shown.
- Xbel.XbelReader.ReadFolder: returns the folder instead of adding it to its parent while reading, so a folder that is cut short is not seen half-read; the text of errors and the line numbers are left out, after an error no more tokens come.
- Xbel.XbelWriter.Write: without the library's white space between elements; NoiseIsIgnored and RoundTrip hold for any layout.
- LokiFraming: connecting again after an error; frames of 2^32 bytes or more; what the server makes of a frame.
- DigestChallenge.ChooseMethod: before the text is trimmed; what follows the choice (realm, user name, phase, responses) and the digest itself are left out.
- DigestChallenge.ParseWhatWasWritten: for keys without `=` that do not start with a blank; other keys cannot be written so that the parser finds them.
- Ntlm.QNtlmPhase3Block.Write: strings and responses are given; decoding the challenge message, MD4, MD5, HMAC and the choice of domain are left out.
- Board: cursors, colours, animation actions, the initial state of elements, and edits by playback, which go around the undo list by design.
- Board.BanBaseWidget.GetMsgPackData: what is shown, not the form with all elements in their initial state.
- Board.BanBaseWidget.SetMsgPackData: does not link state elements to the elements they belong to.
- AutoSaving.EveryChangeIsSavedInTime: for a clock that is not set and without daylight saving; a save that fails counts as a save.
- Cookie models, downloads, fonts, shapes and the command factories: finite tables or thin wrappers.
