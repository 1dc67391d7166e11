# Verification model of the storage engine and its SQL layer

This project models a small relational engine and proves its central promises: a B+tree over a page store kept behind a
write-ahead buffer pool, the log and its recovery, a catalog of many trees in one store with a fixed-width row codec, and
an SQL layer of lexer, parser, semantic checks, a cost-based join planner and an iterator executor.

`dafny verify dfyconfig.toml` checks everything.

## How the model is laid out

| files | what they hold |
|---|---|
| `Pages`, `Cells` | page contents as structured values, after-images and how a log of them replays; sorted cell lists against an ordered map |
| `Trees`, `TreeUpdate`, `TreeStages`, `TreeDelete`, `TreeTop`, `TreeScan`, `TreeShape`, `LogClosed`, `HalfSplits` | the shape of a tree laid out in a store; insert and delete as functions that also give the page images they log; every state between two images; scans; how high a tree can be; pointer closure; writing to a tree that a crash left in the middle of a split |
| `Wal`, `Recovery` | the log object (scan, truncate, append), histories with torn tails, replay |
| `PoolModel`, `BufferPool`, `PoolRuns`, `PoolRecency` | the buffer pool as a state machine, the object proved against it, whole runs, and who is evicted along them |
| `BTree`, `Journals`, `Database` | the B+tree object over the pool; crash points of a run of calls; runs from an empty database, reopen, then scan or insert |
| `RowCodec`, `CatalogModel`, `CatalogRuns`, `Catalog`, `CatalogCalls`, `Reopening` | bytes of a row; many trees under one catalog page; runs of changes to all of them with a crash anywhere; the catalog object; runs of calls on it; reopening after a crash and reading every table |
| `Query`, `Joins`, `HashNested` | values, rows, evaluation; the two join iterators and how they relate |
| `Plans`, `References`, `JoinOrder`, `JoinSteps`, `Bags`, `Planner`, `PlanMeaning`, `PlanLimits`, `PlanWitnesses` | plans and their meaning; which table a reference is to; why join order, strategy and build side do not matter; the planner; where its guarantee stops, with statements on which it does |
| `SelectMeaning`, `Naming` | what a SELECT means, said over the stored rows alone; what tables are called in a statement, and that new names change nothing else |
| `Semantic`, `Resolution`, `Inserts`, `Executor`, `Engine` | validation and what it promises; column lists; running plans and statements |
| `Grammar`, `Statements`, `Lexing`, `Parser`, `Sql` | tokens, statements, the ways to write them, the parser and lexer objects, and that exactly those texts are read; a text of SQL executed on the catalog |

Objects that the source updates in place (`BufferPool`, `WALManager`, `DiskManager`, `BTree`, `Catalog`, the two join
iterators, `Parser`, `Lexer`) are classes with the source's fields; each method is proved against a function of the old
state.  A method's `ok`, `Option` or `Result` stands for the source's exceptions; `Err` carries no text.

Ideas that recur:

* An operation's *writes* are the page images it means to log, in the order the page guards are dropped.  The pool logs a
  page again each time a guard of a still-dirty page is dropped, so the real log is the writes with repetitions.
  `Extends(log, log', writes)` says that every prefix of the growth of the log leaves the store some prefix of the writes
  leaves.  Crash points are quantified over the real log.
* `Half(left, sep, right)` is a tree node whose split has been logged but whose parent still names only the left part.
  The leaf chain runs through both parts, descent sees only the left one.  A scan is exact in such a state; a lookup or a
  delete is exact on every key outside the hidden parts, and only there; an insert is exact on every key except those that
  `HalfSplits.Passed` names, and on those it leaves no map at all.
* A tree has at most 20 levels of internal nodes, because page ids are 32 bits (`TreeShape.HeightBound`), so 22 frames never
  run out.  `Roomy` is the check a caller makes before a run: 22 page ids per call, and frames for the height those ids allow.
* A joined row is determined by which row of each table it was made from (`Choice`).  Every correct join plan lists the
  satisfying choices exactly once; only the order of rows and of tables within a row may differ.  `Bag` compares rows as
  maps from alias to that table's fields.

* What the SQL layer computes is compared with relations that do not evaluate, project, parse or validate anything.
  `Query.Compares` is the order of integers and the lexicographic order of texts.  `SelectMeaning.Tells` says which choices a
  SELECT keeps, what it shows of each, and when it has no answer.  `Naming.Accepts` says which statements pass validation.
  `Parsers.WritesSql` says which texts write a statement: conditions with any parentheses (`Grammar.Writing`), keywords in any
  case, any space, numbers with leading zeros.  Each comes with an if-and-only-if.

## Where the code decides

* Keys equal to a separator go right (src/btree.cpp:159, src/btree.cpp:278).  The comment at include/btree_node.h:50-52
  puts equality on the other side; the model follows the code.
* include/catalog.h describes the stored row count as exact; it counts accepted inserts, overwrites included
  (src/catalog.cpp:287-289), and the model counts those.
* The comment at src/physical_plan.cpp:369-374 says that correctness does not depend on the fallback choice of table.
  For validated statements the fallback is never reached (`Planner.NotScoped`).
* The planner looks only at qualified references when it decides which table can be attached (src/physical_plan.cpp:232-258),
  while validation resolves each reference among the tables written so far (src/semantic.cpp:84-88).  An order *reaches* the
  ON conditions when, at each step, every reference is to a table already joined and, if unqualified, no other table joined so far
  has the column.  On well-typed conditions without an equality keyed inside the table it introduces, a plan in such an order
  keeps the meaning of the text (`PlanMeaning.PlanKeepsMeaning`), and every greedy order is one when each unqualified
  reference is to the first table or to the table its condition introduces and no later table repeats its column
  (`Planner.NearReached`).  In whatever order, the plan answers what the statement means with its tables rewritten in that order,
  if the rewritten statement is valid (`PlanMeaning.PlanMeansReordered`).
* So three things can happen to a validated statement, each shown on one: an owner that is not joined yet makes the plan fail
  (`PlanWitnesses.PlanLoose`), so does a second table that makes the column ambiguous (`PlanWitnesses.PlanClash`), and a table
  joined earlier that happens to have the column takes the owner's place, so that the plan succeeds with other rows
  (`PlanWitnesses.PlanStray`).  `PlanLimits.UnreadableFails` and `PlanLimits.StepFails` say exactly when a step fails.
* An insert into a tree recovered in the middle of a split goes to the part that the parent names, even when the key belongs
  to or past the other part (src/btree.cpp:153-184).  It keeps the map if and only if it passes no hidden part with a key at or
  below its own (`HalfSplits.InsertKeepsMap`); `TreeShape.SplitLeafInserts` shows both sides on one leaf.
* `HashNested.HashRightIsNested`, `HashNested.HashLeftIsNested` and `PlanLimits.SelfEqualityFails` give the exact condition
  under which the two join strategies agree on one join.
* A flush writes pinned pages and clears their dirty flag (src/buffer_pool.cpp:184-198), so a guard dropped later logs
  nothing.  It is safe if and only if the last logged image of the page is what the frame holds (`PoolRuns.FlushIffLogged`,
  `PoolRuns.FlushThenRelease`, and the same for `FlushAll`).  `PoolRuns.FlushHazard` loses a page that was never logged;
  `PoolRuns.FlushStale` loses a change although the page on disk is one that was logged long ago.
* A crash in the middle of a split can hide keys from lookups: `TreeShape.CrashMidSplit` runs five
  inserts into an empty database and names a prefix of the log after which lookups miss three keys that scans return.
* CREATE TABLE does not refuse repeated column names, so an unqualified column that validation accepts can still be
  ambiguous at run time: `Resolution.ValidatedResolves` says exactly when, and `Engines.RepeatedColumnFails` exhibits a query
  that fails if and only if its table has a row.

## Model

| member | source | states |
|---|---|---|
| Cells.PutMap | src/btree.cpp:124-151 | writing a key into the sorted cells of a leaf is adding or replacing one entry of an ordered map, and the cells stay sorted |
| Cells.DelMap | src/btree.cpp:301-318 | removing a key from sorted cells is removing one entry of the ordered map |
| Cells.LookupMap | src/btree.cpp:286-299 | searching sorted cells is looking up the ordered map |
| Cells.InRangeMap | src/btree.cpp:326-349 | the cells picked by a range scan are exactly the map's entries between the bounds, in key order |
| TreeUpdate.InsertOrdered | src/btree.cpp:115-258 | insert keeps keys within the separators around them, through leaf and internal splits, and also past a half-done split when the key lies below its bound |
| TreeUpdate.InsertContents | src/btree.cpp:115-258 | the cells in leaf order after an insert are those before with one put, wherever the splits fall |
| TreeUpdate.InsertBalanced | src/btree.cpp:186-258 | all leaves stay at one depth, nodes keep at most four keys, and both parts of a split internal node keep at least two separators |
| TreeStages.StageRep | src/btree.cpp:186-258 | after any number of an insert's page images the store holds a tree, perhaps with one split half done, leaf chain included |
| TreeStages.StageContents | src/btree.cpp:186-258 | the cells in that tree are the old ones before the commit point of the insert and the new ones from it on, never a mixture |
| TreeStages.InsertGrown | src/btree.cpp:115-258 | an insert uses no page twice, writes only its own tree's pages and fresh ones, and keeps the root and first leaf in place |
| TreeDelete.DeleteContents | src/btree.cpp:301-318 | delete removes one key from the leaf descent finds, unless a half-done split hides the key, and leaves the rest of the tree alone |
| TreeDelete.DeleteBalanced | src/btree.cpp:301-318 | delete never merges nodes and keeps every bound that insert relies on |
| TreeTop.InsertStages | src/btree.cpp:55-113 | at every prefix of an insert's images, root growth included, the recorded root leads to a whole ordered tree with the old or the new cells |
| TreeTop.InsertSettled | src/btree.cpp:55-113 | a finished insert leaves a balanced tree whose map has one entry added or replaced |
| TreeTop.InsertCrash | src/btree.cpp:55-113 | whatever part of an insert reached the log, the recovered store holds the map from before or from after |
| TreeTop.InsertHolds | src/btree.cpp:55-113 | a finished insert adds or replaces one entry of the map, on any tree whose descent stays below the bounds of half-done splits |
| TreeTop.DeleteSettled | src/btree.cpp:301-318 | a finished delete leaves the map without the key, writes one page if the key was there and none if not |
| TreeTop.DeleteHolds | src/btree.cpp:301-318 | on any recovered tree a delete removes the key if and only if no half-done split hides it, and else changes nothing |
| TreeTop.DeleteCrash | src/btree.cpp:301-318 | a crash within a delete leaves the map from before or from after |
| TreeScan.RepChain | src/btree.cpp:209-215 | the leaf chain in the store is the in-order sequence of leaves, half-done splits included |
| TreeScan.DescendLands | src/btree.cpp:262-284 | descent ends on a leaf such that every smaller leaf holds only keys below the sought one |
| TreeScan.DescendExact | src/btree.cpp:262-299 | between operations, looking in the leaf that descent reaches is looking in the whole tree |
| TreeScan.DescendFinds | src/btree.cpp:262-299 | in any recovered tree a lookup finds a key if and only if the tree holds it outside the hidden part of a half-done split |
| TreeShape.TreeLeaves | src/btree.cpp:222-258 | a tree with h internal levels has at least 2·3^(h-1) leaves |
| TreeShape.TreePages | src/btree.cpp:222-258 | a tree with h internal levels uses at least 2·3^(h-1) pages |
| TreeShape.HeightBound | include/page.h:9-10 | page ids are 32 bits, so no tree has more than 20 internal levels |
| TreeShape.FramesNeverRunOut | src/btree.cpp:115-184 | with 22 frames an insert on a tree between operations never runs out of them, however large the tree |
| TreeShape.RoomyInsert | src/btree.cpp:55-184 | where the caller's check passes, one more insert finds the frames and page ids it needs |
| TreeShape.LookupMissesMidSplit | src/btree.cpp:186-220 | inserting 50 into a full root leaf: some prefix of the log the pool wrote holds, under the recorded root, the tree with only the leaf's two halves logged |
| TreeShape.SplitLeafHides | src/btree.cpp:262-349 | of that tree a scan sees all five keys and a lookup none of the last three |
| TreeShape.SplitLeafInserts | src/btree.cpp:115-184 | an insert into that tree keeps the map if and only if its key lies below the hidden part |
| TreeShape.CrashMidSplit | src/btree.cpp:11-113 | five inserts into an empty database reach it, the crash point being a prefix of the pool's own log |
| Pages.EveryStage | src/buffer_pool.cpp:155-174 | however often the log repeats unchanged images, some prefix of it holds each store that an operation's images pass through |
| LogClosed.InsertTopInOrder | src/btree.cpp:79-113 | every image an insert logs names only itself, pages present before, or pages logged earlier, root growth included, and none is an overfull leaf |
| LogClosed.InsertClosed | src/btree.cpp:79-113 | whatever part of an insert reached the log, no page of the recovered store names a missing page and no leaf is overfull |
| LogClosed.DeleteClosed | src/btree.cpp:301-318 | the same for delete |
| LogClosed.ClosedGrows | src/buffer_pool.cpp:155-174 | images in pointer order keep every prefix of the log closed under pointers and free of overfull leaves, with whatever repetitions the pool adds |
| HalfSplits.MapUnique | src/btree.cpp:320-349 | a store holds at most one map: the pages fix the leaf chain, whatever tree is read into them |
| HalfSplits.InsertReads | src/btree.cpp:115-184 | what an insert writes depends on the pages alone: two trees read into the same pages lead to the same images |
| HalfSplits.InsertKeepsMap | src/btree.cpp:115-184 | on any recovered tree an insert leaves the map with that one entry put if and only if it passes, on its way down, no hidden part that holds a key at or below its own |
| HalfSplits.InsertKeepsCrash | src/btree.cpp:55-184 | such an insert is atomic at every crash point as well |
| HalfSplits.InsertLosesOrder | src/btree.cpp:115-184 | any other insert leaves a store that holds no map at all: the leaf chain is out of order or repeats a key |
| HalfSplits.InsertLeaves | src/btree.cpp:55-184 | after such an insert the tree can be read and written to again |
| HalfSplits.FoundWritable | src/btree.cpp:30-51 | a tree found in a store without overfull leaves can be written to, once new page ids come after all its pages |
| Wal.WALManager.constructor | src/wal.cpp:52-117 | opening a log keeps the longest run of whole records, cuts everything after it, and continues its sequence numbers: the model's reopen |
| Wal.WALManager.AppendRecord | src/wal.cpp:125-169 | an append adds one whole record with a sequence number above all earlier ones, and changes no earlier record: the model's append |
| Wal.HistorySurvives | src/wal.cpp:70-169 | over every history of appends, torn appends, crashes and reopens the log holds exactly the surviving images, in order, under rising sequence numbers |
| Wal.PlayHistory | src/wal.cpp:52-169 | played on the log object itself from an empty file, any history ends with an open log of exactly the surviving images |
| Recovery.HighestIsLast | src/recovery.cpp:15-21 | choosing the highest sequence number per page is choosing the last record of the page in the file |
| Recovery.LatestPerPage | src/recovery.cpp:15-21 | the reduction loop computes that choice |
| Recovery.RunRecovery | src/recovery.cpp:7-39 | after recovery the disk is the old disk with the log replayed over it, and no allocated id will equal one on disk or in the log |
| Recovery.ReplayIdempotent | src/recovery.cpp:23-29 | replaying twice is replaying once |
| Recovery.ReplayForgetsDisk | src/recovery.cpp:23-29 | the recovered pages do not depend on which pages evictions had written, or how stale they were |
| Recovery.DiskManager.RefreshNextPageIdAfterRecovery | src/disk_manager.cpp:86-97 | the allocation counter is taken from the file's length after replay |
| PoolModel.VictimFacts | src/buffer_pool.cpp:78-100 | the victim is the unpinned frame nearest the tail of the LRU list; none is found only if every listed frame is pinned |
| PoolModel.FetchEffect | src/buffer_pool.cpp:102-129 | a fetch, evictions included, keeps the pool's invariant and every page a reader sees, pins one page, and fails only if all frames are pinned |
| PoolModel.NewEffect | src/buffer_pool.cpp:131-153 | a new page appears blank under an id never used before; nothing else changes |
| PoolModel.WriteEffect | src/buffer_pool.cpp:34-38 | changing a pinned page changes that page alone |
| PoolModel.ReleaseEffect | src/buffer_pool.cpp:40-47 | dropping a guard makes the page's present content the durable one, logging it first if dirty |
| Buffers.BufferPool.constructor | src/buffer_pool.cpp:51-59 | a pool over a recovered disk starts with every frame free and shows the disk |
| Buffers.BufferPool.FindVictimFrame | src/buffer_pool.cpp:78-100 | the search from the tail, with its write-back, is the model's eviction |
| Buffers.BufferPool.FetchPage | src/buffer_pool.cpp:102-129 | hit or miss, the guard shows the page as last changed; the view and the log stay as they were |
| Buffers.BufferPool.NewPage | src/buffer_pool.cpp:131-153 | allocation as in the model, with an id beyond disk, cache and log |
| Buffers.BufferPool.WritePage | src/buffer_pool.cpp:34-38 | changes one page of the view |
| Buffers.BufferPool.UnpinPage | src/buffer_pool.cpp:155-174 | marks, logs and unpins in that order; a page not cached is ignored |
| Buffers.BufferPool.Release | src/buffer_pool.cpp:40-47 | the page becomes durable, the view does not change, one pin is dropped |
| Buffers.BufferPool.FlushPage | src/buffer_pool.cpp:176-188 | writes the cached page and calls it clean, pinned or not |
| Buffers.BufferPool.FlushAll | src/buffer_pool.cpp:190-200 | flushes exactly the cached pages that are dirty, in some order |
| PoolRuns.StepRefines | src/buffer_pool.cpp:102-188 | to its callers the pool is a flat page store: only changes and new pages alter what is read |
| PoolRuns.RunKeeps | src/buffer_pool.cpp:61-188 | over every run the invariant holds: the page table is a bijection with the frames in use, every frame is in one list, the log only grows |
| PoolRuns.RunCrash | src/buffer_pool.cpp:78-174 | in every state of every run a page on disk has its image in the log, and replay gives each page its last logged image |
| PoolRuns.EvictionsDoNotMatter | src/buffer_pool.cpp:78-100 | two runs that logged the same images recover to the same pages, whatever each evicted |
| PoolRuns.FlushWritesAhead | src/buffer_pool.cpp:176-188 | what a flush puts on disk obeys the write-ahead rule if and only if that image was logged at some time |
| PoolRuns.FlushIffLogged | src/buffer_pool.cpp:176-188 | a flush of a cached page keeps the invariant if and only if the page's last logged image is what the frame holds |
| PoolRuns.FlushThenRelease | src/buffer_pool.cpp:155-188 | a flush of a pinned page and then the drop of its guard: recovery gives what readers saw if and only if the change was logged before the flush |
| PoolRuns.FlushHazard | src/buffer_pool.cpp:176-200 | a flush of a pinned fresh page breaks the rule, and dropping its guard then logs nothing |
| PoolRuns.FlushStale | src/buffer_pool.cpp:155-188 | a flush that obeys the write-ahead rule with a stale image, after which the change is lost |
| PoolRuns.FlushAllIffLogged | src/buffer_pool.cpp:190-200 | flushing any pages keeps the invariant if and only if the change of each of them was logged |
| PoolRuns.FlushAllThenRelease | src/buffer_pool.cpp:155-200 | after such a flush the drop of a guard leaves what readers saw durable if and only if the change was logged before |
| PoolRuns.FlushAllKeeps | src/buffer_pool.cpp:190-200 | flushing pages whose changes are all logged keeps the invariant and the view, and leaves each of them clean |
| PoolRuns.FlushAllOnDisk | src/buffer_pool.cpp:190-200 | flushing every cached page, all changes being logged, leaves the disk exactly as readers see it |
| PoolRuns.CleanOnDisk | src/buffer_pool.cpp:184-188 | a clean cached page is on disk as readers see it |
| PoolRecency.TimesAreLast | src/buffer_pool.cpp:61-76 | the time kept for a frame is the last step that handed it out |
| PoolRecency.RunKeepsRecency | src/buffer_pool.cpp:61-153 | along every run, evictions included, the LRU list is in order of the steps that last handed out its frames |
| PoolRecency.VictimIsOldest | src/buffer_pool.cpp:78-100 | in every state that any run from a fresh pool reaches, the frame given up when none is free is the unpinned one fetched or created longest ago |
| BTrees.FindChild | src/btree.cpp:154-163 | the descent loop stops at the first separator above the key, so equal keys go right |
| BTrees.PutCell | src/btree.cpp:124-151 | the search and shift loop in a leaf computes the sorted put and says whether the key was there |
| BTrees.FindCell | src/btree.cpp:291-298 | the search loop of a lookup |
| BTrees.RemoveCell | src/btree.cpp:306-317 | the search and shift loop of a delete |
| BTrees.ScanLeaf | src/btree.cpp:332-343 | the loop over one leaf of a scan, and whether it passed the upper bound |
| BTrees.BTree.SplitLeafIfNeeded | src/btree.cpp:186-220 | keeps or halves an overfull leaf; the new right page is logged before the left one |
| BTrees.BTree.SplitInternalIfNeeded | src/btree.cpp:222-258 | keeps or halves an overfull internal node, promoting the middle separator out of both parts |
| BTrees.BTree.InsertRecursive | src/btree.cpp:115-184 | the page images logged are those of the insert function, in its order, and the store ends as it says, half-done splits on the way included |
| BTrees.BTree.Insert | src/btree.cpp:55-113 | a value too long is refused; else the map gains one entry if and only if the key passes no smaller hidden key, as it never does between operations; then at every point of the log in between recovery sees the old or the new map; the log stays closed under pointers; height + 2 frames always suffice |
| BTrees.BTree.RecordRoot | src/btree.cpp:105-112 | the new root is recorded in the metadata page or in one catalog slot, and nowhere else |
| BTrees.BTree.FindLeafPageId | src/btree.cpp:262-284 | the descent loop reaches the leaf the descent function names |
| BTrees.BTree.Get | src/btree.cpp:286-299 | a lookup finds a key if and only if the tree holds it outside hidden parts, and returns what the ordered map holds under it |
| BTrees.BTree.RangeScan | src/btree.cpp:320-349 | a scan returns exactly the map's entries between the bounds, also on a tree recovered in the middle of a split |
| BTrees.BTree.Delete | src/btree.cpp:301-318 | the map loses the key and the result says whether it was there, unless a half-done split hides it, when nothing changes; every crash point shows the old or the new map, and the log stays closed under pointers |
| BTrees.CreateTree | src/btree.cpp:11-29 | a fresh database holds the empty map at every log prefix that contains the metadata page, and no prefix has a dangling pointer |
| BTrees.OpenTree | src/btree.cpp:30-51 | reopening reads the recorded root, of a tree in the middle of a split too |
| Journals.JournalCovers | src/recovery.cpp:7-39 | in a log that records, call by call, the state before or after each call, every crash point from the first call on holds the state after some of the calls |
| Databases.EveryCrashPoint | src/btree.cpp:55-318 | for every sequence of inserts and deletes and every prefix of their images, recovery gives the map after the completed operations, or after one more |
| Databases.RealLogCrash | src/btree.cpp:55-318 | the same for any log growth that covers those images with repetitions |
| Databases.RunOps | src/btree.cpp:55-318 | any number of calls on the object one after the other: the tree ends with the ordered map after all of them, and each prefix of the pool's own log, call by call, recovers to the map before or after that call; 22 frames always suffice |
| Databases.RunFromEmpty | src/btree.cpp:11-318 | from the first page on: every log prefix with the metadata page holds the map after some of the calls, and no prefix has a dangling pointer |
| Databases.ReopenAndScan | src/recovery.cpp:7-39 | cutting the torn tail, replaying over any leftover disk, opening and scanning returns exactly the surviving map |
| Databases.ReopenAndInsert | src/btree.cpp:55-113 | cutting, replaying, opening and inserting one entry, in the middle of a split perhaps: the map gains the entry if and only if the key passes no smaller hidden key |
| RowCodecs.LeBack | src/row_codec.cpp:84-87 | the value read from the eight little-endian bytes is the value written |
| RowCodecs.ColumnBack | src/row_codec.cpp:25-95 | each column read at its offset gives back what was written there, for all 64-bit integers and all texts of up to 15 bytes |
| RowCodecs.Encode | src/row_codec.cpp:17-72 | a row is accepted exactly when every stored value has its column's type and fits; the blob is the columns' bytes in order |
| RowCodecs.Decode | src/row_codec.cpp:74-95 | every column is read at its own offset, the key goes to the key column |
| RowCodecs.DecodeUndoesEncode | src/row_codec.cpp:17-95 | decoding an encoded row under its own key gives back the row, for every schema and every accepted row |
| CatalogModel.InsertKeeps | src/catalog.cpp:232-290 | an insert into one table changes that table's map at one key and its recorded root; every other table keeps its tree, slot and pages |
| CatalogModel.OthersAtEveryCrash | src/catalog.cpp:232-290 | at every crash point of an insert into one table every other table still has its own tree |
| CatalogModel.CreateAtEveryCrash | src/catalog.cpp:187-217 | at every crash point of a CREATE TABLE every table already in use has its own tree |
| CatalogModel.CreateKeeps | src/catalog.cpp:187-230 | a new table starts empty on a page of its own and disturbs no other |
| CatalogModel.CreateClosed | src/catalog.cpp:187-217 | whatever part of CREATE TABLE reached the log, no page of the recovered store names a missing page |
| CatalogModel.BumpClosed | src/catalog.cpp:257-262 | the same for the image that counts a row |
| CatalogModel.BumpKeeps | src/catalog.cpp:257-262 | counting a row disturbs no table |
| CatalogModel.RemoveKeeps | src/catalog.cpp:232-248 | a delete in one table's tree changes that table's map at one key; every other table keeps its tree |
| CatalogRuns.StepKeeps | src/catalog.cpp:187-290 | creating a table, putting or removing an entry and counting a row each mean exactly that to the tables, and keep the catalog in order |
| CatalogRuns.StepCrash | src/catalog.cpp:187-290 | at every crash point of such a change the store holds all the tables from before it or all from after it: names, schemas, slots in use and entries |
| CatalogRuns.RunCrash | src/catalog.cpp:187-290 | at every crash point of any run of changes the store holds the tables after some of them |
| CatalogRuns.RealLog | src/catalog.cpp:187-290 | the same at every prefix of the real log, which stays closed under pointers throughout |
| CatalogRuns.FromEmpty | src/catalog.cpp:30-290 | from an empty database on, every log prefix of any run of changes is closed under pointers and, once it names the catalog page, holds the tables after some of the changes |
| CatalogRuns.ChangesAtomic | src/catalog.cpp:187-290 | a call that logs one change, and perhaps a count after it, is atomic at every crash point |
| Catalogs.SchemaIs | src/catalog.cpp:117-177 | the schemas accepted: one to eight columns with names of 1 to 23 bytes, exactly one of them a primary key, an INTEGER; the check of the encoded size never refuses one of them |
| Catalogs.RowIs | src/row_codec.cpp:27-68 | the rows accepted: for each column a value of its type, integers of 64 bits, texts of at most 15 bytes |
| Catalogs.CheckColumns | src/catalog.cpp:113-167 | a schema is accepted exactly when it has one to eight well-named columns, exactly one primary key, an INTEGER one, and rows that fit a cell |
| Catalogs.Catalog.FindTableIndex | src/catalog.cpp:80-87 | the slot in use under a name, or none |
| Catalogs.Catalog.CreateTable | src/catalog.cpp:101-230 | refused exactly for a bad or used name, a bad schema or a full catalog; else one more empty table, its root logged before the catalog names it; every crash point shows the tables without it or with it |
| Catalogs.Catalog.AddTable | src/catalog.cpp:187-230 | the root page and then the catalog page: one table more, its change alone in the log |
| Catalogs.Catalog.GetTable | src/catalog.cpp:232-248 | the tree of a table, opened once from its recorded root |
| Catalogs.Catalog.BumpRowCount | src/catalog.cpp:257-262 | one count goes up by one |
| Catalogs.Catalog.InsertRow | src/catalog.cpp:264-290 | accepted exactly when the table takes the row; then that table has the row under its key, its count is one higher, no other table changed, every point of the log in between recovers to all tables from before or all from after, and no pointer dangles |
| Catalogs.Catalog.ScanTable | src/catalog.cpp:292-310 | the rows the table stores, decoded, in strictly increasing key order, on a catalog recovered in the middle of a split too |
| Catalogs.Catalog.EstimatedRowCount | src/catalog.cpp:312-321 | the count the catalog page keeps for the table of this name, or an error if there is none; nothing stored changes |
| Catalogs.ScanUnique | src/catalog.cpp:292-310 | there is only one such sequence of rows |
| Catalogs.LastInsertWins | src/catalog.cpp:264-290 | over any sequence of rows, refused ones included, a key is stored if and only if an accepted row had it, with the last such row |
| CatalogCalls.InsertsEffect | src/catalog.cpp:264-290 | INSERT calls into an empty table leave the last accepted row under each key |
| CatalogCalls.InsertAndScan | src/catalog.cpp:264-310 | INSERT calls on the catalog followed by a scan: exactly the last accepted row of each key, in strictly increasing key order |
| CatalogCalls.RunCalls | src/catalog.cpp:101-290 | any sequence of CREATE TABLE and INSERT calls, refused ones included: the tables end as the calls say, and each prefix of the pool's own log, call by call, recovers to the tables before or after that call; 22 frames always suffice |
| CatalogCalls.RunFromEmpty | src/catalog.cpp:30-290 | from the first page on: every log prefix with the catalog page holds all tables with all their rows after some of the calls, and no prefix has a dangling pointer |
| Catalogs.CreateCatalog | src/catalog.cpp:30-56 | a fresh database has a catalog on page 0 and no tables |
| Catalogs.OpenCatalog | src/catalog.cpp:58-78 | reopening finds the tables the catalog page lists, with their rows and counts, whether or not a split was under way |
| Reopenings.Rebuilt | src/catalog.cpp:58-78 | a store that holds the tables can be read as a catalog of exactly those, half-done splits included |
| Reopenings.Reopen | src/catalog.cpp:58-78 | cutting the torn tail, replaying over any leftover disk and opening the catalog gives exactly the surviving tables |
| Reopenings.ReopenAndRead | src/catalog.cpp:292-321 | and scanning every table returns its surviving rows, in key order, with the count its entry keeps |
| Reopenings.CrashReopens | src/recovery.cpp:7-39 | whatever prefix of the log of a run of calls a crash leaves, those surviving tables are the ones after some of the calls, and reopening accepts them |
| Query.FindColumn | src/exec_row.cpp:5-34 | the two lookup loops: first match when qualified, the only match when not |
| Query.CompareTextIs | src/expr_eval.cpp:28-30 | the comparison of two texts is negative, zero or positive exactly as the first comes before, equals or comes after the second in lexicographic order: the first differing character decides, and a proper prefix comes first |
| Query.ComparesIs | src/expr_eval.cpp:17-75 | each of the six operators evaluates to its relation, on integers and on texts; an integer and a text cannot be compared |
| Query.EvalSame | src/expr_eval.cpp:35-91 | evaluation does not see the order in which tables stand in a row, errors included |
| Joins.PairsExact | src/physical_plan.cpp:91-107 | the loop over pairs of rows visits each pair in range exactly once |
| Joins.NestedPairs | src/physical_plan.cpp:91-107 | a nested-loop join emits exactly the pairs on which the condition holds, each once |
| Joins.NestedLoopJoin.Next | src/physical_plan.cpp:91-107 | each call yields the next matching pair, an error of the condition, or the end |
| Joins.RunNestedLoop | src/physical_plan.cpp:78-107 | pulled to exhaustion the iterator yields the nested-loop result and terminates |
| Joins.HashPairs | src/physical_plan.cpp:146-176 | a hash join emits exactly the pairs with equal keys, each once |
| Joins.HashJoin.Open | src/physical_plan.cpp:130-144 | the build side is indexed by key, each bucket in insertion order; a missing key column fails |
| Joins.HashJoin.Next | src/physical_plan.cpp:146-176 | each call yields the next match of the current or a later probe row, an error, or the end |
| Joins.RunHashJoin | src/physical_plan.cpp:130-176 | pulled to exhaustion the iterator yields the hash-join result and terminates |
| HashNested.HashRightIsNested | src/physical_plan.cpp:78-176 | built on the right side, the hash join equals the nested loop under `column = column` if and only if no pair of keys mixes kinds |
| HashNested.HashLeftIsNested | src/physical_plan.cpp:78-176 | built on the left side, the same up to the order of rows and of tables, if and only if no pair of keys mixes kinds |
| Bags.FilterSame | src/physical_plan.cpp:53-59 | a filter of equal bags fails on both or gives equal bags, for every predicate, well typed or not |
| Bags.ProjectSame | src/physical_plan.cpp:192-212 | a select list over equal bags fails on both or gives the same rows with the same multiplicities |
| References.FindInRow | src/exec_row.cpp:5-34 | a reference that its scope resolves reads the value of its owner's row in any joined row that holds the owner and, if unqualified, no other table with the column, whatever the order of tables |
| References.FindIfAlone | src/exec_row.cpp:17-34 | an unqualified reference can be read in a joined row if and only if exactly one column of its tables has the name |
| References.FindAlone | src/exec_row.cpp:17-34 | it then reads the value of that table's row, whether or not validation meant that table |
| JoinOrder.OperandIs | src/expr_eval.cpp:35-53 | an operand reads its owner's value in any layout that keeps its meaning, unless it is an unqualified column that its table declares more than once |
| JoinOrder.EvalIs | src/expr_eval.cpp:55-91 | on a row in which its references keep their meaning a condition evaluates to what it means for the chosen rows, whatever the layout, and fails exactly where it comes to such a column or to values of two kinds; AND and OR come to their right side only if the left leaves it open |
| JoinOrder.NeverStuckTyped | src/expr_eval.cpp:55-91 | a well-typed condition never fails |
| JoinOrder.JoinComplete | src/physical_plan.cpp:339-434 | joining one more table exactly keeps the list of satisfying combinations complete and free of repeats |
| JoinSteps.NestedStep | src/physical_plan.cpp:426-429 | one nested-loop step of the plan lists exactly the satisfying combinations with one more table |
| JoinSteps.HashOnNew | src/physical_plan.cpp:414-418 | the same for a hash join built on the new table |
| JoinSteps.HashOnAccumulated | src/physical_plan.cpp:409-413 | the same for a hash join built on the accumulated rows |
| JoinSteps.JoinPlanLists | src/physical_plan.cpp:339-434 | any join plan whose order respects the conditions lists exactly the satisfying combinations, each once |
| JoinSteps.JoinOrderDoesNotMatter | src/physical_plan.cpp:339-434 | any two such plans, whatever order, strategies and build sides, succeed with the same bag of rows |
| Planner.BuildLogicalPlan | src/logical_plan.cpp:16-48 | the loop builds the left-deep textual tree under the filter and the select list |
| Planner.FlattenUndoes | src/physical_plan.cpp:287-306 | flattening the textual tree gives back the tables in order, each with the condition that introduced it |
| Planner.JoinNext | src/physical_plan.cpp:383-429 | a hash join exactly when the condition is a column equality naming the new table and the sum of the estimates is no larger than their product, both mod 2^64; built on the side estimated smaller |
| Planner.EstimateIs | src/physical_plan.cpp:111-182 | a plan of nested loops only is estimated at the product of the row counts, one of hash joins only at their sum, both mod 2^64 |
| Planner.PickNext | src/physical_plan.cpp:347-367 | the candidate with the fewest rows, the first such as written; none only if no table can be attached |
| Planner.NeverStuck | src/physical_plan.cpp:368-381 | while a table is left, the first one left can be attached, for any row counts |
| Planner.NotScoped | src/physical_plan.cpp:368-381 | reaching the fallback proves that some condition names a table written after it |
| Planner.AttachConnected | src/physical_plan.cpp:351-361 | a table is attached only after every table its condition names |
| Planner.JoinAll | src/physical_plan.cpp:331-434 | the loop joins every table once in the greedy order and, for scoped statements, never takes the fallback |
| Planner.NearReached | src/physical_plan.cpp:232-258 | when each unqualified ON reference is to the first table or to the one its condition introduces, and no later table repeats its column, every order that respects the qualified references reaches all of them |
| PlanMeaning.BuildPhysicalPlan | src/physical_plan.cpp:310-443 | a left-deep plan becomes such a join plan under its filter and select list; any other shape is refused |
| PlanMeaning.PlanKeepsMeaning | src/physical_plan.cpp:310-443 | any join plan whose order reaches the conditions as the text does answers the textual query: both fail or both give the same rows with the same multiplicities |
| PlanMeaning.PlanMeansReordered | src/physical_plan.cpp:310-443 | a join plan in any order answers what the statement means with its tables, and the conditions that introduce them, written in that order, whenever the references resolve so |
| PlanLimits.AbsentKeyFails | src/physical_plan.cpp:130-176 | a hash join whose key the accumulated rows lack fails if and only if there is such a row, whichever side it builds on |
| PlanLimits.AbsentOperandFails | src/physical_plan.cpp:91-107 | a nested-loop join on a comparison that no pair can evaluate fails if and only if both inputs have rows |
| PlanLimits.SelfEqualityFails | src/physical_plan.cpp:398-425 | an equality inside the new table: the hash join fails if and only if there is an accumulated row; the nested loop does not |
| PlanLimits.UnreadableFails | src/physical_plan.cpp:232-258 | an unqualified column that the tables joined so far lack or have twice: the comparison fails if and only if there is a pair of rows, the hash join if and only if there is an accumulated row; a column that one of them has once never fails |
| PlanLimits.StepFails | src/physical_plan.cpp:232-258 | a step whose equality has such a column fails if and only if some combination of the tables before it satisfies their conditions and, for a nested loop, the new table has a row |
| PlanLimits.PlanFails | src/physical_plan.cpp:339-434 | a plan with such a step in it fails as a whole |
| PlanLimits.TextAnswers | src/logical_plan.cpp:16-48 | the statement as written has an answer, empty if and only if no combination satisfies the conditions |
| PlanWitnesses.LooseValid | src/semantic.cpp:25-42 | a statement with an unqualified ON column of the second table, accepted by validation |
| PlanWitnesses.UnqualifiedReferenceFails | src/physical_plan.cpp:232-258 | on that statement every greedy plan joins the third table second and fails, while the text has an answer |
| PlanWitnesses.PlanLoose | src/physical_plan.cpp:310-443 | planning that statement succeeds without the fallback, and running the plan fails |
| PlanWitnesses.ClashValid | src/semantic.cpp:84-88 | a statement with an unqualified ON column that a table written later repeats, accepted by validation |
| PlanWitnesses.AmbiguousReferenceFails | src/exec_row.cpp:17-34 | on that statement every greedy plan joins the later table first, finds the column ambiguous and fails, while the text has an answer |
| PlanWitnesses.PlanClash | src/physical_plan.cpp:310-443 | planning that statement succeeds without the fallback, and running the plan fails |
| PlanWitnesses.StrayReferenceMisread | src/exec_row.cpp:17-34 | on a third valid statement every greedy plan reads an unqualified column from a table written later, succeeds, and gives different rows |
| PlanWitnesses.PlanStray | src/physical_plan.cpp:310-443 | planning it succeeds without the fallback, and the plan answers another question |
| Semantic.CheckRef | src/semantic.cpp:14-43 | accepts a qualified column of a table in scope, or an unqualified one that exactly one table has |
| Semantic.ValidateColumnRefsIn | src/semantic.cpp:12-66 | accepts an expression exactly when every reference in it is accepted |
| Semantic.ValidateSelect | src/semantic.cpp:68-123 | accepts exactly the statements whose tables exist under different aliases, whose ON conditions see only the tables written so far, and whose other references see all |
| Naming.ScopeNames | src/semantic.cpp:71-88 | the scope holds each table under the name after AS if there is one, and only under it, and else under its own name |
| Naming.ValidIs | src/semantic.cpp:68-123 | the statements that pass validation, said without a scope: the tables exist and are called differently, each ON reference is to one of the tables written up to its own, every other reference to one of all |
| Naming.OneTableAccepts | src/semantic.cpp:71-123 | a statement on one table may refer to its columns, bare or under what the table is called; written AS another name, not under its own |
| Naming.SelfJoinAccepts | src/semantic.cpp:71-88 | a table can be joined with itself exactly under two different names, and the condition then says which of the two each column is of; without names never |
| Naming.RenamingAccepts | src/semantic.cpp:68-123 | calling the tables by other names, different for different ones, and the references with them, does not change what is accepted |
| Naming.RenamingAnswers | src/logical_plan.cpp:16-48 | nor the answer, but for the names: the same rows in the same order, or an error in both, for every statement, validated or not |
| SelectMeaning.TreeMeans | src/logical_plan.cpp:16-48 | joining the tables as written fails if and only if some condition is stuck on rows it is asked about, and else lists exactly the choices that satisfy all conditions, each once |
| SelectMeaning.FilterMeans | src/physical_plan.cpp:53-59 | WHERE fails if and only if it is stuck on some choice, and else keeps exactly those for which it holds |
| SelectMeaning.ProjectMeans | src/physical_plan.cpp:192-212 | a select list fails if and only if there is a row and an item that cannot be read; else each row has one field per item, with the value of the item's owner, named by the item's alias if it has one and by its column if not |
| SelectMeaning.StarMeans | src/physical_plan.cpp:195 | `*` shows the chosen rows side by side, each field under what its table is called and its column's name |
| SelectMeaning.TextMeans | src/logical_plan.cpp:16-48 | every validated SELECT as written, well typed or not: the exact condition under which it has no answer, and else one such row for each choice that satisfies the ON conditions and WHERE |
| Semantic.ValidScoped | src/semantic.cpp:84-88 | a validated statement is one the planner's guarantees are about |
| Semantic.ValidReached | src/semantic.cpp:84-88 | in a validated statement the tables as written reach every ON reference, qualified or not |
| Semantic.ScopeResolves | src/semantic.cpp:12-66 | validation accepts a condition over the tables written so far if and only if each of its references resolves among them |
| Semantic.TextReached | src/semantic.cpp:68-95 | the ON conditions pass validation if and only if the textual order reaches all their references |
| Semantic.PlanSelect | src/physical_plan.cpp:310-443 | a validated statement is always planned, without the fallback, in the greedy order; with well-typed conditions the plan means what the text says whenever its order reaches what they refer to, and in any case what the statement means rewritten in that order, if that is valid |
| Resolution.ValidatedResolves | src/exec_row.cpp:5-34 | a validated reference resolves on every joined row if and only if it is qualified or its column is declared once in its table |
| Inserts.ValidateInsert | src/semantic.cpp:125-168 | accepts exactly one value per column, or a column list naming every column once |
| Inserts.PositionsPermute | src/semantic.cpp:145-167 | an accepted column list names every schema position exactly once |
| Inserts.PlaceValues | src/engine.cpp:30-48 | every slot of the row holds the value listed for its column |
| Executor.Execute | src/physical_plan.cpp:18-214 | running a plan operator by operator yields the plan's result |
| Executor.ScanTable | src/physical_plan.cpp:18-34 | every stored row, tagged with alias and column names |
| Engines.ScannedTyped | src/catalog.cpp:292-310 | what a scan returns has the types of its columns, as the planner's guarantee assumes |
| Engines.RowFromUnique | src/engine.cpp:30-48 | an INSERT stands for one row |
| Engines.ExecuteInsert | src/engine.cpp:30-51 | accepted exactly when the table exists, the statement validates against it and the table takes the row it stands for; then the row is stored and counted, every crash point shows all tables from before or from after, and else nothing changes |
| Engines.ShowsUnique | src/catalog.cpp:292-321 | what a query can see of a catalog, columns, scanned rows and counts, is determined by it |
| Engines.ReadTables | src/physical_plan.cpp:18-34 | the tables a query sees: each scanned and counted from the catalog, nothing stored changed |
| Engines.RunSelect | src/engine.cpp:53-78 | validated, planned and run on given tables: only validated statements have an answer; with well-typed ON conditions it is what the statement means (`Tells`) when the greedy order reaches the references, and in any case what the statement reordered means, if that is valid |
| Engines.ExecuteSelect | src/engine.cpp:53-78 | on the catalog: only validated statements have an answer, and it is that answer on the rows the tables store, on a catalog recovered in the middle of a split too; nothing stored changes |
| Engines.RepeatedColumnFails | src/exec_row.cpp:17-34 | a validated query for a column its table declares twice fails if and only if the table has a row |
| Engines.RepeatedSchema | src/catalog.cpp:113-167 | CREATE TABLE accepts a schema with such a column |
| Sqls.SqlRepresentable | src/parser.cpp:274-292 | the literals of an INSERT parsed from a byte text are 64-bit integers and byte strings |
| Sqls.RunInsert | src/engine.cpp:30-51 | an INSERT statement: the tables are then as it means, and every crash point shows them as before or as after |
| Sqls.RunQuery | src/engine.cpp:53-78 | a SELECT statement: its answer, with no table changed at any crash point |
| Sqls.ExecuteSQL | src/engine.cpp:82-102 | a text is lexed, parsed, validated and run: CREATE TABLE and INSERT fail exactly when refused, a SELECT gives that answer, the tables are then as the statement means, and every crash point recovers them as before or as after |
| Grammar.ExprBack | src/parser.cpp:216-292 | however a condition is written, with parentheses at any level, around comparisons too, parsing gives the condition and leaves what follows: OR below AND below comparison, both to the left |
| Grammar.ExprWritten | src/parser.cpp:216-292 | whatever parses to a condition is one of those writings of it |
| Grammar.OneReading | src/parser.cpp:216-292 | no tokens can be read as two conditions |
| Grammar.NoneShorter | src/parser.cpp:216-292 | the writing with parentheses only where the grammar needs them is the shortest |
| Statements.StatementBack | src/parser.cpp:44-214 | however a statement is written, parsing gives the statement, with or without a final semicolon |
| Statements.ParsedIsWritten | src/parser.cpp:44-214 | the tokens that parse to a statement are exactly its writings |
| Statements.ShortestForm | src/parser.cpp:44-214 | and every statement the grammar can express has a writing |
| Statements.ListBack | src/parser.cpp:78-81 | parsing a written comma-separated list gives back its elements |
| Statements.ListWritten | src/parser.cpp:78-81 | whatever parses as a list is its elements as written, with commas between |
| Parsers.Parser.Advance | src/parser.cpp:17-21 | the cursor moves by one token and never past END_OF_INPUT |
| Parsers.Parser.Expression | src/parser.cpp:216-226 | the OR loop parses what the grammar function says, and terminates |
| Parsers.Parser.AndExpression | src/parser.cpp:228-238 | the AND loop likewise |
| Parsers.Parser.Primary | src/parser.cpp:240-247 | a parenthesised condition or a comparison |
| Parsers.Parser.Comparison | src/parser.cpp:249-259 | two operands around an operator |
| Parsers.Parser.Value | src/parser.cpp:274-292 | a column, perhaps qualified, or a literal |
| Parsers.Parser.Create | src/parser.cpp:70-85 | CREATE TABLE as the grammar function says |
| Parsers.Parser.InsertInto | src/parser.cpp:106-130 | INSERT as the grammar function says |
| Parsers.Parser.SelectFrom | src/parser.cpp:154-179 | SELECT as the grammar function says |
| Parsers.Parser.Statement | src/parser.cpp:44-66 | one statement, an optional semicolon, and the end |
| Parsers.ParseSQL | src/parser.cpp:296-300 | lexing then parsing a text |
| Parsers.SqlIs | src/parser.cpp:296-300 | the texts that parse to a statement are exactly those that write it |
| Lexing.LexEnds | src/lexer.cpp:214-219 | the tokens of any text end with the only END_OF_INPUT |
| Lexing.WordTokenIs | src/lexer.cpp:79-95 | a word is a keyword exactly if it is that keyword's letters, each in upper or in lower case |
| Lexing.KeywordLexed | src/lexer.cpp:79-95 | and is read as it wherever the word stops |
| Lexing.NumberWritten | src/lexer.cpp:97-112 | any digits are a decimal numeral with leading zeros, and are read as that number |
| Lexing.StringBack | src/lexer.cpp:114-143 | reading a quoted text with doubled quotes gives back the text |
| Lexing.StringWritten | src/lexer.cpp:114-143 | whatever is read as a text is that text with quotes doubled, up to a single quote |
| Lexing.OneBack | src/lexer.cpp:152-211 | however a token is written, it is read as that token, up to what stops it |
| Lexing.OneWritten | src/lexer.cpp:152-211 | whatever is read as a token is written in one of those ways and stops there |
| Lexing.LexBack | src/lexer.cpp:145-220 | lexing a text spelled from tokens, with space of any kind wherever it is wanted and where two tokens would merge, gives back the tokens |
| Lexing.LexedIsSpelled | src/lexer.cpp:145-220 | the lexer reads exactly the spelled texts |
| Lexing.Lexer.Next | src/lexer.cpp:152-211 | one token as the lexing function says, with at least one character consumed |
| Lexing.Tokenize | src/lexer.cpp:145-220 | the whole text as the lexing function says |

## Left out

- Byte layout of pages, alignment and page checksums: pages are structured values with slot-count bounds; the log sequence number that the pool writes into a page header is not modelled.
- File descriptors, `pread`, `pwrite`, `fsync`, `ftruncate`, `stat`: the disk is a map from page id to page and a file length, the log a sequence of whole or torn slots.
- The record checksum of the log (src/wal.cpp:18-48): a torn slot is assumed to be recognised.
- A pool without a log (`wal_manager_ == nullptr`): the model always has one.
- The mutex and atomics: one thread.
- Exceptions that stop in the middle of a change (pool exhausted during a split, corrupt page on fetch): operations require enough frames and page ids up front.
- Shifting cells in place inside a page: a leaf's cells and a node's separators are sequences that the loops rebuild, so element moves within the buffer are not visible.
- Error texts, line and column numbers, token text of keywords, and the list of column names of a result.
- Estimates and cost optimality: only which table, strategy and build side the estimates select is modelled, with their wrap-around.
- Executor.Execute: runs each operator to exhaustion; each join iterator is modelled row by row, but the interleaving of operators as a plan is pulled one row at a time is not.
- Order within a bucket of the hash table: the model takes insertion order; results are compared as bags wherever it could show.
- Locale: character classes are those of ASCII; a byte order other than little-endian is not modelled.
- Names containing a zero byte, which the catalog page would cut on reopening: the lexer never produces one.
- PlanMeaning.PlanKeepsMeaning: stated for well-typed ON conditions without an equality keyed inside the new table; on ill-typed ones the text is given in full by `SelectMeaning.TextMeans`, and the two join strategies per join in `HashNested` and `PlanLimits`.
- Engines.ExecuteSelect: reads every table of the catalog, where the source scans only the tables of the plan; a scan changes nothing that a query sees.
- Databases.RunOps: the caller checks before a run that 22 page ids per call are left and that the pool has frames for the height those ids allow (`Roomy`; 22 frames always do); the same holds of `CatalogCalls.RunCalls` and `Sqls.ExecuteSQL`.
- BTrees.BTree.Insert: on a tree recovered in the middle of a split the frames its height needs are required of the caller, since the bound of 20 levels is proved for finished trees.
- Catalogs.Catalog.InsertRow: writes to a catalog whose trees are all settled; a single recovered tree is written to in `Databases.ReopenAndInsert`, and a recovered catalog is only read.
- CatalogCalls.RunCalls: a crash between an insert and its row count leaves the count one behind; counts are not part of what a crash preserves.
- Fork-and-kill tests and build files.
