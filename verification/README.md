# A verified model of a crash-consistent cache store

This project models, in Dafny, the persistent storage stack of a cache daemon and
three smaller cores of the same repository, and proves what they promise over
whole runs, whole trees and every crash point.

* **Page store** (`FreeListPages`, `StoreFile`, `StoreState`, `StoreCommit`,
  `FilePageStore`). A file of pages with two alternating meta slots, group commit,
  a free list kept in its own pages, deferred reuse, tail truncation and recovery.
  The file is modelled together with what a power loss may leave of it: every
  subset of the writes since the last fsync, each possibly torn. The class records
  every device operation in a ghost trace, and its invariant says that each moment
  of the trace is one recovery survives. `StoreContract` and `FileContract` say what
  any page store promises its client and that this one keeps it; `CrashSafeTree` ties
  what a power loss gives back to the trees that were committed.
* **Tree** (`Keys`, `TreeModel`, `PageSizes`, `TreeOps`, `TreeTxn`, `PageStore`,
  `CowTree`, `TreeReads`, `TreeRuns`, `CrashSafeTree`). The copy-on-write B+tree:
  put and erase through splits, root growth, child removal and level collapse, with
  an exact account of the pages; lookup; the ordered walk. It refines a map.
* **Cache store** (`Records`, `OverflowChains`, `CacheRecords`, `CacheStore`,
  `Migration`, `Eviction`). Records and overflow chains over the tree, running
  totals, the resumable conversion between record layouts, and eviction. It refines
  a map of entries.
* **Bytes** (`Crc32c`, `PageCodec`). The table-driven CRC-32C and the page and meta
  layouts.
* **Streams** (`StreamValues`, `StreamClaims`, `StreamSweep`, `StreamKeys`). The
  stream and consumer-group operations on one key.
* **Dataflow** (`MustWritten`). The must-written fixpoint of the stack-slot probe.
* **Hand-over** (`HandOver`). The expiry sweep's trip to an executor and the count
  that `Stop` waits on.

Conventions. Source objects whose methods update fields are classes; each method's
contract ties the new state to a function of the old one, and the properties are
lemmas about those functions or invariants every method keeps. Ghost fields record
what the caller has been handed, written and committed, which is the discipline the
crash guarantee rests on. I/O, clocks and the codec are parameters. A few files
carry `hide` statements: they only keep definitions out of a proof that does not
need them.

Where the code and its documentation differ, the model follows the code:

* `CowTree.hpp` lines 157-158 say a put answers `ValueTooLarge` when the single pair
  exceeds the page payload. The code also refuses pairs within the limit when the
  split point leaves a right half larger than a page. `TreeRuns.InLimitPairRefused`
  gives such a pair for every capacity; `CowTree.CowTree.Put` states, for every tree
  and every pair, exactly when it is written: when each page of the key's path can be
  (`TreeTxn.PutWrites`). Entries of at most half a page are never refused
  (`TreeTxn.HalfPagesAccepted`), nor is a value no longer than the one it replaces
  (`TreeTxn.RewriteStays`).
* A `>` read can put an ID on a pending list twice once FORCE or XGROUP SETID has
  moved past the cursor. `StreamKeys.ForceThenRead` is a run that does it, from a new
  key, and `StreamClaims.DeliverDuplicates` says exactly when it happens.
* A meta record whose page count is the number that spells "unknown" does not read
  back as itself: `PageCodec.MetaRoundTrip`.

## Model

| member | source | states |
|---|---|---|
| FreeListPages.ListPagesNeededIsLeast | src/CowTree/CowTree/FilePageStore.cpp:651-671 | `ListPagesNeeded` is the least count of list pages that holds every entry left after taking its own pages |
| FreeListPages.PagesSufficeFrom | src/CowTree/CowTree/FilePageStore.cpp:651-671 | a count of list pages suffices if and only if it is at least `ListPagesNeeded` |
| FreeListPages.ChaseFollowsChain | src/CowTree/CowTree/FilePageStore.cpp:453-510 | chasing a written chain returns exactly its pages and exactly the ids it names, in order |
| FreeListPages.ChainFrame | src/CowTree/CowTree/FilePageStore.cpp:733-776 | a chain depends on its own pages only |
| StoreFile.CrashRecovers | src/CowTree/CowTree/FilePageStore.cpp:383-513 | whatever a power loss leaves of a safe crash point, recovery succeeds and gives back, byte for byte, the last durable commit or the one in flight, with a free set that touches none of its pages, and the reopened file is crash-safe again |
| StoreFile.WriteKeeps | src/CowTree/CowTree/FilePageStore.cpp:835-853 | writing a page no durable commit needs keeps the file crash-safe |
| StoreFile.SlotWriteKeeps | src/CowTree/CowTree/FilePageStore.cpp:942-950 | writing the next meta to the other slot, torn or not, leaves the durable commit or the new one recoverable |
| StoreFile.SlotFsyncCommits | src/CowTree/CowTree/FilePageStore.cpp:942-957 | the fsync after it makes the new commit the durable one |
| StoreFile.CutKeeps | src/CowTree/CowTree/FilePageStore.cpp:796-815 | cutting the file above every page a commit needs keeps it recoverable |
| StoreState.AllocatesUnneeded | src/CowTree/CowTree/FilePageStore.cpp:817-833 | the page handed out is needed neither by the durable commit nor by the buffered one |
| StoreState.AllocateKeeps | src/CowTree/CowTree/FilePageStore.cpp:817-833 | allocation keeps the store invariant: pages 1..total are live, free or pending-free, each exactly one |
| StoreState.WriteKeepsInv | src/CowTree/CowTree/FilePageStore.cpp:835-853 | a write to a held page keeps the invariant |
| StoreState.FreeKeeps | src/CowTree/CowTree/FilePageStore.cpp:855-873 | freeing moves a page from live to free or pending-free and keeps the invariant |
| StoreState.BufferedIsInv | src/CowTree/CowTree/FilePageStore.cpp:996-1019 | a buffered commit keeps the invariant, with the durable commit untouched |
| StoreState.CleanReopen | src/CowTree/CowTree/FilePageStore.cpp:146-171 | after a clean close the recovered free set is exactly the free list, and the rest is live |
| StoreState.RecoveredIsInv | src/CowTree/CowTree/FilePageStore.cpp:383-513 | the state recovery builds satisfies the invariant |
| StoreCommit.NewListIsUnneeded | src/CowTree/CowTree/FilePageStore.cpp:685-725 | no page chosen for the new free list is needed by the last durable commit |
| StoreCommit.NextConsistent | src/CowTree/CowTree/FilePageStore.cpp:893-940 | the commit being made owns disjoint tree and list pages and names as free none of them |
| StoreCommit.CutIsFreeTail | src/CowTree/CowTree/FilePageStore.cpp:796-815 | truncation cuts only free pages and every free page at the end |
| StoreCommit.CommitKeeps | src/CowTree/CowTree/FilePageStore.cpp:893-965 | the whole commit keeps the store invariant |
| StoreCommit.CommittedList | src/CowTree/CowTree/FilePageStore.cpp:893-965 | after a commit the free list in memory is exactly what recovery would rebuild |
| StoreCommit.SupersededSurvives | src/CowTree/CowTree/FilePageStore.cpp:942-963 | truncation after a commit spares the superseded commit too |
| FilePageStore.FilePageStore.Bootstrap | src/CowTree/CowTree/FilePageStore.cpp:347-381 | a new file is empty, crash-safe and satisfies the invariant |
| FilePageStore.FilePageStore.Open | src/CowTree/CowTree/FilePageStore.cpp:383-513 | opening answers what recovery reads: its meta, its free set, everything else live; refused exactly when recovery is |
| FilePageStore.FilePageStore.ChaseChain | src/CowTree/CowTree/FilePageStore.cpp:453-490 | the loop follows the chain, refusing a link out of range or seen before |
| FilePageStore.FilePageStore.Reclaim | src/CowTree/CowTree/FilePageStore.cpp:490-510 | listed pages still in the file and pages past the recorded count are free, the rest live |
| FilePageStore.FilePageStore.ExtendLocked | src/CowTree/CowTree/FilePageStore.cpp:674-683 | the file grows by one blank page, and the moment is crash-safe |
| FilePageStore.FilePageStore.Allocate | src/CowTree/CowTree/FilePageStore.cpp:817-833 | the lowest free page or a new one; never live, pending-free, or needed by a commit |
| FilePageStore.FilePageStore.Write | src/CowTree/CowTree/FilePageStore.cpp:835-853 | the page takes the bytes, out-of-range ids and wrong sizes are refused unchanged, every moment stays crash-safe |
| FilePageStore.FilePageStore.Free | src/CowTree/CowTree/FilePageStore.cpp:855-873 | a live page becomes free, or pending-free under group commit; a page that is not live is refused |
| FilePageStore.FilePageStore.SyncData | src/CowTree/CowTree/FilePageStore.cpp:967-976 | fsyncs exactly under `Fsync` durability |
| FilePageStore.FilePageStore.WriteFreeListLocked | src/CowTree/CowTree/FilePageStore.cpp:685-776 | the new chain is on disk, names exactly the free, pending and superseded list pages, and its pages change hands in memory |
| FilePageStore.FilePageStore.WriteListPages | src/CowTree/CowTree/FilePageStore.cpp:731-760 | written back to front, the pages form a chain that carries the entries; no other page changes |
| FilePageStore.FilePageStore.TruncateFreeTailLocked | src/CowTree/CowTree/FilePageStore.cpp:796-815 | the file is cut back to its highest page that is not free |
| FilePageStore.FilePageStore.MakeDurable | src/CowTree/CowTree/FilePageStore.cpp:893-957 | list, data fsync, other slot, slot fsync: every moment on the way is crash-safe and the new commit ends up durable |
| FilePageStore.FilePageStore.CommitMetaLocked | src/CowTree/CowTree/FilePageStore.cpp:893-965 | the commit is durable in the other slot, the free list is exact, the superseded commit's pages are still in the file |
| FilePageStore.FilePageStore.FlushBatchLocked | src/CowTree/CowTree/FilePageStore.cpp:875-891 | the buffered commit becomes the durable one, or nothing changes when there is none |
| FilePageStore.FilePageStore.WriteMeta | src/CowTree/CowTree/FilePageStore.cpp:996-1019 | buffered until the interval under `Batched`, durable at once under `Fsync`; the latest tree, root, item count and byte totals are the ones committed, and join the run's history |
| FilePageStore.FilePageStore.Flush | src/CowTree/CowTree/FilePageStore.cpp:1033-1041 | the latest commit is durable: its tree, transaction id, root, item count and byte totals |
| FilePageStore.FilePageStore.Close | src/CowTree/CowTree/FilePageStore.cpp:146-171 | the durable meta says what the client's last one said, under the next transaction id if it had to be restated; after a clean close reopening rebuilds the same live and free partition |
| FilePageStore.FilePageStore.ReopenAfterPowerLoss | src/CowTree/CowTree/FilePageStore.cpp:383-513 | pick any moment of any run, lose power there: the file opens on the durable commit of that moment or the one in flight, whole, and its pages, root, item count and totals are those of a commit the run made |
| Keys.LtIsTotalOrder | src/CowTree/CowTree/CowTree.cpp:24-39 | byte-wise comparison is a strict total order |
| Keys.LtIsLexicographic | src/CowTree/CowTree/CowTree.cpp:24-39 | a key is smaller exactly when it is a proper prefix or smaller at the first byte that differs |
| Keys.UpsertIsUpdate | src/CowTree/CowTree/CowTree.cpp:580-618 | setting a key in sorted entries is a map update and keeps them sorted |
| Keys.RemoveIsDeletion | src/CowTree/CowTree/CowTree.cpp:718-730 | removing a key from sorted entries is a map deletion and keeps them sorted |
| Keys.FindIsLookup | src/CowTree/CowTree/CowTree.cpp:75-90 | scanning sorted entries is map lookup |
| Keys.MapSize | src/CowTree/CowTree/CowTree.cpp:871-872 | sorted entries are as many as the map's keys, so the item count is the map's size |
| TreeModel.OrderedIsSorted | src/CowTree/CowTree/CowTree.cpp:91-107 | a tree whose children lie between their separators holds sorted entries, however unbalanced |
| TreeModel.RepFrame | src/CowTree/CowTree/CowTree.cpp:557-697 | the tree a root spans depends on its own pages only |
| PageSizes.LeafHalvesFit | src/CowTree/CowTree/CowTree.cpp:446-460 | entries of at most half a page, overflowing by one, split into two leaves that fit |
| PageSizes.InternalHalvesFit | src/CowTree/CowTree/CowTree.cpp:520-540 | internal entries of at most one page split, one moving up, into two pages that fit |
| TreeOps.PutThroughNode | src/CowTree/CowTree/CowTree.cpp:664-690 | rebuilding an internal page around the child that took the key performs the put on the whole page, in order and with every page accounted for |
| TreeOps.EraseThroughNode | src/CowTree/CowTree/CowTree.cpp:785-832 | likewise for the child that lost it, or went away |
| TreeOps.DropOrdered | src/CowTree/CowTree/CowTree.cpp:793-828 | dropping a child and one separator keeps the bounds |
| TreeOps.InternalSplit | src/CowTree/CowTree/CowTree.cpp:512-555 | the two halves and the separator moved up hold what the page held |
| TreeTxn.InsertIntoLeaf | src/CowTree/CowTree/CowTree.cpp:580-618 | one forward pass sets the key and reports the value displaced |
| TreeTxn.RemoveFromLeaf | src/CowTree/CowTree/CowTree.cpp:714-730 | the leaf without the key, and whether it was there |
| TreeTxn.ChooseChild | src/CowTree/CowTree/CowTree.cpp:645-656 | the child whose range covers the key |
| TreeTxn.FindSplit | src/CowTree/CowTree/CowTree.cpp:446-462 | the first index whose entry no longer fits behind the ones before it |
| TreeTxn.TwoPagesWrite | src/CowTree/CowTree/CowTree.cpp:438-476 | an overfull leaf is written if and only if both halves of the one split point fit |
| TreeTxn.HalfPagesAccepted | src/CowTree/CowTree/CowTree.hpp:157-158 | in a tree of entries of at most half a page, no put of another such pair is refused |
| TreeTxn.RewriteStays | src/CowTree/CowTree/CowTree.cpp:557-697 | in any tree, putting a value no longer than the one it replaces splits no page, so it is always written |
| TreeTxn.PutShapeBySize | src/CowTree/CowTree/CowTree.cpp:403-555 | whether a put is written, and what splits, depends on the value's length only |
| TreeTxn.Conservation | src/CowTree/CowTree/CowTree.cpp:843-892 | the new tree reaches what the old one reached and the new pages, less the freed; no page is freed twice, none is owned twice |
| CowTree.CowTree.BeginWrite | src/CowTree/CowTree/CowTree.cpp:357-360 | a transaction starts from the live root with no page of its own |
| CowTree.CowTree.WriteLeaf | src/CowTree/CowTree/CowTree.cpp:403-476 | one leaf or two with the first right-hand key between them, holding exactly the entries, in fresh pages; refused exactly when they cannot be written |
| CowTree.CowTree.WriteInternal | src/CowTree/CowTree/CowTree.cpp:479-555 | one internal page or two with one separator moved up, over exactly the children |
| CowTree.CowTree.PutRec | src/CowTree/CowTree/CowTree.cpp:557-697 | the subtree's entries with the key set, the value displaced, and pages after plus retired equal pages before plus created; it stays, splits or is refused as `PutShape` says page by page up the path |
| CowTree.CowTree.EraseRec | src/CowTree/CowTree/CowTree.cpp:699-841 | the subtree's entries without the key, through emptied children and collapsed levels; it always succeeds, so the exits for a split are not reached |
| CowTree.CowTree.Put | src/CowTree/CowTree/CowTree.cpp:256-283 | the transaction's entries with the key set and the value displaced; written if and only if every page of the key's path and the root above can be, for every tree and pair |
| CowTree.CowTree.Erase | src/CowTree/CowTree/CowTree.cpp:285-298 | the transaction's entries without the key, and whether it was there |
| CowTree.CowTree.SetByteTotals | src/CowTree/CowTree/CowTree.cpp:367-371 | the totals later commits will carry |
| CowTree.CowTree.Commit | src/CowTree/CowTree/CowTree.cpp:843-893 | the meta names the new root, the exact item count and the totals; reach is old plus new less freed; exactly the freed pages come back, each once |
| CowTree.CowTree.Abort | src/CowTree/CowTree/CowTree.cpp:895-902 | whatever the operations answered, the live tree is untouched and the live set is as it was |
| FileContract.FileAllocates | src/CowTree/CowTree/FilePageStore.cpp:817-833 | seen by its client, the file store's allocation is the in-memory store's: a page the client did not own |
| FileContract.FileWrites | src/CowTree/CowTree/FilePageStore.cpp:835-853 | and so is its write: that page takes the contents and no other page of the client changes |
| FileContract.FileFrees | src/CowTree/CowTree/FilePageStore.cpp:855-873 | and its free, whether reuse is deferred or not |
| FileContract.FileBuffers | src/CowTree/CowTree/FilePageStore.cpp:996-1014 | and a buffered commit |
| FileContract.DurableCommitIsInvisible | src/CowTree/CowTree/FilePageStore.cpp:893-965 | writing the free list, cutting the tail and reusing pending frees leave every page the client owns as it was |
| FileContract.FileCommits | src/CowTree/CowTree/FilePageStore.cpp:893-965 | and a durable commit |
| PageStore.PageStore.Allocate | src/CowTree/CowTree/InMemoryPageStore.cpp:82-97 | the page freed last, or a new one; never a live one |
| PageStore.PageStore.Write | src/CowTree/CowTree/InMemoryPageStore.cpp:99-118 | the page takes the contents |
| PageStore.PageStore.Free | src/CowTree/CowTree/InMemoryPageStore.cpp:120-134 | the page leaves the live set; a page that is not live is ignored |
| PageStore.PageStore.WriteMeta | src/CowTree/CowTree/InMemoryPageStore.cpp:153-192 | the meta goes to the slot the last one did not take |
| TreeReads.FindInLeaf | src/CowTree/CowTree/CowTree.cpp:74-89 | the scan that stops at a larger key is lookup |
| TreeReads.Get | src/CowTree/CowTree/CowTree.cpp:59-110 | on every ordered tree, exactly the value the tree holds under the key |
| TreeReads.PushChildren | src/CowTree/CowTree/CowTree.cpp:187-208 | the children worth visiting, last one first |
| TreeReads.KeptSuffices | src/CowTree/CowTree/CowTree.cpp:191-201 | pruning drops no entry above the start key |
| TreeReads.Walk | src/CowTree/CowTree/CowTree.cpp:124-213 | on any page graph, cycles included, at most as many reads as the store has pages; on a tree that owns its pages once, never an error and exactly the entries above the start, ascending, until the visitor stops |
| TreeReads.ResumeContinues | src/CowTree/CowTree/CowTree.cpp:118-122 | walking on after the last key delivered continues exactly where the walk stopped |
| TreeRuns.Run | src/CowTree/CowTree/CowTree.hpp:141-176 | one transaction happens wholly or not at all, and answers what the map answers; half-page entries are never refused, and stay so |
| TreeRuns.RunAll | src/CowTree/CowTree/CowTree.hpp:141-176 | over every run of transactions the tree is the map, and the item count is its size |
| TreeRuns.Lookup | src/CowTree/CowTree/CowTree.cpp:388-392 | a lookup is a map lookup |
| TreeRuns.InLimitPairRefused | src/CowTree/CowTree/CowTree.cpp:446-476 | for every capacity, a pair within the page limit that the code refuses |
| CrashSafeTree.TreeSurvivesPowerLoss | src/CowTree/CowTree/CowTree.hpp:210-224 | at every crash point the file opens on the tree of the last durable commit or of the one in flight, represented whole in its pages |
| CrashSafeTree.ReopenTree | src/CowTree/CowTree/CowTree.hpp:214-223 | over a whole run whose commits are trees: lose power at any moment, and the file reopens on a tree the run committed, the durable one or the one in flight, with as many entries as its meta says, and can go on |
| CrashSafeTree.CommitTree | src/CowTree/CowTree/CowTree.hpp:214-223 | committing the pages of a tree among the client's pages keeps every commit of the run a tree |
| CrashSafeTree.TreeMayCommit | src/CowTree/CowTree/CowTree.cpp:843-877 | at its commit point a transaction's root reaches a proper tree, on pages of the last commit and pages written since only: what the store asks of its client |
| CrashSafeTree.CommitTxnToFile | src/CowTree/CowTree/CowTree.cpp:843-877 | so committing a tree transaction to a file whose client is the tree leaves a run of tree commits |
| Records.RoundedTime | src/FastCache/Cache/CowTreeStorage.cpp:169-205 | stored times keep the sentinels; every other time the clock can hold, short of the last started microsecond at either end, loses less than a microsecond, and nothing more on a second trip |
| Records.RecordRoundTrip | src/FastCache/Cache/CowTreeStorage.cpp:877-1001 | every record reads back, its times rounded |
| Records.KindDecides | src/FastCache/Cache/CowTreeStorage.cpp:936-1089 | the first byte alone decides between inline and descriptor, and no other value reads |
| Records.ConversionPreserves | src/FastCache/Cache/CowTreeStorage.cpp:1003-1089 | any record that reads as version 3 re-encodes to a version 4 record with the same fields and value |
| Records.RecordV3RoundTrip | src/FastCache/Cache/CowTreeStorage.cpp:1003-1082 | every version 3 record (kind, header, length, bytes or root) reads back as its own fields |
| Records.ConversionOfFields | src/FastCache/Cache/CowTreeStorage.cpp:1084-1089 | and converts to the version 4 record of those fields |
| Records.ParsedReadsBack | src/FastCache/Cache/CowTreeStorage.cpp:936-1001 | any record that reads re-encodes to one that reads the same |
| Records.ReencodedSize | src/FastCache/Cache/CowTreeStorage.cpp:1817-1842 | a record re-encoded under another header takes no more bytes than it was read from |
| Records.ConversionGrows | src/FastCache/Cache/CowTreeStorage.cpp:1084-1089 | by five bytes inline, nine in a descriptor |
| OverflowChains.WriteChain | src/FastCache/Cache/CowTreeStorage.cpp:1098-1151 | fresh distinct pages, linked, carrying exactly the value; no other page changes |
| OverflowChains.ReadChain | src/FastCache/Cache/CowTreeStorage.cpp:1181-1212 | a chain of the right length reads back exactly, within the budget that stops a cycle |
| OverflowChains.FreeChain | src/FastCache/Cache/CowTreeStorage.cpp:1214-1238 | exactly the chain's pages come back |
| CacheRecords.HeldAfterPut | src/FastCache/Cache/CowTreeStorage.cpp:1347-1453 | storing one key changes that entry and no other, and keeps all chains disjoint |
| CacheRecords.TotalUpsert | src/FastCache/Cache/CowTreeStorage.cpp:1416-1443 | the total after a put is the total before, plus the new cost, less the displaced one |
| CacheRecords.ProtocolKeysAreShort | src/FastCache/Protocol/MemcachedText.cpp:165-168 | keys of up to 250 bytes are short enough that, from 2 KiB pages on, no record under them takes more than half a page |
| CacheStore.CacheStore.StageValue | src/FastCache/Cache/CowTreeStorage.cpp:1371-1391 | inline up to a quarter page, else a chain that shares no page with the tree or another chain |
| CacheStore.CacheStore.CommitChange | src/FastCache/Cache/CowTreeStorage.cpp:1402-1453 | the commit carries the totals of the very map it names |
| CacheStore.CacheStore.PutRecord | src/FastCache/Cache/CowTreeStorage.cpp:1393-1401 | refused exactly when the tree cannot write a record of that size; never when small in a roomy tree, nor when no longer than the record it replaces |
| CacheStore.CacheStore.StoreEntry | src/FastCache/Cache/CowTreeStorage.cpp:1347-1453 | stored, every other key as it was, the old chain freed and nothing leaked, if and only if the tree can write a record of that size; else `ValueTooLarge` and nothing has changed. While all records take at most half a page, no short key is refused, and they stay so |
| CacheStore.CacheStore.EraseEntry | src/FastCache/Cache/CowTreeStorage.cpp:1455-1488 | the entry is gone, with its chain, and nothing else changed |
| CacheStore.CacheStore.LoadEntry | src/FastCache/Cache/CowTreeStorage.cpp:1289-1345 | the stored plaintext, inline or chained, compressed or not; never an error on a whole store |
| CacheStore.CacheStore.UpdateMetadata | src/FastCache/Cache/CowTreeStorage.cpp:1790-1857 | only the header changes, under a new token, and a token is issued exactly then; the same chain keeps the value; a live entry is never refused, a lapsed one is reclaimed and answered as missing |
| CacheStore.CacheStore.NextCas | src/FastCache/Cache/CowTreeStorage.cpp:1949-1949 | a token this session has not issued before, until the counter wraps |
| CacheStore.TokensDiffer | src/FastCache/Cache/CowTreeStorage.cpp:1248-1252 | tokens counted off from 1 do not repeat within 2^64 of them |
| Migration.ReadPlan | src/FastCache/Cache/CowTreeStorage.cpp:505-575 | what the two markers, or their absence, say there is to do |
| Migration.PlanOfMarked | src/FastCache/Cache/CowTreeStorage.cpp:505-575 | what each kind of store has to do: empty, unmarked, stamped, part converted, or with a marker that does not read |
| Migration.OtherTarget | src/FastCache/Cache/CowTreeStorage.cpp:505-575 | a progress marker for another target version is refused |
| Migration.Validate | src/FastCache/Cache/CowTreeStorage.cpp:752-780 | true exactly when every pending record reads |
| Migration.GoalIsKept | src/FastCache/Cache/CowTreeStorage.cpp:792-851 | a slice leaves the same final contents to be reached, and less to do |
| Migration.GoalOfRecords | src/FastCache/Cache/CowTreeStorage.cpp:792-851 | the goal by fields: each pending version 3 record becomes the version 4 record of the same header, length and bytes or root |
| Migration.CurrentIsKept | src/FastCache/Cache/CowTreeStorage.cpp:792-851 | a record already in the current layout keeps its fields |
| Migration.StampedIsCurrent | src/FastCache/Cache/CowTreeStorage.cpp:505-575 | a stamped store has nothing left to do |
| Migration.ConvertSlice | src/FastCache/Cache/CowTreeStorage.cpp:792-851 | converts exactly the pending keys up to the last one, at most a chunk of them, and records that key in the same transaction; never refused where pending records leave nine bytes of half a page |
| Migration.StampCurrent | src/FastCache/Cache/CowTreeStorage.cpp:853-863 | with nothing pending, one transaction drops the marker and stamps the version, leaving the goal |
| Migration.ConvertStore | src/FastCache/Cache/CowTreeStorage.cpp:694-871 | a store that does not read is left as found; a cut run leaves the goal, the marker and every key above it unchanged; a finished run has converted every pending record once, stamped the store and left nothing to do, the byte totals unchanged; where pending records leave nine bytes of half a page, no run is refused |
| Migration.CutThenFinish | src/FastCache/Cache/CowTreeStorage.cpp:694-871 | any number of cut runs and one that finishes reach the same contents as one run, converting each pending record exactly once in total; given that room, it does finish |
| Eviction.EvictingStore.Touch | src/FastCache/Cache/CowTreeStorage.cpp:1501-1542 | the key becomes the most recent one of the mirror |
| Eviction.WithoutKeyKeepsOrder | src/FastCache/Cache/CowTreeStorage.cpp:1501-1525 | taking a key out of the mirror keeps the order of the others |
| Eviction.EvictingStore.FootprintIsPages | src/FastCache/Cache/CowTreeStorage.cpp:1699-1702 | the footprint is the tree's pages, the values' pages and the two meta slots |
| Eviction.EvictingStore.EvictColdSlice | src/FastCache/Cache/CowTreeStorage.cpp:1611-1697 | every erase is made over the budget; every key the mirror lacks stays above the cursor, none is left once exhausted, and the cursor never goes back; answers no only when nothing cold is left, the store fits, or the disk refused; reserved records untouched |
| Eviction.EvictingStore.EvictWarm | src/FastCache/Cache/CowTreeStorage.cpp:1724-1748 | ends although erases fail; every erase is made over the budget, on the key then least recent, one that is refused moving to the front; without failures the store fits or is empty, and what is left of the mirror is its most recent part |
| Eviction.EvictingStore.EvictToFit | src/FastCache/Cache/CowTreeStorage.cpp:1704-1749 | always ends; every erase is made while the store is over its budget and every entry that went was taken by one; without failures the footprint is within the budget or no entry is left, the touched entries went least recent first and only once nothing cold was left; entries that stay are unchanged |
| Eviction.EvictingStore.Set | src/FastCache/Cache/CowTreeStorage.cpp:1937-1958 | stored under a new token and the live generation, and that token answered, if and only if within the value limit and the tree can write the record; then the most recent of the mirror, and brought within the budget by erases made over it. Else unchanged. No short key is refused while all records take at most half a page |
| Eviction.EvictingStore.Get | src/FastCache/Cache/CowTreeStorage.cpp:1751-1788 | a live entry with its access time, moved to the front; a lapsed one is a miss that changes nothing |
| Eviction.EvictingStore.Delete | src/FastCache/Cache/CowTreeStorage.cpp:2155-2185 | the entry and its mirror node go; a lapsed one is reclaimed and answered as missing; an error exactly when the disk refuses |
| Eviction.EvictingStore.UpdateMetadata | src/FastCache/Cache/CowTreeStorage.cpp:1790-1857 | the header changes in place and the key becomes the most recent; a lapsed entry and its mirror node go |
| Crc32c.BuildTable | src/CowTree/CowTree/Crc32c.cpp:20-31 | each row is its index stepped eight times |
| Crc32c.LookupIsByte | src/CowTree/CowTree/Crc32c.cpp:37-43 | one table step takes the byte's eight bits as the bit-serial definition does |
| Crc32c.Update | src/CowTree/CowTree/Crc32c.cpp:37-43 | the table-driven state equals the bit-serial one on every input |
| Crc32c.Compute | src/CowTree/CowTree/Crc32c.cpp:45-50 | the checksum equals its definition |
| Crc32c.RegisterIsRemainder | src/CowTree/CowTree/Crc32c.cpp:12-43 | over every message the register is the remainder of its division by the generator polynomial of RFC 3720, coefficient by coefficient |
| Crc32c.PolyIsGenerator | src/CowTree/CowTree/Crc32c.cpp:12-18 | the reflected constant has a bit exactly for each power of that polynomial |
| Crc32c.Streams | src/CowTree/CowTree/Crc32c.hpp:34-38 | feeding a message in parts is feeding it whole |
| PageCodec.EncodeLeafPage | src/CowTree/CowTree/PageLayout.cpp:145-179 | encodes exactly the entry lists that fit, into a page of the page size |
| PageCodec.DecodeLeafPage | src/CowTree/CowTree/PageLayout.cpp:46-117 | every encoded leaf page gives its entries back; a page is read only if its checksum over all the rest, its type and its entry count hold |
| PageCodec.LeafPageRoundTrip | src/CowTree/CowTree/PageLayout.cpp:92-179 | writing a leaf page and reading it back gives the entries, or a refusal exactly when they do not fit |
| PageCodec.DecodeInternalPage | src/CowTree/CowTree/PageLayout.cpp:119-143 | every encoded internal page gives its first child and entries back, under the same checks |
| PageCodec.EncodeInternalPage | src/CowTree/CowTree/PageLayout.cpp:181-214 | encodes exactly the child lists that fit, into a page of the page size |
| PageCodec.InternalPageRoundTrip | src/CowTree/CowTree/PageLayout.cpp:119-214 | writing an internal page and reading it back gives first child and entries, or a refusal exactly when they do not fit |
| PageCodec.MetaRoundTrip | src/CowTree/CowTree/Meta.cpp:83-170 | a meta reads back if and only if its page count is not the unknown marker |
| PageCodec.MetaChecked | src/CowTree/CowTree/Meta.cpp:113-170 | a meta is read only under a known version, with the magic, and a checksum over exactly that version's fields |
| PageCodec.MetaVersion1Reads | src/CowTree/CowTree/Meta.cpp:113-170 | a version 1 meta reads as the same fields with the page count unknown |
| StreamValues.Next | src/FastCache/Cache/StreamCodec.hpp:107-118 | the least larger id, saturating |
| StreamValues.LowerBound | src/FastCache/Cache/CacheEngine.cpp:607-608 | binary search finds the first entry at or above an id |
| StreamKeys.AssignedId | src/FastCache/Cache/CacheEngine.cpp:658-700 | always above the last id; automatic ids are the least at or after the clock; refused exactly when there is none |
| StreamKeys.ApplyTrim | src/FastCache/Cache/CacheEngine.cpp:594-611 | keeps the newest entries, or exactly those from an id on |
| StreamKeys.TrimKeepsNewest | src/FastCache/Cache/CacheEngine.cpp:594-611 | MAXLEN keeps as many as it may and none older than one it drops; MINID exactly those from the id on |
| StreamKeys.ReadRange | src/FastCache/Cache/CacheEngine.cpp:725-742 | two binary searches read what the naive filter reads, forward or back, up to the count |
| StreamKeys.ReversedDescends | src/FastCache/Cache/CacheEngine.cpp:736-741 | the reverse order is newest first and loses nothing |
| StreamKeys.OwnRowsAre | src/FastCache/Cache/CacheEngine.cpp:1038-1052 | a consumer's history is its own pending rows strictly after the id, in order |
| StreamKeys.StartDelivers | src/FastCache/Cache/CacheEngine.cpp:864-887 | a group at the beginning is owed every entry, one at the end only what comes later, one at an id exactly those above it |
| StreamKeys.StreamKey.Add | src/FastCache/Cache/CacheEngine.cpp:640-715 | the new id exceeds every id issued before, deletes and trims included, unless XSETID intervened; entries stay strictly ascending up to the last id |
| StreamKeys.StreamKey.Range | src/FastCache/Cache/CacheEngine.cpp:725-742 | XRANGE and XREVRANGE answer the naive filter of the entries, in either direction, up to the count |
| StreamKeys.StreamKey.Read | src/FastCache/Cache/CacheEngine.cpp:744-756 | exactly the entries after an id |
| StreamKeys.StreamKey.Delete | src/FastCache/Cache/CacheEngine.cpp:758-786 | exactly the named entries go, counted, and the largest deleted id is the old one or the largest of theirs |
| StreamKeys.StreamKey.TrimTo | src/FastCache/Cache/CacheEngine.cpp:788-805 | the trimmed entries and their count |
| StreamKeys.StreamKey.SetId | src/FastCache/Cache/CacheEngine.cpp:807-832 | accepted exactly at or above the newest entry of an existing stream |
| StreamKeys.StreamKey.GroupCreate | src/FastCache/Cache/CacheEngine.cpp:864-887 | a new empty group with its cursor; names stay distinct |
| StreamKeys.StreamKey.GroupSetId | src/FastCache/Cache/CacheEngine.cpp:889-909 | only the cursor of that group moves |
| StreamKeys.StreamKey.GroupDestroy | src/FastCache/Cache/CacheEngine.cpp:911-934 | exactly that group goes |
| StreamKeys.StreamKey.ConsumerCreate | src/FastCache/Cache/CacheEngine.cpp:936-958 | the consumer is registered once; refused exactly when there is no such group |
| StreamKeys.StreamKey.ConsumerDelete | src/FastCache/Cache/CacheEngine.cpp:960-984 | the consumer and exactly its pending rows go; refused exactly when there is no such group |
| StreamKeys.StreamKey.ReadGroup | src/FastCache/Cache/CacheEngine.cpp:986-1062 | delivers the next entries above the cursor, counts them and appends their rows, registering the consumer and no other; a strict pending list stays sorted, duplicate-free and below the cursor, any other is duplicate-free afterwards exactly when it was and nothing delivered was pending; a re-read shows the consumer's own history; refused exactly when there is no such group |
| StreamKeys.StreamKey.Ack | src/FastCache/Cache/CacheEngine.cpp:1064-1088 | exactly the named rows go, counted; refused exactly when there is no such group |
| StreamKeys.StreamKey.ClaimIds | src/FastCache/Cache/CacheEngine.cpp:1208-1279 | reassigns exactly the wanted rows idle long enough whose entry exists, to the claimer, delivered now and once more unless JUSTID, and answers their entries; drops those whose entry is gone; FORCE first adds the wanted entries that exist; nothing else of the group changes; refused exactly when there is no such group |
| StreamKeys.StreamKey.AutoClaimFrom | src/FastCache/Cache/CacheEngine.cpp:1281-1334 | considers rows from the start until the limit, hands over at most the limit, answers their entries and where to go on; only pending rows and the claimer's registration change, the cursor never; refused exactly when there is no such group |
| StreamKeys.ClaimThenRead | src/FastCache/Cache/CacheEngine.cpp:1208-1334 | what a read delivers after any claim is what it would have delivered before |
| StreamKeys.ForceThenRead | src/FastCache/Cache/CacheEngine.cpp:1013-1249 | from a new key: an entry, a group, FORCE ahead of its cursor and then a read leave an id pending twice |
| StreamClaims.Deliver | src/FastCache/Cache/CacheEngine.cpp:1013-1035 | the batch, the cursor, the pending rows and their order |
| StreamClaims.DeliverAppends | src/FastCache/Cache/CacheEngine.cpp:1013-1035 | in a group without SETID or FORCE, delivery appends and sorting moves nothing |
| StreamClaims.DeliverDuplicates | src/FastCache/Cache/CacheEngine.cpp:1013-1035 | a delivery leaves the list duplicate-free if and only if it was and nothing delivered was pending |
| StreamClaims.ClaimCore | src/FastCache/Cache/CacheEngine.cpp:1169-1204 | which rows are reassigned, which dropped, and where the limit stopped it |
| StreamClaims.ClaimChooses | src/FastCache/Cache/CacheEngine.cpp:1250-1268 | an id is claimed, or found gone, exactly when asked for, pending for long enough, and there, or not |
| StreamClaims.ClaimHandsOver | src/FastCache/Cache/CacheEngine.cpp:1169-1204 | each claimed id has its new owner, delivery time and count; deleted ids are nowhere; every other row is as it was |
| StreamClaims.ForcePending | src/FastCache/Cache/CacheEngine.cpp:1235-1249 | the pending ids become the old ones and the wanted ones that exist, none twice; old rows stay, new ones belong to the claimer, undelivered |
| StreamClaims.AutoClaim | src/FastCache/Cache/CacheEngine.cpp:1281-1334 | one page of a sweep, keeping the group's invariants |
| StreamSweep.Sweep | src/FastCache/Cache/CacheEngine.cpp:1281-1334 | feeding the cursor back until 0-0 ends, considers each pending row from the start exactly once in order, claims at most COUNT per call, and removes exactly the rows idle long enough whose entry is gone; the group's cursor stays |
| MustWritten.Transfer | scripts/probes/msvc-arm64-coro-stack-slots.py:308-341 | a block adds exactly the bytes its instructions write: a store its width, a call's result and a taken address 256 bytes, a load none |
| MustWritten.Solve | scripts/probes/msvc-arm64-coro-stack-slots.py:343-360 | on every graph the loop ends, with a value exactly for the reachable blocks: the intersection over all entry paths of the bytes written |
| MustWritten.Check | scripts/probes/msvc-arm64-coro-stack-slots.py:308-341 | a block's reports are real, and no watched unwritten byte it reads goes unreported |
| MustWritten.Audit | scripts/probes/msvc-arm64-coro-stack-slots.py:278-365 | every finding has a real path that leaves one of its bytes unwritten; every read of a watched byte some path leaves unwritten is named, there or at an earlier read of it |
| HandOver.StepKeepsCount | src/FastCache/Cache/ExpiryReaper.cpp:34-129 | the count is the open trip plus every thread still handing an earlier one back, in every interleaving, failed hand-overs included |
| HandOver.ZeroMeansHome | src/FastCache/Cache/ExpiryReaper.cpp:108-129 | a zero count means no executor thread runs the frame or is still handing it back |
| HandOver.StopIsSafe | src/FastCache/Cache/ExpiryReaper.cpp:157-213 | `Stop` never retracts a frame that is away, and no thread touches it afterwards |
| HandOver.StopMakesProgress | src/FastCache/Cache/ExpiryReaper.cpp:164-189 | while `Stop` waits, every executor step but a failed hand-back brings the count's fall nearer |
| HandOver.StopIsNotStuck | src/FastCache/Cache/ExpiryReaper.cpp:321-393 | and with any executor thread at all such a step is possible until the count is zero |
| HandOver.StopWaitIsBounded | src/FastCache/Cache/ExpiryReaper.cpp:157-189 | however the wait is interleaved, the executor makes at most `Distance` such steps, and the count is zero exactly when it has none left |

## Left out

- Durability `None` under power loss: it never syncs, and no crash guarantee is claimed for it.
- I/O errors of the page store, and operations continued after a failed put; erases that fail are modelled in `Eviction` only.
- OS calls, file locking, handles, mutexes, atomics' memory order, and the page-size re-check on open; one fixed page size is assumed.
- Free-list pages are modelled as words rather than bytes, and page ids as unbounded naturals; a caller of `CacheStore.CacheStore.StoreEntry` promises ids below 2^64.
- Leak-freedom after a crash: pages retired by the last durable commit may stay live. Exactness is stated for a clean close.
- The tree is proved over the in-memory page store; `FileContract` proves that the file store acts on a client's pages in the same way under the same preconditions (`StoreContract`), and `CrashSafeTree` that a file whose client is the tree commits trees only, but the tree class itself is not instantiated over both.
- FilePageStore.FilePageStore.Write: stated for pages the client holds, where the source writes any page in range; writing a committed page breaks crash safety, and the source leaves that to its caller.
- FilePageStore.FilePageStore.Free: stated for pages of neither the latest commit nor the free list, for the same reason.
- FilePageStore.FilePageStore.WriteMeta: stated for clients that commit pages of their last commit and pages they wrote, with a larger transaction id; `CrashSafeTree.TreeMayCommit` proves it of the tree.
- PageStore.PageStore.Write: the same discipline, on the in-memory store.
- PageStore.PageStore.Free: the same discipline, on the in-memory store.
- PageStore.PageStore.WriteMeta: without the torn-write fault a test can ask of the in-memory store; torn writes are modelled in `StoreFile`.
- Snapshots held across a commit, and the single-writer rule, which is a precondition here.
- CacheStore.CacheStore.RefusePut: pages come back in another order than the source's destructors free them, which only affects which id is handed out next.
- CacheStore.CacheStore.StoreEntry: values of 4 GiB and more, whose 32-bit inline length would be truncated, and reserved keys, which no wire protocol can send.
- Migration: a slice's walk is completed before its puts, which the source interleaves; the walk reads the committed tree only. The flush after each slice is the page store's.
- Counters of 64 bits (entries added, entries read, delivery counts, byte totals) do not wrap.
- StreamKeys.StreamKey.ReadGroup: consumer lists are sets; the per-group statistics beyond the cursor are not interpreted.
- Deletion or expiry of the stream key itself, pending summaries and range queries: easy members over the same state.
- The probe's parsing of listings into blocks, jump tables and stack bases; the dataflow is proved for every graph.
- Adaptive scan budget and interval of the expiry sweep, statistics, logging, reclaim events, sharding, authentication, benchmarks and packaging.
- Decoding of damaged pages beyond refusal; round trips are over encoder output.
- Balance or minimum fill of the tree: the code keeps neither.
