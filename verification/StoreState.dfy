/** The page store as a value: what it holds in memory, what its client holds,
    and the invariant every operation keeps. */
module StoreState {
  import opened Wrappers
  import opened FreeListPages
  import opened StoreFile

  datatype Durability = Fsync | Batched | NoSync

  datatype Syncs = Syncs(dataBeforeMeta: bool, listBeforeMeta: bool, metaAfterWrite: bool)

  /** What a meta write syncs, per durability. */
  function SyncsFor(d: Durability): Syncs {
    match d
    case Fsync => Syncs(false, true, true)
    case Batched => Syncs(true, true, true)
    case NoSync => Syncs(false, false, false)
  }

  const BATCHED_FLUSH_INTERVAL := 64

  const BLANK_META := Meta(0, 0, 0, 0, 0, 0, Some(0))

  /** `durable` is the commit the file must give back, `pendingTree` the pages of
      the buffered one. `handed` and `written` are the pages the client holds
      outside any commit. */
  datatype Store = Store(
    words: nat, mode: Durability, disk: Disk,
    live: set<PageId>, freeList: seq<PageId>, pendingFree: seq<PageId>, freeListPages: seq<PageId>,
    pendingMeta: Option<Meta>, lastSlot: MetaSlot, commits: nat, changed: bool,
    durable: Snapshot, pendingTree: map<PageId, Page>, handed: set<PageId>, written: set<PageId>)
  {
    function Total(): nat {
      |disk.pages|
    }

    ghost function Held(): set<PageId> {
      handed + written
    }

    /** The pages of the commit the client made last. */
    ghost function LatestTree(): map<PageId, Page> {
      if pendingMeta.Some? then pendingTree else durable.tree
    }

    /** The meta of that commit. */
    ghost function LatestMeta(): Meta {
      if pendingMeta.Some? then pendingMeta.value else durable.meta
    }

    ghost function LatestTxn(): nat {
      LatestMeta().txnId
    }
  }

  // ---- The invariant ----

  /** Pages 1..total are live, free or pending-free, each exactly one of them. */
  ghost predicate Partition(total: nat, live: set<PageId>, free: set<PageId>, pending: set<PageId>) {
    && live + free + pending == Ids(total)
    && live !! free && live !! pending && free !! pending
  }

  ghost predicate PagesOk(s: Store) {
    && Partition(s.Total(), s.live, Elems(s.freeList), Elems(s.pendingFree))
    && Ascending(s.freeList) && Distinct(s.pendingFree)
  }

  /** The durable commit is anchored, and nothing it needs is free or held. */
  ghost predicate DurableOk(s: Store)
    requires s.words > 2
  {
    && Anchored(CrashPoint(s.disk, s.durable, s.durable), s.lastSlot, s.words)
    && Elems(s.freeList) !! s.durable.Needs()
    && s.Held() !! s.durable.Needs()
    && s.freeListPages == s.durable.list
    && Elems(s.freeListPages) <= s.live
  }

  ghost predicate HeldOk(s: Store) {
    s.Held() <= s.live && s.handed !! s.written
  }

  ghost predicate Base(s: Store) {
    s.words > 2 && s.mode != NoSync && PagesOk(s) && DurableOk(s) && HeldOk(s)
  }

  /** `tree` is a committed tree: live, intact, and out of the client's hands. */
  ghost predicate TreeOk(s: Store, tree: map<PageId, Page>) {
    && tree.Keys <= s.live
    && tree.Keys !! Elems(s.freeListPages)
    && tree.Keys !! s.Held()
    && forall p | p in tree :: 1 <= p <= s.Total() && s.disk.pages[p - 1] == tree[p]
  }

  /** Under `Fsync` nothing is deferred and every written page is synced. */
  ghost predicate ModeOk(s: Store) {
    s.mode.Fsync? ==>
      && s.pendingMeta.None? && s.pendingFree == [] && s.commits == 0
      && forall p | p in s.written :: p <= s.disk.floor && p !in s.disk.dirty
  }

  /** With no change pending, the durable list names the free pages. */
  ghost predicate ListExact(s: Store) {
    s.pendingMeta.None? && !s.changed ==>
      && s.pendingFree == []
      && var recovered := RecoveredFree(s.durable.meta, s.durable.entries, s.Total());
      && Elems(s.freeList) <= recovered <= Elems(s.freeList) + s.Held()
  }

  ghost predicate Inv(s: Store) {
    && Base(s) && TreeOk(s, s.LatestTree()) && ModeOk(s) && ListExact(s)
    && (s.pendingMeta.Some? ==> s.pendingMeta.value.txnId > s.durable.meta.txnId)
    && s.commits < BATCHED_FLUSH_INTERVAL
  }

  lemma PartitionTake(total: nat, live: set<PageId>, free: set<PageId>, pending: set<PageId>, id: PageId)
    requires Partition(total, live, free, pending) && id in free
    ensures Partition(total, live + {id}, free - {id}, pending)
  {
  }

  lemma PartitionRelease(total: nat, live: set<PageId>, free: set<PageId>, pending: set<PageId>, id: PageId)
    requires Partition(total, live, free, pending) && id in live
    ensures Partition(total, live - {id}, free + {id}, pending)
    ensures Partition(total, live - {id}, free, pending + {id})
  {
  }

  lemma PartitionExtend(total: nat, live: set<PageId>, free: set<PageId>, pending: set<PageId>)
    requires Partition(total, live, free, pending)
    ensures Partition(total + 1, live + {total + 1}, free, pending)
    ensures total + 1 !in live + free + pending
  {
    assert total + 1 !in Ids(total);
    assert Ids(total + 1) == Ids(total) + {total + 1};
  }

  // ---- Allocate ----

  /** The lowest free page, else one past the end. */
  function NextPage(s: Store): PageId {
    if s.freeList != [] then s.freeList[0] else s.Total() + 1
  }

  function Allocated(s: Store): Store {
    var id := NextPage(s);
    s.(live := s.live + {id}, handed := s.handed + {id},
       freeList := if s.freeList != [] then s.freeList[1..] else [],
       disk := if s.freeList != [] then s.disk else s.disk.WritePage(id, Zeros(s.words)))
  }

  /** No page a commit needs is handed out. */
  lemma AllocatesUnneeded(s: Store)
    requires Inv(s)
    ensures var id := NextPage(s);
            && id != 0 && id !in s.live && id !in s.pendingFree
            && id !in s.durable.Needs() && id !in s.LatestTree()
            && (s.freeList != [] ==> id in Elems(s.freeList) && forall p | p in s.freeList :: id <= p)
  {
    NeedsExist(s.durable, s.disk.pages, s.words);
    if s.freeList == [] {
      PartitionExtend(s.Total(), s.live, Elems(s.freeList), Elems(s.pendingFree));
      assert NextPage(s) !in Elems(s.pendingFree);
    } else {
      var id := s.freeList[0];
      assert id in Elems(s.freeList) && id !in Elems(s.pendingFree);
      assert id in Ids(s.Total());
    }
  }

  lemma AllocateKeeps(s: Store)
    requires Inv(s)
    ensures Inv(Allocated(s))
  {
    var id, t := NextPage(s), Allocated(s);
    AllocatesUnneeded(s);
    if s.freeList != [] {
      AscendingSplit(s.freeList, 1);
      assert Elems(s.freeList[..1]) == {id};
      assert Elems(t.freeList) == Elems(s.freeList) - {id};
      PartitionTake(s.Total(), s.live, Elems(s.freeList), Elems(s.pendingFree), id);
    } else {
      PartitionExtend(s.Total(), s.live, Elems(s.freeList), Elems(s.pendingFree));
      WriteKeeps(s.disk, id, Zeros(s.words), s.durable, s.lastSlot, s.words);
    }
  }

  // ---- Write ----

  function Wrote(s: Store, id: PageId, data: Page): Store
    requires 1 <= id <= s.Total()
  {
    var d := s.disk.WritePage(id, data);
    s.(disk := if s.mode.Fsync? then d.Fsync() else d, handed := s.handed - {id}, written := s.written + {id})
  }

  lemma WriteKeepsInv(s: Store, id: PageId, data: Page)
    requires Inv(s) && 1 <= id <= s.Total() && |data| == s.words
    requires id in s.Held()
    ensures Inv(Wrote(s, id, data))
  {
    WriteKeeps(s.disk, id, data, s.durable, s.lastSlot, s.words);
    var d := s.disk.WritePage(id, data);
    var t := Wrote(s, id, data);
    assert t.Held() == s.Held();
    if s.mode.Fsync? {
      FsyncKeeps(d, s.durable, s.lastSlot, s.words);
      forall p | p in t.written ensures p <= t.disk.floor {
        assert p in Ids(s.Total());
      }
    }
  }

  // ---- Free ----

  function Freed(s: Store, id: PageId): Store {
    s.(live := s.live - {id}, handed := s.handed - {id}, written := s.written - {id}, changed := true,
       pendingFree := if s.mode.Batched? then s.pendingFree + [id] else s.pendingFree,
       freeList := if s.mode.Batched? then s.freeList else Insert(s.freeList, id))
  }

  lemma FreeKeeps(s: Store, id: PageId)
    requires Inv(s) && id in s.live
    requires id !in s.LatestTree() && id !in s.freeListPages
    ensures Inv(Freed(s, id))
  {
    PartitionRelease(s.Total(), s.live, Elems(s.freeList), Elems(s.pendingFree), id);
    var t := Freed(s, id);
    assert id !in Elems(s.freeListPages);
    if s.mode.Batched? {
      assert id !in Elems(s.pendingFree);
      ElemsConcat(s.pendingFree, [id]);
      assert Elems(t.pendingFree) == Elems(s.pendingFree) + {id};
    } else {
      InsertAscends(s.freeList, id);
      InsertMembers(s.freeList, id);
    }
  }

  lemma LiveExists(s: Store, id: PageId)
    requires Inv(s) && id in s.live
    ensures 1 <= id <= s.Total()
  {
    assert id in Ids(s.Total());
  }

  // ---- SyncData ----

  lemma SyncKeeps(s: Store)
    requires Inv(s)
    ensures Inv(s.(disk := s.disk.Fsync()))
  {
    FsyncKeeps(s.disk, s.durable, s.lastSlot, s.words);
    forall p | p in s.written ensures p <= s.Total() {
      assert p in Ids(s.Total());
    }
  }

  // ---- Buffering a commit ----

  ghost function Contents(s: Store, tree: set<PageId>): map<PageId, Page>
    requires tree <= Ids(|s.disk.pages|)
  {
    map p | p in tree :: s.disk.pages[p - 1]
  }

  /** A client commits pages of its previous commit and pages it has written. */
  ghost predicate MayCommit(s: Store, meta: Meta, tree: set<PageId>) {
    tree <= s.LatestTree().Keys + s.written && meta.txnId > s.LatestTxn()
  }

  /** The client lets go of what it commits. */
  ghost function Committing(s: Store, tree: set<PageId>): Store {
    s.(written := s.written - tree)
  }

  lemma CommitPagesExist(s: Store, tree: set<PageId>)
    requires Inv(s) && tree <= s.LatestTree().Keys + s.written
    ensures tree <= Ids(|s.disk.pages|)
  {
    assert s.live <= Ids(|s.disk.pages|);
  }

  /** What a commit may rely on, buffered or not. */
  ghost predicate Ready(s: Store, meta: Meta, tree: map<PageId, Page>) {
    && Base(s) && TreeOk(s, tree) && meta.txnId > s.durable.meta.txnId
    && (s.mode.Fsync? ==>
          && s.pendingFree == []
          && forall p | p in tree.Keys + s.written :: p <= s.disk.floor && p !in s.disk.dirty)
  }

  lemma MayCommitIsReady(s: Store, meta: Meta, tree: set<PageId>)
    requires Inv(s) && MayCommit(s, meta, tree)
    ensures tree <= Ids(|s.disk.pages|)
    ensures Ready(Committing(s, tree), meta, Contents(s, tree))
  {
    CommitPagesExist(s, tree);
    forall p | p in tree ensures p !in Elems(s.freeListPages) {
      if p in s.written { assert p in s.Held(); }
    }
    if s.mode.Fsync? {
      forall p | p in tree ensures p <= s.disk.floor && p !in s.disk.dirty {
        if p in s.durable.tree { assert p in s.durable.Needs(); }
      }
    }
  }

  ghost function Buffered(s: Store, meta: Meta, tree: set<PageId>): Store
    requires tree <= Ids(|s.disk.pages|)
  {
    s.(written := s.written - tree, pendingMeta := Some(meta), pendingTree := Contents(s, tree), commits := s.commits + 1)
  }

  lemma BufferedIsInv(s: Store, meta: Meta, tree: set<PageId>)
    requires Inv(s) && MayCommit(s, meta, tree) && s.mode.Batched?
    ensures tree <= Ids(|s.disk.pages|)
    ensures Inv(Buffered(s, meta, tree).(commits := 0))
    ensures s.commits + 1 < BATCHED_FLUSH_INTERVAL ==> Inv(Buffered(s, meta, tree))
  {
    MayCommitIsReady(s, meta, tree);
  }

  lemma CountIsFree(s: Store)
    requires Inv(s)
    ensures Inv(s.(commits := 0))
  {
  }

  /** The commit a flush makes durable: the buffered one. */
  lemma PendingIsReady(s: Store)
    requires Inv(s.(commits := 0)) && s.pendingMeta.Some?
    ensures Ready(s, s.pendingMeta.value, s.pendingTree)
  {
  }

  /** The commit a clean close makes when only frees are pending: the durable one
      again, under the next transaction id. */
  lemma RestateIsReady(s: Store)
    requires Inv(s) && s.pendingMeta.None?
    ensures Ready(s, s.durable.meta.(txnId := s.durable.meta.txnId + 1), s.durable.tree)
  {
  }

  /** A store closed with nothing pending and nothing held reopens with exactly
      its own live and free pages. */
  lemma CleanReopen(s: Store)
    requires Inv(s) && s.pendingMeta.None? && !s.changed && s.Held() == {}
    ensures GivesBack(s.disk, s.durable, s.words)
    ensures RecoveredFree(s.durable.meta, s.durable.entries, s.Total()) == Elems(s.freeList)
    ensures Ids(s.Total()) - Elems(s.freeList) == s.live
  {
    var d := s.disk;
    assert d.Slot(s.lastSlot) in d.Maybe(s.lastSlot);
    assert d.Slot(OtherSlot(s.lastSlot)) in d.Maybe(OtherSlot(s.lastSlot));
    var chosen := ChooseMeta(d.slotA, d.slotB).value;
    HeldIsGivenBack(d, s.durable, chosen.1, s.words);
  }

  /** The state recovery builds from a file that gives back `c`. */
  lemma RecoveredIsInv(s: Store, r: Recovered, c: Snapshot)
    requires s.words > 2 && s.mode != NoSync && s.disk.Ok(s.words)
    requires Restores(s.disk, c, s.words) && Recover(s.disk, s.words) == Ok(r)
    requires Ascending(s.freeList) && Elems(s.freeList) == RecoveredFree(r.meta, r.entries, s.Total())
    requires s.live == Ids(s.Total()) - Elems(s.freeList)
    requires s.durable == c && s.freeListPages == r.list && s.lastSlot == r.slot
    requires s.pendingFree == [] && s.pendingMeta == None && s.commits == 0 && !s.changed && s.Held() == {}
    ensures Inv(s)
  {
    NeedsExist(c, s.disk.pages, s.words);
    assert c.Needs() <= Ids(s.Total());
    assert c.Needs() <= s.live;
  }
}
