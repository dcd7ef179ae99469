/** The file-backed page store: group commit, alternating meta slots, a free
    list in dedicated pages, deferred reuse, tail truncation and recovery. Every
    device operation is recorded in `trace`, so the class invariant speaks about
    a power loss at any moment of a run. */
module FilePageStore {
  import opened Wrappers
  import opened FreeListPages
  import opened StoreFile
  import opened StoreState
  import opened StoreCommit

  /** Index of the first entry on list page `i`. */
  function FirstEntry(i: nat, perPage: nat, count: nat): nat {
    Min(i * perPage, count)
  }

  lemma FirstEntrySteps(i: nat, perPage: nat, count: nat)
    ensures FirstEntry(i, perPage, count) + Min(perPage, count - FirstEntry(i, perPage, count))
         == FirstEntry(i + 1, perPage, count)
  {
    assert (i + 1) * perPage == i * perPage + perPage;
  }

  function Members(ids: seq<PageId>): (s: set<PageId>)
    ensures s == Elems(ids)
  {
    set p | p in ids
  }

  ghost function Prepend(list: seq<PageId>, entries: seq<PageId>, r: Result<(seq<PageId>, seq<PageId>)>)
    : Result<(seq<PageId>, seq<PageId>)>
  {
    match r
    case Err(e) => Err(e)
    case Ok((l, e)) => Ok((list + l, entries + e))
  }

  lemma PrependNothing(r: Result<(seq<PageId>, seq<PageId>)>)
    ensures Prepend([], [], r) == r
  {
    if r.Ok? {
      assert [] + r.value.0 == r.value.0 && [] + r.value.1 == r.value.1;
    }
  }

  class FilePageStore {
    const words: nat
    const mode: Durability

    var disk: Disk
    var totalDataPages: nat
    var live: set<PageId>
    var freeList: seq<PageId>
    var pendingFree: seq<PageId>
    var freeListPages: seq<PageId>
    var pendingMeta: Option<Meta>
    var lastDurableMeta: Meta
    var lastDurableSlot: MetaSlot
    var commitsSinceFlush: nat
    var freeSetChanged: bool

    ghost var durable: Snapshot
    ghost var pendingTree: map<PageId, Page>
    ghost var handed: set<PageId>
    ghost var written: set<PageId>

    // Every state the file has been in, with what it must give back; and what has
    // ever been committed.
    ghost var trace: seq<CrashPoint>
    ghost var history: set<Commit>

    ghost function State(): Store
      reads this
    {
      Store(words, mode, disk, live, freeList, pendingFree, freeListPages, pendingMeta, lastDurableSlot,
            commitsSinceFlush, freeSetChanged, durable, pendingTree, handed, written)
    }

    /** The fields agree with the file, and every moment so far was crash-safe. */
    ghost predicate Coherent()
      reads this
    {
      && words > 2 && totalDataPages == |disk.pages| && lastDurableMeta == durable.meta
      && AllSafe(trace, words, history) && durable.AsCommit() in history
    }

    ghost predicate Valid()
      reads this
    {
      && Coherent() && Inv(State())
      && (pendingMeta.Some? ==> CommitOf(pendingMeta.value, pendingTree) in history)
    }

    ghost predicate AnchoredNow()
      reads this
    {
      words > 2 && Anchored(CrashPoint(disk, durable, durable), lastDurableSlot, words)
    }

    // ---- Construction ----

    constructor Bootstrap(words: nat, mode: Durability)
      requires words > 2 && mode != NoSync
      ensures Valid() && this.words == words && this.mode == mode
      ensures durable == Snapshot(BLANK_META, map[], [], []) && State().LatestTree() == map[]
      ensures live == {} && handed == {} && written == {} && totalDataPages == 0 && history == {durable.AsCommit()}
    {
      this.words, this.mode := words, mode;
      var blank := Intact(BLANK_META);
      disk := Disk([], blank, blank, {}, 0, {blank}, {blank});
      totalDataPages, live, freeList, pendingFree, freeListPages := 0, {}, [], [], [];
      pendingMeta, lastDurableMeta, lastDurableSlot := None, BLANK_META, A;
      commitsSinceFlush, freeSetChanged := 0, false;
      durable, pendingTree, handed, written := Snapshot(BLANK_META, map[], [], []), map[], {}, {};
      trace, history := [], {CommitOf(BLANK_META, map[])};
      new;
      assert AnchoredNow();
      trace := [CrashPoint(disk, durable, durable)];
    }

    /** The fields recovery fills in. */
    constructor Recovered(words: nat, mode: Durability, d: Disk, r: Recovered,
                          live: set<PageId>, freeList: seq<PageId>, ghost s: Snapshot)
      requires words > 2 && mode != NoSync && d.Ok(words)
      requires Recover(d, words) == Ok(r) && Ascending(freeList)
      requires Elems(freeList) == RecoveredFree(r.meta, r.entries, |d.pages|)
      requires live == Ids(|d.pages|) - Elems(freeList)
      ensures this.words == words && this.mode == mode && disk == d && durable == s
      ensures this.live == live && this.freeList == freeList && freeListPages == r.list
      ensures lastDurableMeta == r.meta && lastDurableSlot == r.slot
      ensures handed == {} && written == {} && pendingFree == [] && pendingMeta == None && history == {s.AsCommit()}
      ensures Restores(d, s, words) ==> Valid()
    {
      this.words, this.mode := words, mode;
      disk, totalDataPages := d, |d.pages|;
      this.live, this.freeList := live, freeList;
      pendingFree, freeListPages := [], r.list;
      pendingMeta, lastDurableMeta, lastDurableSlot := None, r.meta, r.slot;
      commitsSinceFlush, freeSetChanged := 0, false;
      durable, pendingTree, handed, written := s, map[], {}, {};
      trace, history := [CrashPoint(d, s, s)], {s.AsCommit()};
      new;
      hide Inv, Elems, RecoveredFree;
      if Restores(d, s, words) {
        RecoveredIsInv(State(), r, s);
        assert Anchored(CrashPoint(d, s, s), r.slot, words);
      }
    }

    /** Open an existing file: choose the meta, chase the free list, reclaim the
        pages past the recorded count. */
    static method Open(words: nat, mode: Durability, d: Disk, ghost s: Snapshot)
      returns (r: Result<FilePageStore>)
      requires words > 2 && mode != NoSync && d.Ok(words)
      ensures match Recover(d, words)
              case Err(e) => r == Err(e)
              case Ok(rec) =>
                && r.Ok? && fresh(r.value)
                && r.value.words == words && r.value.mode == mode
                && r.value.disk == d && r.value.durable == s && r.value.handed + r.value.written == {}
                && Elems(r.value.freeList) == RecoveredFree(rec.meta, rec.entries, |d.pages|)
                && r.value.live == Ids(|d.pages|) - Elems(r.value.freeList)
                && r.value.lastDurableMeta == rec.meta && r.value.lastDurableSlot == rec.slot
                && r.value.history == {s.AsCommit()} && (Restores(d, s, words) ==> r.value.Valid())
    {
      var chosen := ChooseMeta(d.slotA, d.slotB);
      if chosen.Err? {
        return Err(chosen.error);
      }
      var (meta, slot) := chosen.value;
      var chased := ChaseChain(d.pages, words, meta.freeRoot);
      if chased.Err? {
        return Err(chased.error);
      }
      var (list, entries) := chased.value;
      ChaseFindsNoZero(d.pages, words, meta.freeRoot, {});
      var live, freeList := Reclaim(|d.pages|, meta, entries);
      var store := new FilePageStore.Recovered(words, mode, d, StoreFile.Recovered(meta, slot, list, entries),
                                               live, freeList, s);
      return Ok(store);
    }

    /** Follow the chain of list pages, refusing a link out of range or seen
        before, an impossible count and a zero id. */
    static method ChaseChain(pages: seq<Page>, w: nat, root: PageId)
      returns (r: Result<(seq<PageId>, seq<PageId>)>)
      requires w > 2 && forall i | 0 <= i < |pages| :: |pages[i]| == w
      ensures r == Chase(pages, w, root, {})
    {
      var cursor: PageId, visited: set<PageId> := root, {};
      var list: seq<PageId>, entries: seq<PageId> := [], [];
      PrependNothing(Chase(pages, w, root, {}));
      while cursor != 0
        invariant visited <= Ids(|pages|)
        invariant Chase(pages, w, root, {}) == Prepend(list, entries, Chase(pages, w, cursor, visited))
        decreases Ids(|pages|) - visited
      {
        if cursor > |pages| || cursor in visited {
          return Err(Corrupt);
        }
        var page := pages[cursor - 1];
        if page[1] > w - 2 {
          return Err(Corrupt);
        }
        var ids := page[2..2 + page[1]];
        if 0 in ids {
          return Err(Corrupt);
        }
        assert cursor in Ids(|pages|) - visited;
        ghost var rest := Chase(pages, w, page[0], visited + {cursor});
        if rest.Ok? {
          assert list + ([cursor] + rest.value.0) == (list + [cursor]) + rest.value.0;
          assert entries + (ids + rest.value.1) == (entries + ids) + rest.value.1;
        }
        cursor, visited, list, entries := page[0], visited + {cursor}, list + [cursor], entries + ids;
      }
      assert list + [] == list && entries + [] == entries;
      return Ok((list, entries));
    }

    /** Every page is live but the listed ones still in the file and the ones
        past the recorded count. */
    static method Reclaim(total: nat, meta: Meta, entries: seq<PageId>)
      returns (live: set<PageId>, freeList: seq<PageId>)
      ensures Ascending(freeList)
      ensures 0 !in entries ==> Elems(freeList) == RecoveredFree(meta, entries, total)
      ensures 0 !in entries ==> live == Ids(total) - Elems(freeList)
    {
      live, freeList := {}, [];
      for id := 1 to total + 1
        invariant live == Ids(id - 1) && freeList == []
      {
        live := live + {id};
      }
      for k := 0 to |entries|
        invariant Ascending(freeList)
        invariant forall p :: p in Elems(freeList) <==> p <= total && p in entries[..k]
        invariant live == Ids(total) - Elems(freeList)
      {
        if entries[k] <= total {
          InsertAscends(freeList, entries[k]);
          InsertMembers(freeList, entries[k]);
          live := live - {entries[k]};
          freeList := Insert(freeList, entries[k]);
        }
      }
      assert entries[..|entries|] == entries;
      if meta.dataPages.Some? && meta.dataPages.value < total {
        live, freeList := ReclaimPast(total, meta.dataPages.value, live, freeList);
      }
    }

    /** The pages past `count` become free. */
    static method ReclaimPast(total: nat, count: nat, live0: set<PageId>, free0: seq<PageId>)
      returns (live: set<PageId>, freeList: seq<PageId>)
      requires count <= total && Ascending(free0)
      ensures Ascending(freeList)
      ensures forall p :: p in Elems(freeList) <==> p in Elems(free0) || count < p <= total
      ensures live == live0 - (Ids(total) - Ids(count))
    {
      live, freeList := live0, free0;
      for id := count + 1 to total + 1
        invariant Ascending(freeList)
        invariant forall p :: p in Elems(freeList) <==> p in Elems(free0) || count < p < id
        invariant live == live0 - (Ids(id - 1) - Ids(count))
      {
        InsertAscends(freeList, id);
        InsertMembers(freeList, id);
        live := live - {id};
        freeList := Insert(freeList, id);
      }
    }

    // ---- Device operations ----

    static lemma AddSafe(trace: seq<CrashPoint>, c: CrashPoint, slot: MetaSlot, w: nat, history: set<Commit>)
      requires w > 2 && AllSafe(trace, w, history) && Anchored(c, slot, w)
      requires c.durable.AsCommit() in history && c.inFlight.AsCommit() in history
      ensures AllSafe(trace + [c], w, history)
    {
    }

    method WriteAt(p: PageId, content: Page)
      requires Coherent() && AnchoredNow()
      requires 1 <= p <= |disk.pages| + 1 && |content| == words && p !in durable.Needs()
      modifies `disk, `trace
      ensures disk == old(disk).WritePage(p, content) && AnchoredNow()
      ensures trace == old(trace) + [CrashPoint(disk, durable, durable)]
      ensures AllSafe(trace, words, history)
    {
      WriteKeeps(disk, p, content, durable, lastDurableSlot, words);
      disk := disk.WritePage(p, content);
      trace := trace + [CrashPoint(disk, durable, durable)];
    }

    method SyncFile()
      requires Coherent() && AnchoredNow()
      modifies `disk, `trace
      ensures disk == old(disk).Fsync() && AnchoredNow() && Coherent()
      ensures trace == old(trace) + [CrashPoint(disk, durable, durable)]
    {
      FsyncKeeps(disk, durable, lastDurableSlot, words);
      disk := disk.Fsync();
      trace := trace + [CrashPoint(disk, durable, durable)];
    }

    /** Extend the file by one blank page; the counters move once it is written. */
    method ExtendLocked() returns (id: PageId)
      requires Coherent() && AnchoredNow()
      modifies `disk, `trace, `totalDataPages, `live
      ensures Coherent() && AnchoredNow() && old(trace) <= trace
      ensures id == old(totalDataPages) + 1 && totalDataPages == id && live == old(live) + {id}
      ensures disk == old(disk).WritePage(id, Zeros(words))
    {
      id := totalDataPages + 1;
      NeedsExist(durable, disk.pages, words);
      WriteAt(id, Zeros(words));
      totalDataPages := id;
      live := live + {id};
    }

    // ---- Client operations ----

    /** The lowest free page, or a new one at the end; never a page a commit
        still needs. */
    method Allocate() returns (id: PageId)
      requires Valid()
      modifies `disk, `trace, `totalDataPages, `live, `freeList, `handed
      ensures Valid() && old(trace) <= trace
      ensures id == NextPage(old(State())) && State() == Allocated(old(State()))
      ensures id != 0 && id !in old(live) && id !in old(pendingFree)
      ensures id !in durable.Needs() && id !in State().LatestTree()
    {
      hide PagesOk, HeldOk, TreeOk, ModeOk, ListExact, AllSafe, Anchored;
      AllocatesUnneeded(State());
      AllocateKeeps(State());
      if freeList != [] {
        id := freeList[0];
        freeList := freeList[1..];
        live := live + {id};
      } else {
        id := ExtendLocked();
      }
      handed := handed + {id};
      assert State() == Allocated(old(State()));
    }

    /** A client writes only pages it was handed and has not committed. */
    method Write(id: PageId, data: Page) returns (r: Result<()>)
      requires Valid()
      requires 1 <= id <= totalDataPages ==> id in handed + written
      modifies `disk, `trace, `handed, `written
      ensures Valid() && old(trace) <= trace
      ensures id == 0 || id > totalDataPages ==> r == Err(OutOfRange)
      ensures 1 <= id <= totalDataPages && |data| != words ==> r == Err(InvalidArg)
      ensures 1 <= id <= totalDataPages && |data| == words ==> r == Ok(())
      ensures State() == if r.Ok? then Wrote(old(State()), id, data) else old(State())
    {
      hide PagesOk, HeldOk, TreeOk, ModeOk, ListExact, AllSafe, Anchored;
      if id == 0 || id > totalDataPages {
        return Err(OutOfRange);
      }
      if |data| != words {
        return Err(InvalidArg);
      }
      WriteKeepsInv(State(), id, data);
      WriteAt(id, data);
      handed, written := handed - {id}, written + {id};
      if mode.Fsync? {
        SyncFile();
      }
      return Ok(());
    }

    /** Freeing defers reuse under `Batched`. A client frees no page its latest
        commit needs, and no list page. */
    method Free(id: PageId) returns (r: Result<()>)
      requires Valid()
      requires id in live ==> id !in State().LatestTree() && id !in freeListPages
      modifies `live, `pendingFree, `freeList, `freeSetChanged, `handed, `written
      ensures Valid()
      ensures r == if id in old(live) then Ok(()) else Err(OutOfRange)
      ensures State() == if r.Ok? then Freed(old(State()), id) else old(State())
    {
      hide Inv, Insert, Elems, AllSafe;
      if id in live {
        LiveExists(State(), id);
      }
      if id == 0 || id > totalDataPages || id !in live {
        return Err(OutOfRange);
      }
      FreeKeeps(State(), id);
      live := live - {id};
      if mode.Batched? {
        pendingFree := pendingFree + [id];
      } else {
        freeList := Insert(freeList, id);
      }
      freeSetChanged := true;
      Forget(id);
      assert State() == Freed(old(State()), id);
      return Ok(());
    }

    /** The client has the page no longer. */
    ghost method Forget(id: PageId)
      modifies `handed, `written
      ensures handed == old(handed) - {id} && written == old(written) - {id}
    {
      handed, written := handed - {id}, written - {id};
    }

    method SyncData()
      requires Valid()
      modifies `disk, `trace
      ensures Valid() && old(trace) <= trace
      ensures disk == if mode.Fsync? then old(disk).Fsync() else old(disk)
    {
      if mode.Fsync? {
        SyncKeeps(State());
        SyncFile();
      }
    }

    // ---- The commit point ----

    /** Write the free list of the coming meta into its own pages and return the
        head. The pages come from the front of the free list, then from the end
        of the file; the previous list's pages become pending frees. */
    method WriteFreeListLocked() returns (head: PageId)
      requires Coherent() && Base(State())
      modifies `disk, `trace, `totalDataPages, `live, `freeList, `pendingFree, `freeListPages
      ensures Coherent() && AnchoredNow() && old(trace) <= trace
      ensures ListOnDisk(old(State()), disk)
      ensures head == Head(NewList(old(State()))) && (head == 0 <==> Needed(old(State())) == 0)
      ensures freeListPages == NewList(old(State()))
      ensures freeList == old(freeList)[Taken(old(State()))..]
      ensures pendingFree == old(pendingFree) + old(freeListPages)
      ensures live == old(live) + Elems(NewList(old(State()))) - Elems(old(freeListPages))
    {
      hide PagesOk, HeldOk, ListOnDisk, AllSafe, Anchored, Chain, ListPagesNeeded, Elems, Extended;
      ghost var s := State();
      var needed := ListPagesNeeded(|freeList|, |pendingFree| + |freeListPages|, words - 2);
      if needed == 0 {
        NothingToList(s);
        return 0;
      }
      var listPages := PutList(needed);
      var taken := Min(needed, |freeList|);
      assert listPages[..taken] == freeList[..taken];
      NewListMembers(s);
      live := live + Members(listPages[..taken]) - Members(freeListPages);
      freeList := freeList[taken..];
      pendingFree := pendingFree + freeListPages;
      freeListPages := listPages;
      NewListHead(s);
      head := listPages[0];
    }

    /** Choose the list's pages, extend the file for the shortfall, write them. */
    method PutList(needed: nat) returns (listPages: seq<PageId>)
      requires Coherent() && Base(State()) && needed == Needed(State())
      modifies `disk, `trace, `totalDataPages, `live
      ensures Coherent() && AnchoredNow() && old(trace) <= trace
      ensures ListOnDisk(old(State()), disk)
      ensures listPages == NewList(old(State()))
      ensures live == old(live) + Elems(Extended(old(totalDataPages), needed - Taken(old(State()))))
    {
      hide PagesOk, HeldOk, Chain, ListOnDisk, AllSafe, Anchored;
      ghost var s := State();
      assert Distinct(NewList(s)) && Elems(NewList(s)) !! durable.Needs()
             && Elems(NewList(s)) <= Ids(s.Total() + Needed(s) - Taken(s)) by { NewListIsUnneeded(s); }
      assert |NewEntries(s)| <= |NewList(s)| * (words - 2) by { EntriesFit(s); }
      var taken := Min(needed, |freeList|);
      listPages := ExtendList(freeList[..taken], needed);
      ghost var extended := disk;
      var entries := freeList[taken..] + pendingFree + freeListPages;
      assert listPages == NewList(s) && entries == NewEntries(s);
      WriteListPages(listPages, entries);
      ListIsOnDisk(s, extended, disk);
    }

    /** Extend the file until the list has all its pages. */
    method ExtendList(taken: seq<PageId>, needed: nat) returns (listPages: seq<PageId>)
      requires Coherent() && AnchoredNow() && |taken| <= needed
      modifies `disk, `trace, `totalDataPages, `live
      ensures Coherent() && AnchoredNow() && old(trace) <= trace
      ensures listPages == taken + Extended(old(totalDataPages), needed - |taken|)
      ensures totalDataPages == old(totalDataPages) + needed - |taken|
      ensures live == old(live) + Elems(Extended(old(totalDataPages), needed - |taken|))
      ensures old(disk).pages <= disk.pages
      ensures disk.floor == old(disk).floor
      ensures disk.dirty == old(disk).dirty + Elems(Extended(old(totalDataPages), needed - |taken|))
    {
      hide AllSafe, Anchored, Extended, Elems;
      listPages := taken;
      ExtendedNone(old(totalDataPages));
      while |listPages| < needed
        invariant Coherent() && AnchoredNow() && old(trace) <= trace
        invariant |taken| <= |listPages| <= needed
        invariant totalDataPages == old(totalDataPages) + |listPages| - |taken|
        invariant listPages == taken + Extended(old(totalDataPages), |listPages| - |taken|)
        invariant live == old(live) + Elems(Extended(old(totalDataPages), |listPages| - |taken|))
        invariant old(disk).pages <= disk.pages
        invariant disk.floor == old(disk).floor
        invariant disk.dirty == old(disk).dirty + Elems(Extended(old(totalDataPages), |listPages| - |taken|))
      {
        ghost var k := |listPages| - |taken|;
        ExtendedNext(old(totalDataPages), k);
        var page := ExtendLocked();
        listPages := listPages + [page];
      }
    }

    /** Write the list pages back to front, so each can name its successor. */
    method WriteListPages(listPages: seq<PageId>, entries: seq<PageId>)
      requires Coherent() && AnchoredNow()
      requires Distinct(listPages) && Elems(listPages) !! durable.Needs()
      requires Elems(listPages) <= Ids(|disk.pages|)
      requires |entries| <= |listPages| * (words - 2)
      modifies `disk, `trace
      ensures Coherent() && AnchoredNow() && old(trace) <= trace
      ensures |disk.pages| == |old(disk).pages| && disk.floor == old(disk).floor
      ensures disk.dirty <= old(disk).dirty + Elems(listPages)
      ensures forall p | 1 <= p <= |disk.pages| && p !in listPages :: disk.pages[p - 1] == old(disk).pages[p - 1]
      ensures Chain(disk.pages, words, listPages, entries)
    {
      hide Anchored, AllSafe, Chain;
      var perPage := words - 2;
      var i := |listPages|;
      assert listPages[i..] == [] && entries[FirstEntry(i, perPage, |entries|)..] == [];
      EmptyChain(disk.pages, words);
      while i > 0
        invariant 0 <= i <= |listPages|
        invariant Coherent() && AnchoredNow() && old(trace) <= trace
        invariant |disk.pages| == |old(disk).pages| && disk.floor == old(disk).floor
        invariant disk.dirty <= old(disk).dirty + Elems(listPages)
        invariant forall p | 1 <= p <= |disk.pages| && p !in listPages :: disk.pages[p - 1] == old(disk).pages[p - 1]
        invariant Chain(disk.pages, words, listPages[i..], entries[FirstEntry(i, perPage, |entries|)..])
      {
        i := i - 1;
        var next := if i + 1 < |listPages| then listPages[i + 1] else 0;
        var first := Min(i * perPage, |entries|);
        var count := Min(perPage, |entries| - first);
        var id := listPages[i];
        assert id in Elems(listPages);
        FirstEntrySteps(i, perPage, |entries|);
        ghost var before := disk.pages;
        WriteAt(id, ListPage(words, next, entries[first..first + count]));
        ChainStep(before, disk.pages, listPages, i, entries, first, count);
      }
      assert listPages[0..] == listPages && entries[0..] == entries;
    }

    /** Prepending one written page to the chain behind it. */
    lemma ChainStep(before: seq<Page>, pages: seq<Page>, list: seq<PageId>, i: nat,
                    entries: seq<PageId>, first: nat, count: nat)
      requires words > 2 && i < |list| && Distinct(list) && |before| == |pages|
      requires 1 <= list[i] <= |pages| && first + count <= |entries|
      requires count == Min(words - 2, |entries| - first)
      requires Chain(before, words, list[i + 1..], entries[first + count..])
      requires pages == before[list[i] - 1 := pages[list[i] - 1]]
      requires pages[list[i] - 1] == ListPage(words, Head(list[i + 1..]), entries[first..first + count])
      ensures Chain(pages, words, list[i..], entries[first..])
    {
      var rest := list[i + 1..];
      ChainPagesExist(before, words, rest, entries[first + count..]);
      forall p | p in rest
        ensures 1 <= p <= |before| && p <= |pages| && pages[p - 1] == before[p - 1]
      {
        assert p != list[i];
      }
      ChainFrame(before, pages, words, rest, entries[first + count..]);
      assert list[i..][1..] == rest;
      assert entries[first..][..count] == entries[first..first + count];
      assert entries[first..][count..] == entries[first + count..];
    }

    /** Walk down from the end while the last page is free. */
    static method FreeTail(free: seq<PageId>, total: nat) returns (keep: nat, i: nat)
      requires Ascending(free) && Elems(free) <= Ids(total)
      ensures keep == Keep(free, total) && keep <= total && i <= |free| && free[..i] == CutFree(free, total)
      ensures forall q | q in free :: 1 <= q <= total
    {
      forall q | q in free
        ensures 1 <= q <= total
      {
        assert q in Elems(free) && q in Ids(total);
      }
      keep, i := total, |free|;
      assert free[..i] == free;
      while i > 0 && free[i - 1] == keep
        invariant i <= |free| && keep <= total
        invariant Keep(free[..i], keep) == Keep(free, total)
        invariant CutFree(free[..i], keep) == CutFree(free, total)
      {
        assert free[i - 1] in free;
        assert free[..i][..i - 1] == free[..i - 1];
        keep, i := keep - 1, i - 1;
      }
    }

    /** Cut the file back to its highest page that is not free. */
    method TruncateFreeTailLocked()
      requires Coherent() && AnchoredNow() && Ascending(freeList)
      requires Elems(freeList) <= Ids(totalDataPages) && Elems(freeList) !! durable.Needs()
      modifies `disk, `trace, `totalDataPages, `freeList
      ensures Coherent() && AnchoredNow() && old(trace) <= trace
      ensures totalDataPages == Keep(old(freeList), old(totalDataPages))
      ensures freeList == CutFree(old(freeList), old(totalDataPages))
      ensures disk == if totalDataPages == old(totalDataPages) then old(disk) else old(disk).SetLength(totalDataPages)
    {
      hide AllSafe;
      var keep, i := FreeTail(freeList, totalDataPages);
      if keep == totalDataPages {
        return;
      }
      assert forall p | p in durable.Needs() :: p <= keep by {
        NeedsExist(durable, disk.pages, words);
        CutIsFreeTail(freeList, totalDataPages);
        assert forall p | p in durable.Needs() :: p !in Elems(freeList);
      }
      CutKeeps(disk, keep, durable, lastDurableSlot, words);
      disk := disk.SetLength(keep);
      trace := trace + [CrashPoint(disk, durable, durable)];
      AddSafe(old(trace), CrashPoint(disk, durable, durable), lastDurableSlot, words, history);
      freeList := freeList[..i];
      totalDataPages := keep;
    }

    /** Write `meta` to the slot that does not hold the last durable one. */
    method WriteSlotLocked(slot: MetaSlot, meta: Meta, ghost next: Snapshot)
      requires Coherent() && AnchoredNow() && slot == OtherSlot(lastDurableSlot)
      requires next.Consistent() && next.DurableIn(disk, words)
      requires next.meta == meta && meta.txnId > durable.meta.txnId && next.AsCommit() in history
      modifies `disk, `trace
      ensures disk == old(disk).WriteSlot(slot, meta)
      ensures Anchored(CrashPoint(disk, durable, next), lastDurableSlot, words)
      ensures AllSafe(trace, words, history) && old(trace) <= trace
    {
      SlotWriteKeeps(disk, durable, next, lastDurableSlot, words);
      disk := disk.WriteSlot(slot, meta);
      trace := trace + [CrashPoint(disk, durable, next)];
      AddSafe(old(trace), CrashPoint(disk, durable, next), lastDurableSlot, words, history);
    }

    method SyncSlot(ghost next: Snapshot)
      requires words > 2 && AllSafe(trace, words, history) && next.AsCommit() in history
      requires Anchored(CrashPoint(disk, durable, next), lastDurableSlot, words)
      requires next.meta.txnId > durable.meta.txnId && disk.Slot(OtherSlot(lastDurableSlot)) == Intact(next.meta)
      modifies `disk, `trace
      ensures disk == old(disk).Fsync()
      ensures Anchored(CrashPoint(disk, next, next), OtherSlot(lastDurableSlot), words)
      ensures AllSafe(trace, words, history) && old(trace) <= trace
    {
      SlotFsyncCommits(disk, durable, next, lastDurableSlot, words);
      disk := disk.Fsync();
      trace := trace + [CrashPoint(disk, next, next)];
      AddSafe(old(trace), CrashPoint(disk, next, next), OtherSlot(lastDurableSlot), words, history);
    }

    /** Free list, data fsync, meta to the other slot, meta fsync: in that order
        the file always gives back the old commit or the new one. */
    method MakeDurable(meta: Meta, ghost tree: map<PageId, Page>) returns (stamped: Meta)
      requires Coherent() && Ready(State(), meta, tree) && CommitOf(meta, tree) in history
      modifies `disk, `trace, `totalDataPages, `live, `freeList, `pendingFree, `freeListPages
      ensures AllSafe(trace, words, history) && old(trace) <= trace && totalDataPages == |disk.pages|
      ensures stamped == Next(old(State()), meta, tree).meta && Next(old(State()), meta, tree).AsCommit() in history
      ensures Anchored(CrashPoint(disk, Next(old(State()), meta, tree), Next(old(State()), meta, tree)),
                       OtherSlot(lastDurableSlot), words)
      ensures totalDataPages == old(totalDataPages) + Needed(old(State())) - Taken(old(State()))
      ensures disk.dirty == {} && disk.floor == |disk.pages|
      ensures Untouched(old(State()), disk.pages)
      ensures freeListPages == NewList(old(State()))
      ensures freeList == old(freeList)[Taken(old(State()))..]
      ensures pendingFree == old(pendingFree) + old(freeListPages)
      ensures live == old(live) + Elems(NewList(old(State()))) - Elems(old(freeListPages))
    {
      hide PagesOk, HeldOk, DurableOk, TreeOk, AllSafe, Chain, NewList, NewEntries, Needed, Taken, Untouched;
      ghost var s := State();
      ghost var next := Next(s, meta, tree);
      var syncs := SyncsFor(mode);
      var freeRoot := WriteFreeListLocked();
      stamped := meta.(freeRoot := freeRoot, dataPages := Some(totalDataPages));
      NextConsistent(s, meta, tree);
      NextDurable(s, meta, tree, disk);
      if syncs.dataBeforeMeta || (syncs.listBeforeMeta && freeRoot != 0) {
        SyncFile();
      }
      WriteSlotLocked(OtherSlot(lastDurableSlot), stamped, next);
      if syncs.metaAfterWrite {
        SyncSlot(next);
      }
    }

    /** After a durable meta: cut the free tail, then let the deferred pages be
        reused. */
    method ReleaseLocked()
      requires Coherent() && AnchoredNow() && Ascending(freeList)
      requires Elems(freeList) <= Ids(totalDataPages) && Elems(freeList) !! durable.Needs()
      modifies `disk, `trace, `totalDataPages, `freeList, `pendingFree, `freeSetChanged
      ensures Coherent() && old(trace) <= trace
      ensures totalDataPages == Keep(old(freeList), old(totalDataPages))
      ensures freeList == InsertAll(CutFree(old(freeList), old(totalDataPages)), old(pendingFree))
      ensures disk == if totalDataPages == old(totalDataPages) then old(disk) else old(disk).SetLength(totalDataPages)
      ensures pendingFree == [] && !freeSetChanged
    {
      TruncateFreeTailLocked();
      freeList := InsertAll(freeList, pendingFree);
      pendingFree := [];
      freeSetChanged := false;
    }

    /** The one place a meta reaches the disk. Truncation and reuse wait until
        it is durable, and truncation comes first. */
    method CommitMetaLocked(meta: Meta, ghost tree: map<PageId, Page>)
      requires Coherent() && Ready(State(), meta, tree) && CommitOf(meta, tree) in history
      modifies `disk, `trace, `totalDataPages, `live, `freeList, `pendingFree, `freeListPages,
               `lastDurableSlot, `lastDurableMeta, `durable, `freeSetChanged
      ensures Coherent() && old(trace) <= trace
      ensures Inv(State().(pendingMeta := None, commits := 0))
      ensures durable == Next(old(State()), meta, tree) && lastDurableSlot == OtherSlot(old(lastDurableSlot))
      ensures live == old(live) + Elems(NewList(old(State()))) - Elems(old(freeListPages))
      ensures Elems(freeList) == RecoveredFree(durable.meta, durable.entries, totalDataPages)
      ensures pendingFree == [] && !freeSetChanged
      ensures old(durable).HeldBy(disk.pages, words)
    {
      hide PagesOk, HeldOk, DurableOk, TreeOk, Inv, AllSafe, Chain, NewList, NewEntries, Needed, Taken,
           Anchored, Untouched, Keep, CutFree, InsertAll, Elems, Base, Next;
      ghost var s := State();
      var stamped := MakeDurable(meta, tree);
      ghost var d := disk;
      lastDurableSlot := OtherSlot(lastDurableSlot);
      lastDurableMeta := stamped;
      durable := Next(s, meta, tree);
      RestIsFree(s, meta, tree);
      ReleaseLocked();
      assert State() == Committed(s, meta, tree, d);
      CommitOutcome(s, meta, tree, d, State());
    }

    /** Make the buffered commit durable and end the batch. */
    method FlushBatchLocked()
      requires Coherent() && Inv(State().(commits := 0))
      requires pendingMeta.Some? ==> CommitOf(pendingMeta.value, pendingTree) in history
      modifies `disk, `trace, `totalDataPages, `live, `freeList, `pendingFree, `freeListPages,
               `lastDurableSlot, `lastDurableMeta, `durable, `freeSetChanged, `pendingMeta, `commitsSinceFlush
      ensures Valid() && old(trace) <= trace && pendingMeta.None? && commitsSinceFlush == 0
      ensures old(pendingMeta).None? ==> State() == old(State()).(commits := 0)
      ensures old(pendingMeta).Some? ==>
                durable == Next(old(State()), old(pendingMeta).value, old(pendingTree)) && !freeSetChanged
    {
      hide PagesOk, HeldOk, DurableOk, TreeOk, ModeOk, ListExact, AllSafe, Chain, NewList, NewEntries, Needed, Taken;
      if pendingMeta.None? {
        commitsSinceFlush := 0;
        return;
      }
      PendingIsReady(State());
      CommitMetaLocked(pendingMeta.value, pendingTree);
      pendingMeta := None;
      commitsSinceFlush := 0;
    }

    /** The client's commit: buffered under `Batched` until the interval, durable
        at once under `Fsync`. `tree` is every page the meta's root reaches. */
    method WriteMeta(meta: Meta, ghost tree: set<PageId>)
      requires Valid() && MayCommit(State(), meta, tree)
      modifies `disk, `trace, `totalDataPages, `live, `freeList, `pendingFree, `freeListPages, `lastDurableSlot,
               `lastDurableMeta, `durable, `freeSetChanged, `pendingMeta, `commitsSinceFlush, `pendingTree, `written, `history
      ensures Valid() && old(trace) <= trace
      ensures tree <= Ids(|old(disk).pages|) && State().LatestTree() == Contents(old(State()), tree)
      ensures history == old(history) + {CommitOf(meta, Contents(old(State()), tree))}
      ensures State().LatestTxn() == meta.txnId && SameFigures(State().LatestMeta(), meta) && written == old(written) - tree
      ensures mode.Batched? && old(commitsSinceFlush) + 1 < BATCHED_FLUSH_INTERVAL ==>
                State() == Buffered(old(State()), meta, tree)
      ensures mode.Fsync? || old(commitsSinceFlush) + 1 >= BATCHED_FLUSH_INTERVAL ==>
                pendingMeta.None? && durable == Next(Committing(old(State()), tree), meta, Contents(old(State()), tree))
    {
      if mode.Batched? {
        BufferMeta(meta, tree);
      } else {
        CommitNow(meta, tree);
      }
    }

    method BufferMeta(meta: Meta, ghost tree: set<PageId>)
      requires Valid() && MayCommit(State(), meta, tree) && mode.Batched?
      modifies `disk, `trace, `totalDataPages, `live, `freeList, `pendingFree, `freeListPages, `lastDurableSlot,
               `lastDurableMeta, `durable, `freeSetChanged, `pendingMeta, `commitsSinceFlush, `pendingTree, `written, `history
      ensures Valid() && old(trace) <= trace && tree <= Ids(|old(disk).pages|) && written == old(written) - tree
      ensures history == old(history) + {CommitOf(meta, Contents(old(State()), tree))}
      ensures old(commitsSinceFlush) + 1 < BATCHED_FLUSH_INTERVAL ==> State() == Buffered(old(State()), meta, tree)
      ensures old(commitsSinceFlush) + 1 >= BATCHED_FLUSH_INTERVAL ==>
                pendingMeta.None? && durable == Next(Committing(old(State()), tree), meta, Contents(old(State()), tree))
    {
      hide Inv, AllSafe, Next, Contents;
      ghost var s := State();
      HoldMeta(meta, tree);
      if commitsSinceFlush >= BATCHED_FLUSH_INTERVAL {
        NextDependsOnLists(State(), Committing(s, tree), meta, pendingTree);
        FlushBatchLocked();
      }
    }

    /** Keep the meta in memory as one more commit of the batch. */
    method HoldMeta(meta: Meta, ghost tree: set<PageId>)
      requires Valid() && MayCommit(State(), meta, tree) && mode.Batched?
      modifies `pendingMeta, `commitsSinceFlush, `pendingTree, `written, `history
      ensures tree <= Ids(|disk.pages|) && State() == Buffered(old(State()), meta, tree)
      ensures Coherent() && history == old(history) + {CommitOf(meta, Contents(old(State()), tree))}
      ensures Inv(State().(commits := 0)) && (commitsSinceFlush < BATCHED_FLUSH_INTERVAL ==> Inv(State()))
    {
      hide Inv, AllSafe, Contents;
      ghost var s := State();
      ghost var contents := RecordCommit(meta, tree);
      BufferedIsInv(s, meta, tree);
      pendingMeta := Some(meta);
      commitsSinceFlush := commitsSinceFlush + 1;
      LetGo(contents, tree);
      assert State() == Buffered(s, meta, tree);
    }

    /** The client's hold ends where the commit's begins. */
    ghost method LetGo(contents: map<PageId, Page>, tree: set<PageId>)
      modifies `pendingTree, `written
      ensures pendingTree == contents && written == old(written) - tree
    {
      pendingTree, written := contents, written - tree;
    }

    method CommitNow(meta: Meta, ghost tree: set<PageId>)
      requires Valid() && MayCommit(State(), meta, tree) && mode.Fsync?
      modifies `disk, `trace, `totalDataPages, `live, `freeList, `pendingFree, `freeListPages, `lastDurableSlot,
               `lastDurableMeta, `durable, `freeSetChanged, `written, `history
      ensures Valid() && old(trace) <= trace && tree <= Ids(|old(disk).pages|) && written == old(written) - tree
      ensures history == old(history) + {CommitOf(meta, Contents(old(State()), tree))}
      ensures durable == Next(Committing(old(State()), tree), meta, Contents(old(State()), tree))
    {
      hide Base, TreeOk, ListExact, AllSafe, Chain, Next;
      ghost var s := State();
      ghost var contents := RecordCommit(meta, tree);
      MayCommitIsReady(s, meta, tree);
      written := written - tree;
      assert State() == Committing(s, tree);
      CommitMetaLocked(meta, contents);
    }

    /** Note what is being committed. */
    ghost method RecordCommit(meta: Meta, tree: set<PageId>) returns (contents: map<PageId, Page>)
      requires Valid() && tree <= State().LatestTree().Keys + written
      modifies `history
      ensures Valid() && tree <= Ids(|disk.pages|) && contents == Contents(State(), tree)
      ensures history == old(history) + {CommitOf(meta, contents)}
    {
      hide Inv, CrashSafe;
      CommitPagesExist(State(), tree);
      contents := Contents(State(), tree);
      history := history + {CommitOf(meta, contents)};
    }

    /** The group-commit boundary, taken on demand. */
    method Flush()
      requires Valid()
      modifies `disk, `trace, `totalDataPages, `live, `freeList, `pendingFree, `freeListPages,
               `lastDurableSlot, `lastDurableMeta, `durable, `freeSetChanged, `pendingMeta, `commitsSinceFlush
      ensures Valid() && old(trace) <= trace && pendingMeta.None?
      ensures State().LatestTree() == old(State().LatestTree()) && durable.tree == old(State().LatestTree())
      ensures SameFigures(lastDurableMeta, old(State().LatestMeta())) && lastDurableMeta.txnId == old(State().LatestTxn())
    {
      hide PagesOk, HeldOk, DurableOk, TreeOk, AllSafe, NewList, NewEntries, Needed, Taken;
      CountIsFree(State());
      FlushBatchLocked();
    }

    /** A clean close: flush the batch, or restate the durable commit so that its
        list names the frees made since. With nothing held, reopening the file
        rebuilds exactly this store's live and free pages. */
    method Close()
      requires Valid()
      modifies `disk, `trace, `totalDataPages, `live, `freeList, `pendingFree, `freeListPages,
               `lastDurableSlot, `lastDurableMeta, `durable, `freeSetChanged, `pendingMeta, `commitsSinceFlush
      ensures Valid() && old(trace) <= trace
      ensures pendingMeta.None? && durable.tree == old(State().LatestTree())
      ensures SameFigures(lastDurableMeta, old(State().LatestMeta()))
      ensures lastDurableMeta.txnId ==
              old(State().LatestTxn()) + if old(pendingMeta.None? && freeSetChanged) then 1 else 0
      ensures handed + written == {} ==>
                && GivesBack(disk, durable, words) && durable.meta == lastDurableMeta
                && RecoveredFree(durable.meta, durable.entries, totalDataPages) == Elems(freeList)
                && Ids(totalDataPages) - Elems(freeList) == live
    {
      hide PagesOk, HeldOk, DurableOk, TreeOk, AllSafe, NewList, NewEntries, Needed, Taken, ListExact;
      CountIsFree(State());
      if pendingMeta.Some? {
        FlushBatchLocked();
      } else if freeSetChanged {
        RestateIsReady(State());
        CommitMetaLocked(lastDurableMeta.(txnId := lastDurableMeta.txnId + 1), durable.tree);
        commitsSinceFlush := 0;
      }
      if handed + written == {} {
        CleanReopen(State());
      }
    }

    /** Crash safety over a whole run: pick any moment of it, lose power there,
        and the file reopens to a valid store whose durable commit is the one
        that was durable at that moment or the one then in flight. */
    method ReopenAfterPowerLoss(moment: nat, d: Disk) returns (r: Result<FilePageStore>)
      requires Valid() && moment < |trace| && PowerLoss(trace[moment].disk, d, words)
      ensures r.Ok? && fresh(r.value) && r.value.Valid() && r.value.disk == d
      ensures r.value.durable == trace[moment].durable || r.value.durable == trace[moment].inFlight
      ensures GivesBack(d, r.value.durable, words)
      ensures r.value.durable.AsCommit() in history && r.value.history == {r.value.durable.AsCommit()}
      ensures r.value.lastDurableMeta == r.value.durable.meta == Recover(d, words).value.meta
    {
      assert CrashSafe(trace[moment], words);
      ghost var s := CrashRecovers(trace[moment], d, words);
      r := Open(words, mode, d, s);
    }
  }
}
