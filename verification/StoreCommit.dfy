/** Making a meta durable: the free list it carries, the order of the writes,
    the tail that is cut and the pages that become reusable. */
module StoreCommit {
  import opened Wrappers
  import opened FreeListPages
  import opened StoreFile
  import opened StoreState

  // ---- The list a commit writes ----

  function Needed(s: Store): nat
    requires s.words > 2
  {
    ListPagesNeeded(|s.freeList|, |s.pendingFree| + |s.freeListPages|, s.words - 2)
  }

  /** List pages taken from the free list; the rest extend the file. */
  function Taken(s: Store): (t: nat)
    requires s.words > 2
    ensures t <= |s.freeList| && t <= Needed(s)
  {
    Min(Needed(s), |s.freeList|)
  }

  function Extended(total: nat, n: nat): (ids: seq<PageId>)
    ensures |ids| == n && forall i | 0 <= i < n :: ids[i] == total + 1 + i
  {
    seq(n, i => total + 1 + i)
  }

  lemma ExtendedNone(total: nat)
    ensures Extended(total, 0) == [] && Elems(Extended(total, 0)) == {}
  {
  }

  lemma ExtendedNext(total: nat, k: nat)
    ensures Extended(total, k + 1) == Extended(total, k) + [total + k + 1]
    ensures Elems(Extended(total, k + 1)) == Elems(Extended(total, k)) + {total + k + 1}
  {
    var last := [total + k + 1];
    assert Extended(total, k + 1) == Extended(total, k) + last;
    ElemsConcat(Extended(total, k), last);
    assert Elems(last) == {total + k + 1};
  }

  function NewList(s: Store): (l: seq<PageId>)
    requires s.words > 2
    ensures |l| == Needed(s)
  {
    s.freeList[..Taken(s)] + Extended(s.Total(), Needed(s) - Taken(s))
  }

  /** Everything free once the commit lands: what stays in the free list, the
      pending frees and the previous list's own pages. */
  function NewEntries(s: Store): seq<PageId>
    requires s.words > 2
  {
    s.freeList[Taken(s)..] + s.pendingFree + s.freeListPages
  }

  lemma EntriesFit(s: Store)
    requires s.words > 2
    ensures |NewEntries(s)| <= Needed(s) * (s.words - 2)
  {
    Enough(|s.freeList|, |s.pendingFree| + |s.freeListPages|, s.words - 2);
  }

  /** The new list's pages exist in the new file and no commit needs them. */
  lemma NewListIsUnneeded(s: Store)
    requires Base(s)
    ensures Ascending(NewList(s))
    ensures Elems(NewList(s)) !! s.durable.Needs() + s.live + Elems(s.pendingFree)
    ensures Elems(NewList(s)) <= Ids(s.Total() + Needed(s) - Taken(s))
    ensures Elems(NewList(s)) !! Elems(s.freeList[Taken(s)..])
    ensures Ids(s.Total() + Needed(s) - Taken(s)) ==
            s.live + Elems(s.pendingFree) + Elems(s.freeList[Taken(s)..]) + Elems(NewList(s))
  {
    var t, ext := Taken(s), Needed(s) - Taken(s);
    var list := NewList(s);
    AscendingSplit(s.freeList, t);
    NeedsExist(s.durable, s.disk.pages, s.words);
    forall i, j | 0 <= i < j < |list|
      ensures list[i] < list[j]
    {
      if i < t <= j {
        assert list[i] in Elems(s.freeList) && list[i] in Ids(s.Total());
      }
    }
    ElemsConcat(s.freeList[..t], Extended(s.Total(), ext));
    var ids := Extended(s.Total(), ext);
    forall p
      ensures p in Elems(ids) <==> s.Total() < p <= s.Total() + ext
    {
      if s.Total() < p <= s.Total() + ext {
        assert ids[p - s.Total() - 1] == p;
      }
    }
    assert s.live + Elems(s.freeList) + Elems(s.pendingFree) == Ids(s.Total());
  }

  lemma EntriesMembers(s: Store)
    requires Base(s)
    ensures Elems(NewEntries(s)) ==
            Elems(s.freeList[Taken(s)..]) + Elems(s.pendingFree) + Elems(s.freeListPages)
  {
    ElemsConcat(s.freeList[Taken(s)..] + s.pendingFree, s.freeListPages);
    ElemsConcat(s.freeList[Taken(s)..], s.pendingFree);
  }

  /** Outside the new list, `pages` holds what the file of `s` held. */
  ghost predicate Untouched(s: Store, pages: seq<Page>)
    requires s.words > 2 && |pages| >= s.Total()
  {
    forall p | 1 <= p <= s.Total() && p !in NewList(s) :: pages[p - 1] == s.disk.pages[p - 1]
  }

  /** `d` is the file of `s` with the new list written into it and nothing else. */
  ghost predicate ListOnDisk(s: Store, d: Disk)
    requires s.words > 2
  {
    && d.Ok(s.words)
    && |d.pages| == s.Total() + Needed(s) - Taken(s)
    && Untouched(s, d.pages)
    && Chain(d.pages, s.words, NewList(s), NewEntries(s))
    && d.floor == s.disk.floor && d.dirty <= s.disk.dirty + Elems(NewList(s))
    && Anchored(CrashPoint(d, s.durable, s.durable), s.lastSlot, s.words)
  }

  lemma NothingToList(s: Store)
    requires Base(s) && Needed(s) == 0
    ensures s.freeList == [] && s.pendingFree == [] && s.freeListPages == []
    ensures NewList(s) == [] && ListOnDisk(s, s.disk)
  {
    EntriesFit(s);
    assert 0 * (s.words - 2) == 0;
  }

  /** Extending the file and then writing the list pages puts the list on disk. */
  lemma ListIsOnDisk(s: Store, extended: Disk, d: Disk)
    requires Base(s)
    requires s.disk.pages <= extended.pages && |extended.pages| == s.Total() + Needed(s) - Taken(s)
    requires extended.floor == s.disk.floor
    requires extended.dirty == s.disk.dirty + Elems(Extended(s.Total(), Needed(s) - Taken(s)))
    requires |d.pages| == |extended.pages| && d.floor == extended.floor
    requires d.dirty <= extended.dirty + Elems(NewList(s))
    requires forall p | 1 <= p <= |d.pages| && p !in NewList(s) :: d.pages[p - 1] == extended.pages[p - 1]
    requires Chain(d.pages, s.words, NewList(s), NewEntries(s))
    requires Anchored(CrashPoint(d, s.durable, s.durable), s.lastSlot, s.words)
    ensures ListOnDisk(s, d)
  {
    ElemsConcat(s.freeList[..Taken(s)], Extended(s.Total(), Needed(s) - Taken(s)));
  }

  lemma NewListMembers(s: Store)
    requires s.words > 2
    ensures s.live + Elems(NewList(s)) ==
            s.live + Elems(Extended(s.Total(), Needed(s) - Taken(s))) + Elems(s.freeList[..Taken(s)])
  {
    ElemsConcat(s.freeList[..Taken(s)], Extended(s.Total(), Needed(s) - Taken(s)));
  }

  lemma NewListHead(s: Store)
    requires Base(s) && Needed(s) > 0
    ensures NewList(s) != [] && NewList(s)[0] != 0
  {
    hide PagesOk, DurableOk, HeldOk, Needed, Taken, NewEntries;
    NewListIsUnneeded(s);
    assert NewList(s)[0] in Elems(NewList(s));
  }

  /** The commit being made. */
  ghost function Next(s: Store, meta: Meta, tree: map<PageId, Page>): Snapshot
    requires s.words > 2
  {
    Snapshot(meta.(freeRoot := Head(NewList(s)), dataPages := Some(s.Total() + Needed(s) - Taken(s))),
             tree, NewList(s), NewEntries(s))
  }

  lemma NextDependsOnLists(s: Store, t: Store, meta: Meta, tree: map<PageId, Page>)
    requires s.words > 2 && s.words == t.words && s.disk == t.disk
    requires s.freeList == t.freeList && s.pendingFree == t.pendingFree && s.freeListPages == t.freeListPages
    ensures Next(s, meta, tree) == Next(t, meta, tree)
  {
  }

  lemma NextConsistent(s: Store, meta: Meta, tree: map<PageId, Page>)
    requires Ready(s, meta, tree)
    ensures Next(s, meta, tree).Consistent()
  {
    NewListIsUnneeded(s);
    EntriesMembers(s);
    var n := Next(s, meta, tree);
    assert Elems(s.freeList) <= Ids(s.Total()) && Elems(s.pendingFree) <= Ids(s.Total());
    assert Elems(n.entries) <= Ids(s.Total()) by {
      AscendingSplit(s.freeList, Taken(s));
    }
    assert 0 !in Elems(n.entries);
    assert Elems(n.entries) !! n.Needs() by {
      AscendingSplit(s.freeList, Taken(s));
    }
  }

  lemma RestIsFree(s: Store, meta: Meta, tree: map<PageId, Page>)
    requires Ready(s, meta, tree)
    ensures var rest := s.freeList[Taken(s)..];
            && Ascending(rest) && Elems(rest) <= Ids(s.Total() + Needed(s) - Taken(s))
            && Elems(rest) !! Next(s, meta, tree).Needs()
  {
    AscendingSplit(s.freeList, Taken(s));
    NewListIsUnneeded(s);
    assert Elems(s.freeList) !! s.live;
  }

  /** Once the data is synced, the new commit would survive a power loss. */
  lemma NextDurable(s: Store, meta: Meta, tree: map<PageId, Page>, d: Disk)
    requires Ready(s, meta, tree) && ListOnDisk(s, d)
    ensures Next(s, meta, tree).DurableIn(d.Fsync(), s.words)
    ensures s.mode.Fsync? && Needed(s) == 0 ==> Next(s, meta, tree).DurableIn(d, s.words)
  {
    hide Chain, Anchored, NewList, NewEntries, Needed, Taken;
    var n := Next(s, meta, tree);
    assert tree.Keys !! Elems(NewList(s)) by { NewListIsUnneeded(s); }
    forall p | p in tree
      ensures 1 <= p <= |d.pages| && d.pages[p - 1] == tree[p]
    {
      assert p !in Elems(NewList(s));
    }
    assert n.HeldBy(d.pages, s.words);
    NeedsExist(n, d.pages, s.words);
    if Needed(s) == 0 {
      assert NewList(s) == [];
    }
  }

  // ---- The free tail ----

  /** The file's length once its free tail is cut. */
  function Keep(free: seq<PageId>, total: nat): (keep: nat)
    ensures keep <= total
  {
    if free != [] && total > 0 && free[|free| - 1] == total then Keep(free[..|free| - 1], total - 1) else total
  }

  /** The free pages that are left. */
  function CutFree(free: seq<PageId>, total: nat): (rest: seq<PageId>)
    ensures rest <= free
  {
    if free != [] && total > 0 && free[|free| - 1] == total then CutFree(free[..|free| - 1], total - 1) else free
  }

  /** Only free pages are cut, and every free page at the end is. */
  lemma {:induction false} CutIsFreeTail(free: seq<PageId>, total: nat)
    requires Ascending(free) && forall p | p in free :: 1 <= p <= total
    ensures forall p | Keep(free, total) < p <= total :: p in free
    ensures Keep(free, total) !in free
    ensures forall p :: p in CutFree(free, total) <==> p in free && p <= Keep(free, total)
    decreases total
  {
    if free != [] {
      var last := free[|free| - 1];
      var rest := free[..|free| - 1];
      LastIsLargest(free);
      if last == total {
        assert Keep(free, total) == Keep(rest, total - 1) && CutFree(free, total) == CutFree(rest, total - 1);
        CutIsFreeTail(rest, total - 1);
      }
    }
  }

  lemma LastIsLargest(free: seq<PageId>)
    requires Ascending(free) && free != []
    ensures var last, rest := free[|free| - 1], free[..|free| - 1];
            && Ascending(rest) && last in free
            && (forall p :: p in free <==> p in rest || p == last)
            && (forall p | p in rest :: p < last)
  {
    assert free == free[..|free| - 1] + [free[|free| - 1]];
  }

  // ---- The committed state ----

  /** The state once the meta is durable in `d`: list pages changed hands, the
      tail is cut and the pending frees are reusable. */
  ghost function Committed(s: Store, meta: Meta, tree: map<PageId, Page>, d: Disk): Store
    requires Base(s)
    requires |d.pages| == s.Total() + Needed(s) - Taken(s)
  {
    var free := s.freeList[Taken(s)..];
    var keep := Keep(free, |d.pages|);
    var rest := CutFree(free, |d.pages|);
    s.(disk := if keep == |d.pages| then d else d.SetLength(keep),
       live := s.live + Elems(NewList(s)) - Elems(s.freeListPages),
       freeList := InsertAll(rest, s.pendingFree + s.freeListPages),
       pendingFree := [],
       freeListPages := NewList(s),
       lastSlot := OtherSlot(s.lastSlot),
       durable := Next(s, meta, tree),
       changed := false)
  }

  /** Of the pages of `all`, the cut drops free ones only. */
  lemma CutSplits(free: seq<PageId>, other: set<PageId>, total: nat)
    requires Ascending(free) && Elems(free) + other == Ids(total) && Elems(free) !! other
    ensures other <= Ids(Keep(free, total))
    ensures Elems(CutFree(free, total)) <= Elems(free)
    ensures Ids(Keep(free, total)) == other + Elems(CutFree(free, total))
    ensures forall p :: p in Elems(CutFree(free, total)) <==> p in Elems(free) && p <= Keep(free, total)
  {
    forall p | p in free
      ensures 1 <= p <= total
    {
      assert p in Elems(free) && p in Ids(total);
    }
    CutIsFreeTail(free, total);
    forall p | p in other
      ensures p <= Keep(free, total)
    {
      assert p in Ids(total) && p !in Elems(free);
    }
  }

  lemma CutKeepsNeeded(s: Store, d: Disk)
    requires Base(s) && |d.pages| == s.Total() + Needed(s) - Taken(s)
    ensures var free := s.freeList[Taken(s)..];
            var keep := Keep(free, |d.pages|);
            && s.live + Elems(s.pendingFree) + Elems(NewList(s)) <= Ids(keep)
            && Elems(CutFree(free, |d.pages|)) <= Elems(free)
            && Ids(keep) == s.live + Elems(s.pendingFree) + Elems(NewList(s)) + Elems(CutFree(free, |d.pages|))
            && (forall p :: p in Elems(CutFree(free, |d.pages|)) <==> p in Elems(free) && p <= keep)
            && s.durable.Needs() <= Ids(keep)
  {
    var free := s.freeList[Taken(s)..];
    AscendingSplit(s.freeList, Taken(s));
    NewListIsUnneeded(s);
    CutSplits(free, s.live + Elems(s.pendingFree) + Elems(NewList(s)), |d.pages|);
    assert s.durable.Needs() <= s.live + Elems(s.pendingFree) by {
      NeedsExist(s.durable, s.disk.pages, s.words);
      assert s.durable.Needs() <= Ids(s.Total());
    }
  }

  lemma CommittedFile(s: Store, meta: Meta, tree: map<PageId, Page>, d: Disk)
    requires Base(s)
    requires |d.pages| == s.Total() + Needed(s) - Taken(s)
    ensures var t := Committed(s, meta, tree, d);
            && |t.disk.pages| == Keep(s.freeList[Taken(s)..], |d.pages|) <= |d.pages|
            && forall i | 0 <= i < |t.disk.pages| :: t.disk.pages[i] == d.pages[i]
  {
  }

  lemma CommittedPages(s: Store, meta: Meta, tree: map<PageId, Page>, d: Disk)
    requires Base(s)
    requires |d.pages| == s.Total() + Needed(s) - Taken(s)
    ensures var t := Committed(s, meta, tree, d);
            && PagesOk(t) && HeldOk(t)
            && Elems(t.freeList) == Elems(CutFree(s.freeList[Taken(s)..], |d.pages|))
                                    + Elems(s.pendingFree) + Elems(s.freeListPages)
  {
    var t := Committed(s, meta, tree, d);
    CutKeepsNeeded(s, d);
    NewListIsUnneeded(s);
    AscendingSplit(s.freeList, Taken(s));
    var rest := CutFree(s.freeList[Taken(s)..], |d.pages|);
    ElemsConcat(s.pendingFree, s.freeListPages);
    assert Elems(rest) <= Elems(s.freeList) by {
      assert forall p | p in Elems(rest) :: p in Elems(s.freeList[Taken(s)..]);
    }
    assert s.Held() !! Elems(s.freeListPages) by {
      assert Elems(s.freeListPages) <= s.durable.Needs();
    }
  }

  /** Nothing the new commit needs is free, and its list names every free page. */
  lemma CommittedList(s: Store, meta: Meta, tree: map<PageId, Page>, d: Disk)
    requires Ready(s, meta, tree)
    requires |d.pages| == s.Total() + Needed(s) - Taken(s)
    ensures var t := Committed(s, meta, tree, d);
            && Elems(t.freeList) !! t.durable.Needs()
            && t.Held() !! t.durable.Needs()
            && Elems(t.freeListPages) <= t.live
            && RecoveredFree(t.durable.meta, t.durable.entries, t.Total()) == Elems(t.freeList)
  {
    var t := Committed(s, meta, tree, d);
    CutKeepsNeeded(s, d);
    CommittedPages(s, meta, tree, d);
    NewListIsUnneeded(s);
    EntriesMembers(s);
    NextConsistent(s, meta, tree);
    AscendingSplit(s.freeList, Taken(s));
    var keep := Keep(s.freeList[Taken(s)..], |d.pages|);
    assert t.Total() == keep;
    assert forall p :: p in t.durable.entries <==> p in Elems(NewEntries(s));
    assert Elems(s.freeListPages) <= s.live;
  }

  lemma CommittedTree(s: Store, meta: Meta, tree: map<PageId, Page>, d: Disk)
    requires Ready(s, meta, tree)
    requires |d.pages| == s.Total() + Needed(s) - Taken(s)
    requires forall p | p in tree :: 1 <= p <= |d.pages| && d.pages[p - 1] == tree[p]
    ensures TreeOk(Committed(s, meta, tree, d), tree)
  {
    var t := Committed(s, meta, tree, d);
    CommittedFile(s, meta, tree, d);
    assert s.live <= Ids(t.Total()) by { CutKeepsNeeded(s, d); }
    assert tree.Keys !! Elems(NewList(s)) by { NewListIsUnneeded(s); }
    assert tree.Keys <= t.live;
    assert forall p | p in tree :: p in Ids(t.Total());
  }

  /** A durable meta brings the store back to its invariant. */
  lemma CommitKeeps(s: Store, meta: Meta, tree: map<PageId, Page>, d: Disk)
    requires Ready(s, meta, tree)
    requires |d.pages| == s.Total() + Needed(s) - Taken(s)
    requires Anchored(CrashPoint(d, Next(s, meta, tree), Next(s, meta, tree)), OtherSlot(s.lastSlot), s.words)
    requires d.dirty == {} && d.floor == |d.pages|
    ensures var t := Committed(s, meta, tree, d);
            Inv(t.(pendingMeta := None, commits := 0))
  {
    var t := Committed(s, meta, tree, d).(pendingMeta := None, commits := 0);
    CommittedPages(s, meta, tree, d);
    CommittedList(s, meta, tree, d);
    CommittedTree(s, meta, tree, d);
    CutKeepsNeeded(s, d);
    var n := Next(s, meta, tree);
    var keep := Keep(s.freeList[Taken(s)..], |d.pages|);
    forall p | p in n.Needs()
      ensures p <= keep
    {
      assert p in s.live + Elems(NewList(s));
      assert p in Ids(keep);
    }
    if keep != |d.pages| {
      CutKeeps(d, keep, n, t.lastSlot, s.words);
    }
    forall p | p in t.written
      ensures p <= t.disk.floor
    {
      assert p in s.Held() && p in s.live && p in Ids(keep);
    }
  }

  /** The two files agree on the pages of `ids`. */
  ghost predicate Agree(ids: set<PageId>, pages: seq<Page>, pages': seq<Page>) {
    forall p | p in ids :: 1 <= p <= |pages| && p <= |pages'| && pages'[p - 1] == pages[p - 1]
  }

  lemma TreeElsewhere(tree: map<PageId, Page>, pages: seq<Page>, pages': seq<Page>)
    requires Agree(tree.Keys, pages, pages')
    requires forall p | p in tree :: 1 <= p <= |pages| && pages[p - 1] == tree[p]
    ensures forall p | p in tree :: 1 <= p <= |pages'| && pages'[p - 1] == tree[p]
  {
  }

  lemma ChainElsewhere(list: seq<PageId>, entries: seq<PageId>, pages: seq<Page>, pages': seq<Page>, w: nat)
    requires w > 2 && Chain(pages, w, list, entries) && Agree(Elems(list), pages, pages')
    ensures Chain(pages', w, list, entries)
  {
    hide Chain;
    forall p | p in list ensures 1 <= p <= |pages| && p <= |pages'| && pages'[p - 1] == pages[p - 1] {
      assert p in Elems(list);
    }
    ChainFrame(pages, pages', w, list, entries);
  }

  /** A commit is whole in any file that holds its pages unchanged. */
  lemma HeldElsewhere(c: Snapshot, pages: seq<Page>, pages': seq<Page>, w: nat)
    requires w > 2 && c.HeldBy(pages, w) && Agree(c.Needs(), pages, pages')
    ensures c.HeldBy(pages', w)
  {
    hide Chain, Elems;
    assert Agree(c.tree.Keys, pages, pages') && Agree(Elems(c.list), pages, pages');
    hide Agree;
    TreeElsewhere(c.tree, pages, pages');
    ChainElsewhere(c.list, c.entries, pages, pages', w);
  }

  /** The commit that was superseded is still whole in the file: a slot damaged
      later falls back to it. */
  lemma SupersededSurvives(s: Store, meta: Meta, tree: map<PageId, Page>, d: Disk)
    requires Ready(s, meta, tree)
    requires |d.pages| == s.Total() + Needed(s) - Taken(s)
    requires Untouched(s, d.pages)
    ensures s.durable.HeldBy(Committed(s, meta, tree, d).disk.pages, s.words)
  {
    var t := Committed(s, meta, tree, d);
    CommittedFile(s, meta, tree, d);
    assert s.durable.Needs() <= Ids(|t.disk.pages|) by { CutKeepsNeeded(s, d); }
    assert Elems(NewList(s)) !! s.durable.Needs() by { NewListIsUnneeded(s); }
    NeedsExist(s.durable, s.disk.pages, s.words);
    forall p | p in s.durable.Needs()
      ensures t.disk.pages[p - 1] == s.disk.pages[p - 1]
    {
      assert p !in Elems(NewList(s));
    }
    HeldElsewhere(s.durable, s.disk.pages, t.disk.pages, s.words);
  }

  /** All that a finished commit leaves behind, for the state it ends in. */
  lemma CommitOutcome(s: Store, meta: Meta, tree: map<PageId, Page>, d: Disk, t: Store)
    requires Ready(s, meta, tree)
    requires |d.pages| == s.Total() + Needed(s) - Taken(s)
    requires Anchored(CrashPoint(d, Next(s, meta, tree), Next(s, meta, tree)), OtherSlot(s.lastSlot), s.words)
    requires d.dirty == {} && d.floor == |d.pages| && Untouched(s, d.pages)
    requires t == Committed(s, meta, tree, d)
    ensures Inv(t.(pendingMeta := None, commits := 0))
    ensures RecoveredFree(t.durable.meta, t.durable.entries, t.Total()) == Elems(t.freeList)
    ensures s.durable.HeldBy(t.disk.pages, s.words)
  {
    hide *;
    CommitKeeps(s, meta, tree, d);
    CommittedList(s, meta, tree, d);
    SupersededSurvives(s, meta, tree, d);
  }
}
