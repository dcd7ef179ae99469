/** The file store meets the client's contract: list pages, deferred reuse, group
    commit and truncation never show in the pages a client owns. */
module FileContract {
  import opened Wrappers
  import opened FreeListPages
  import opened StoreFile
  import opened StoreState
  import opened StoreCommit
  import opened StoreContract
  import TreeModel

  type Decoder = Page -> TreeModel.Node

  /** The pages in the client's hands: live, and not the store's own list. */
  ghost function Owned(s: Store): set<PageId> {
    s.live - Elems(s.freeListPages)
  }

  ghost function ClientOf(s: Store, decode: Decoder): Client {
    Client(map p | p in Owned(s) - s.handed && p in Ids(s.Total()) :: decode(s.disk.pages[p - 1]),
           Owned(s), s.LatestTree().Keys, s.handed, s.written)
  }

  lemma ListIsApart(s: Store)
    requires Base(s)
    ensures Elems(s.freeListPages) <= s.durable.Needs() && s.Held() !! Elems(s.freeListPages)
    ensures s.live <= Ids(s.Total())
  {
  }

  lemma FileAllocates(s: Store, decode: Decoder)
    requires Inv(s)
    ensures Allocates(ClientOf(s, decode), ClientOf(Allocated(s), decode), NextPage(s))
  {
    var t, id := Allocated(s), NextPage(s);
    AllocatesUnneeded(s);
    ListIsApart(s);
    assert Owned(t) == Owned(s) + {id};
    assert ClientOf(t, decode).pages == ClientOf(s, decode).pages;
  }

  lemma FileWrites(s: Store, id: PageId, data: Page, decode: Decoder)
    requires Inv(s) && id in s.Held() && id <= s.Total()
    ensures 1 <= id && Writes(ClientOf(s, decode), ClientOf(Wrote(s, id, data), decode), id, decode(data))
  {
    ListIsApart(s);
    assert id in Ids(s.Total());
    var t := Wrote(s, id, data);
    assert ClientOf(t, decode).pages == ClientOf(s, decode).pages[id := decode(data)];
  }

  lemma FileFrees(s: Store, id: PageId, decode: Decoder)
    requires Inv(s) && id in Owned(s) && id !in s.LatestTree()
    ensures id in s.live && id !in s.freeListPages
    ensures Frees(ClientOf(s, decode), ClientOf(Freed(s, id), decode), id)
  {
    var t := Freed(s, id);
    assert id !in Elems(s.freeListPages);
    assert ClientOf(t, decode).pages == ClientOf(s, decode).pages - {id};
  }

  lemma FileBuffers(s: Store, meta: Meta, tree: set<PageId>, decode: Decoder)
    requires Inv(s) && tree <= ClientOf(s, decode).committed + s.written && meta.txnId > s.LatestTxn()
    ensures MayCommit(s, meta, tree) && tree <= Ids(|s.disk.pages|)
    ensures Commits(ClientOf(s, decode), ClientOf(Buffered(s, meta, tree), decode), tree)
  {
    CommitPagesExist(s, tree);
  }

  /** Making a commit durable -- new list pages, a cut tail, reuse of the pending
      frees -- leaves the client's pages as they were. */
  lemma DurableCommitIsInvisible(s: Store, meta: Meta, tree: map<PageId, Page>, d: Disk, decode: Decoder)
    requires Ready(s, meta, tree)
    requires |d.pages| == s.Total() + Needed(s) - Taken(s) && Untouched(s, d.pages)
    ensures var t := Committed(s, meta, tree, d).(pendingMeta := None, commits := 0);
            ClientOf(t, decode) == ClientOf(s, decode).(committed := tree.Keys)
  {
    hide Base, TreeOk, NewList, NewEntries, Keep, CutFree, InsertAll, Needed, Taken, Ids;
    var t := Committed(s, meta, tree, d).(pendingMeta := None, commits := 0);
    OwnedStays(s, meta, tree, d);
    SamePages(s, t, decode);
  }

  /** A commit changes neither which pages the client owns nor what they hold. */
  lemma OwnedStays(s: Store, meta: Meta, tree: map<PageId, Page>, d: Disk)
    requires Base(s)
    requires |d.pages| == s.Total() + Needed(s) - Taken(s) && Untouched(s, d.pages)
    ensures var t := Committed(s, meta, tree, d);
            && Owned(t) == Owned(s) && Owned(s) <= Ids(s.Total()) && Owned(s) <= Ids(t.Total())
            && forall p | p in Owned(s) && p in Ids(s.Total()) && p in Ids(t.Total()) ::
                 t.disk.pages[p - 1] == s.disk.pages[p - 1]
  {
    hide PagesOk, DurableOk, HeldOk, NewEntries, Keep, CutFree, InsertAll;
    var t := Committed(s, meta, tree, d);
    CommittedFile(s, meta, tree, d);
    assert s.live <= Ids(s.Total()) by { ListIsApart(s); }
    assert Elems(NewList(s)) !! s.live by { NewListIsUnneeded(s); }
    assert s.live <= Ids(t.Total()) by { CutKeepsNeeded(s, d); }
    forall p | p in Owned(s) && p in Ids(s.Total()) && p in Ids(t.Total())
      ensures t.disk.pages[p - 1] == s.disk.pages[p - 1]
    {
      assert p !in Elems(NewList(s));
    }
  }

  lemma SamePages(s: Store, t: Store, decode: Decoder)
    requires Owned(t) == Owned(s) && Owned(s) <= Ids(s.Total()) && Owned(s) <= Ids(t.Total()) && t.handed == s.handed
    requires forall p | p in Owned(s) && p in Ids(s.Total()) && p in Ids(t.Total()) ::
               t.disk.pages[p - 1] == s.disk.pages[p - 1]
    ensures ClientOf(t, decode).pages == ClientOf(s, decode).pages
  {
    hide Owned;
  }

  /** A commit that is durable at once. */
  lemma FileCommits(s: Store, meta: Meta, tree: set<PageId>, d: Disk, decode: Decoder)
    requires Inv(s) && tree <= ClientOf(s, decode).committed + s.written && meta.txnId > s.LatestTxn()
    requires |d.pages| == s.Total() + Needed(Committing(s, tree)) - Taken(Committing(s, tree))
    requires s.words > 2 && Untouched(Committing(s, tree), d.pages)
    ensures tree <= Ids(|s.disk.pages|) && Ready(Committing(s, tree), meta, Contents(s, tree))
    ensures var t := Committed(Committing(s, tree), meta, Contents(s, tree), d).(pendingMeta := None, commits := 0);
            Commits(ClientOf(s, decode), ClientOf(t, decode), tree)
  {
    MayCommitIsReady(s, meta, tree);
    DurableCommitIsInvisible(Committing(s, tree), meta, Contents(s, tree), d, decode);
    assert Contents(s, tree).Keys == tree;
  }
}
