/** The simple page store the tree is written against: pages in memory, freed
    pages recycled last in, first out, two alternating meta slots. Its
    preconditions are the client discipline the file store's crash safety rests
    on: write only pages handed out and not yet committed, free no page of the
    latest commit, commit only pages of the previous commit or pages written. */
module PageStore {
  import opened Wrappers
  import opened TreeModel
  import opened StoreFile
  import opened StoreContract
  import F = FreeListPages

  const MIN_PAGE_SIZE := 512

  class PageStore {
    const pageSize: nat
    var pages: map<PageId, Node>
    var pageCount: nat
    var live: set<PageId>
    var freeList: seq<PageId>
    var metaA: Meta
    var metaB: Meta
    var lastSlot: MetaSlot

    ghost var committed: set<PageId>
    ghost var handed: set<PageId>
    ghost var written: set<PageId>

    ghost predicate Valid()
      reads this
    {
      && pageSize >= MIN_PAGE_SIZE
      && live + F.Elems(freeList) == F.Ids(pageCount) && live !! F.Elems(freeList)
      && F.Distinct(freeList)
      && pages.Keys <= live
      && committed <= pages.Keys && written <= pages.Keys
      && handed <= live && handed !! written
      && committed !! handed + written
    }

    /** The store as its client knows it. */
    ghost function AsClient(): Client
      reads this
    {
      Client(pages, live, committed, handed, written)
    }

    function LastMeta(): Meta
      reads this
    {
      if lastSlot.A? then metaA else metaB
    }

    constructor (pageSize: nat)
      requires pageSize >= MIN_PAGE_SIZE
      ensures Valid() && this.pageSize == pageSize && pages == map[] && live == {} && pageCount == 0
      ensures committed == {} && handed == {} && written == {}
      ensures LastMeta() == Meta(0, 0, 0, 0, 0, 0, None)
    {
      this.pageSize := pageSize;
      pages, pageCount, live, freeList := map[], 0, {}, [];
      metaA, metaB, lastSlot := Meta(0, 0, 0, 0, 0, 0, None), Meta(0, 0, 0, 0, 0, 0, None), A;
      committed, handed, written := {}, {}, {};
    }

    /** A page that is refused when not live, and unreadable until written. */
    function Read(id: PageId): (r: Result<Node>)
      reads this
    {
      if id !in live then Err(OutOfRange) else if id !in pages then Err(Corrupt) else Ok(pages[id])
    }

    method Allocate() returns (id: PageId)
      requires Valid()
      modifies `pageCount, `live, `freeList, `handed
      ensures Valid() && Allocates(old(AsClient()), AsClient(), id)
      ensures id != 0 && id !in old(live) && live == old(live) + {id} && handed == old(handed) + {id}
      ensures old(freeList) != [] ==> id == old(freeList)[|old(freeList)| - 1] && pageCount == old(pageCount)
      ensures old(freeList) == [] ==> id == old(pageCount) + 1 == pageCount
    {
      if freeList != [] {
        id := freeList[|freeList| - 1];
        assert id in F.Elems(freeList);
        assert freeList == freeList[..|freeList| - 1] + [id];
        F.ElemsConcat(freeList[..|freeList| - 1], [id]);
        assert F.Elems([id]) == {id};
        freeList := freeList[..|freeList| - 1];
        assert id !in freeList;
        assert F.Elems(freeList) == F.Elems(old(freeList)) - {id};
      } else {
        pageCount := pageCount + 1;
        id := pageCount;
        assert id !in F.Ids(pageCount - 1);
      }
      live := live + {id};
      handed := handed + {id};
    }

    method Write(id: PageId, node: Node)
      requires Valid() && id in handed + written
      modifies `pages, `handed, `written
      ensures Valid() && Writes(old(AsClient()), AsClient(), id, node)
      ensures pages == old(pages)[id := node]
      ensures handed == old(handed) - {id} && written == old(written) + {id}
    {
      pages := pages[id := node];
      handed, written := handed - {id}, written + {id};
    }

    method Free(id: PageId)
      requires Valid() && id !in committed
      modifies `pages, `live, `freeList, `handed, `written
      ensures Valid() && (id in old(live) ==> Frees(old(AsClient()), AsClient(), id))
      ensures live == old(live) - {id}
      ensures id in old(live) ==> pages == old(pages) - {id}
      ensures id !in old(live) ==> pages == old(pages)
      ensures handed == old(handed) - {id} && written == old(written) - {id}
    {
      if id in live {
        live := live - {id};
        F.ElemsConcat(freeList, [id]);
        assert F.Elems([id]) == {id};
        assert id !in F.Elems(freeList);
        freeList := freeList + [id];
        pages := pages - {id};
        handed, written := handed - {id}, written - {id};
      }
    }

    /** Write the meta to the slot the last one did not take. */
    method WriteMeta(meta: Meta, ghost tree: set<PageId>)
      requires Valid() && tree <= committed + written && meta.txnId > LastMeta().txnId
      modifies `metaA, `metaB, `lastSlot, `committed, `written
      ensures Valid() && Commits(old(AsClient()), AsClient(), tree)
      ensures LastMeta() == meta && lastSlot == OtherSlot(old(lastSlot))
      ensures (if lastSlot.A? then metaB else metaA) == old(LastMeta())
      ensures committed == tree && written == old(written) - tree
    {
      lastSlot := OtherSlot(lastSlot);
      if lastSlot.A? {
        metaA := meta;
      } else {
        metaB := meta;
      }
      committed, written := tree, written - tree;
    }
  }
}
