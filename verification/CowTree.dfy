/** The copy-on-write B+tree: a put or erase rewrites the path it touches into
    fresh pages, and the pages it replaces are freed when the transaction
    commits. */
module CowTree {
  import opened Wrappers
  import opened Keys
  import opened TreeModel
  import opened PageSizes
  import opened TreeOps
  import opened TreeTxn
  import opened PageStore
  import opened StoreFile
  import F = FreeListPages

  class WriteTxn {
    var root: PageId
    var newPages: seq<PageId>
    var freedPages: seq<PageId>
    var itemDelta: int
    const newTxnId: nat

    // The tree at `root`, whether every operation so far succeeded, and the
    // store as the transaction found it.
    ghost var shape: Tree
    ghost var intact: bool
    ghost const base: View

    constructor (root: PageId, newTxnId: nat, ghost shape: Tree, ghost base: View)
      ensures this.root == root && this.newTxnId == newTxnId && this.shape == shape && intact
      ensures newPages == [] && freedPages == [] && itemDelta == 0 && this.base == base
    {
      this.root, this.newTxnId := root, newTxnId;
      newPages, freedPages, itemDelta := [], [], 0;
      this.shape, intact, this.base := shape, true, base;
    }
  }

  class CowTree {
    const store: PageStore
    var liveRoot: PageId
    var liveTxn: nat
    var liveItemCount: nat
    var liveValueBytes: nat
    var liveKeyBytes: nat

    ghost var liveShape: Tree
    // Pages outside the tree that committed records refer to.
    ghost var values: set<PageId>

    ghost function Seen(txn: WriteTxn): View
      reads store, txn
    {
      View(store.pages, store.live, store.handed, store.written, txn.newPages)
    }

    ghost function Cap(): nat
      requires store.pageSize >= PAGE_HEADER_SIZE
    {
      PagePayloadCapacity(store.pageSize)
    }

    /** The live tree is whole, owns each of its pages once, and is what the last
        meta committed together with the pages its records refer to. */
    ghost predicate Valid()
      reads this, store
    {
      && store.Valid()
      && RootOk(store.pages, Cap(), liveRoot, liveShape, None, None)
      && Once(RootBag(liveRoot, liveShape))
      && store.committed == PagesOf(RootBag(liveRoot, liveShape)) + values
      && PagesOf(RootBag(liveRoot, liveShape)) !! values
      && liveItemCount == |RootFlat(liveRoot, liveShape)|
      && liveTxn == store.LastMeta().txnId && liveRoot == store.LastMeta().root
      && liveItemCount == store.LastMeta().itemCount
    }

    /** A transaction in progress: nothing committed has been touched, and while
        every operation succeeded its tree is whole and its pages accounted for. */
    ghost predicate TxnOpen(txn: WriteTxn)
      reads this, store, txn
    {
      && Valid() && txn.newTxnId == liveTxn + 1
      && txn.base.newPages == [] && store.committed <= txn.base.pages.Keys <= txn.base.live
      && txn.base.handed <= txn.base.live && txn.base.written <= txn.base.live
      && Grew(txn.base, Seen(txn))
      && (txn.intact ==> TxnGood(txn.base, Seen(txn), Cap(), txn.root, txn.shape, txn.freedPages, txn.itemDelta,
                                 liveRoot, liveShape))
    }

    /** An empty tree over an empty store. */
    constructor (store: PageStore)
      requires store.Valid() && store.committed == {} && store.LastMeta().root == 0 && store.LastMeta().itemCount == 0
      ensures Valid() && this.store == store && liveRoot == 0 && values == {}
    {
      this.store := store;
      liveRoot, liveTxn, liveItemCount := 0, store.LastMeta().txnId, 0;
      liveValueBytes, liveKeyBytes := 0, 0;
      values := {};
    }

    method BeginWrite() returns (txn: WriteTxn)
      requires Valid()
      ensures fresh(txn) && TxnOpen(txn) && txn.intact
      ensures txn.root == liveRoot && txn.shape == liveShape && txn.newPages == [] && txn.freedPages == []
      ensures txn.base == View(store.pages, store.live, store.handed, store.written, [])
    {
      ghost var base := View(store.pages, store.live, store.handed, store.written, []);
      txn := new WriteTxn(liveRoot, liveTxn + 1, liveShape, base);
      GrewNothing(base);
      assert Seen(txn) == base;
    }

    // ---- Writing pages ----

    method AllocateForTxn(txn: WriteTxn) returns (id: PageId)
      requires store.Valid()
      modifies txn`newPages, store`pageCount, store`live, store`freeList, store`handed
      ensures store.Valid() && Grew(old(Seen(txn)), Seen(txn)) && txn.newPages == old(txn.newPages) + [id]
      ensures id != 0 && id !in old(store.live) && store.live == old(store.live) + {id}
      ensures store.handed == old(store.handed) + {id}
    {
      id := store.Allocate();
      txn.newPages := txn.newPages + [id];
      GrewOne(old(Seen(txn)), Seen(txn), id);
    }

    /** Allocate a page and write `node` to it, when the page can encode it. */
    method BuildPage(txn: WriteTxn, node: Node, encodes: bool) returns (r: Result<PageId>)
      requires store.Valid()
      modifies txn`newPages, store`pages, store`pageCount, store`live, store`freeList, store`handed, store`written
      ensures store.Valid() && Grew(old(Seen(txn)), Seen(txn))
      ensures r.Ok? == encodes && (r.Err? ==> r.error == ValueTooLarge)
      ensures r.Ok? ==> && GrewClean(old(Seen(txn)), Seen(txn)) && Created(old(Seen(txn)), Seen(txn)) == [r.value]
                        && r.value != 0 && r.value in store.pages && store.pages[r.value] == node
    {
      ghost var v := Seen(txn);
      var id := AllocateForTxn(txn);
      if !encodes {
        return Err(ValueTooLarge);
      }
      store.Write(id, node);
      GrewOne(v, Seen(txn), id);
      return Ok(id);
    }

    /** Write entries to one leaf, or to two when they overflow it. */
    method WriteLeaf(txn: WriteTxn, items: seq<Entry>, ghost lo: Option<Key>, ghost hi: Option<Key>)
      returns (r: Result<PutResult>, ghost g: Grown)
      requires store.Valid() && |items| > 0 && Sorted(items) && InRange(items, lo, hi)
      modifies txn`newPages, store`pages, store`pageCount, store`live, store`freeList, store`handed, store`written
      ensures store.Valid() && Grew(old(Seen(txn)), Seen(txn))
      ensures r.Err? ==> r.error == ValueTooLarge
      ensures r.Ok? ==>
                && GrewClean(old(Seen(txn)), Seen(txn))
                && Named(g, r.value.left, r.value.split)
                && Holds(store.pages, Cap(), g, items, lo, hi)
                && BagAll(g.Trees()) == multiset(Created(old(Seen(txn)), Seen(txn)))
      ensures LeafEncodes(items, Cap()) ==> r.Ok? && g.One?
      ensures r.Ok? <==> LeafWrites(items, Cap())
      ensures Answers(r, g, LeafShape(items, Cap()))
      ensures r.Ok? && SmallItems(items, Cap()) ==> SmallGrown(g, Cap())
    {
      hide Lt, Sum, LeafWrites, LeafShape, LeafEncodes, IsSplitIndex, Sorted, InRange, Grew, Rep, SmallItems;
      var cap := PagePayloadCapacity(store.pageSize);
      ghost var v := Seen(txn);
      g := One(LeafT(0, items));
      var total := Sum(ItemSizes(items));
      if LeafEncodes(items, cap) {
        EncodedFits(items, cap);
      }
      if total <= cap {
        OnePageWrites(items, cap);
        OneLeafShape(items, cap);
        var id := BuildPage(txn, Leaf(items), LeafEncodes(items, cap));
        if id.Err? {
          return Err(id.error), g;
        }
        g := One(LeafT(id.value, items));
        OneLeaf(store.pages, cap, id.value, items, lo, hi);
        return Ok(PutResult(id.value, None, false, None)), g;
      }
      var i := FindSplit(ItemSizes(items), cap);
      TwoPagesWrite(items, cap, i);
      TwoLeafShape(items, cap, i);
      if i == 0 || i >= |items| {
        GrewNothing(v);
        return Err(ValueTooLarge), g;
      }
      r, g := WriteTwoLeaves(txn, items, i, lo, hi);
    }

    method WriteTwoLeaves(txn: WriteTxn, items: seq<Entry>, i: nat, ghost lo: Option<Key>, ghost hi: Option<Key>)
      returns (r: Result<PutResult>, ghost g: Grown)
      requires store.Valid() && 1 <= i < |items| && Sorted(items) && InRange(items, lo, hi)
      modifies txn`newPages, store`pages, store`pageCount, store`live, store`freeList, store`handed, store`written
      ensures store.Valid() && Grew(old(Seen(txn)), Seen(txn))
      ensures r.Err? ==> r.error == ValueTooLarge
      ensures r.Ok? == (LeafEncodes(items[..i], Cap()) && LeafEncodes(items[i..], Cap()))
      ensures r.Ok? ==> GrownShape(g) == SplitsOff(items[i].key)
      ensures r.Ok? ==>
                && GrewClean(old(Seen(txn)), Seen(txn))
                && Named(g, r.value.left, r.value.split)
                && Holds(store.pages, Cap(), g, items, lo, hi)
                && BagAll(g.Trees()) == multiset(Created(old(Seen(txn)), Seen(txn)))
      ensures r.Ok? && SmallItems(items, Cap()) ==> SmallGrown(g, Cap())
    {
      hide Lt, Sum, SmallItems, LeafEncodes, Sorted, InRange, Grew, Rep;
      var cap := PagePayloadCapacity(store.pageSize);
      ghost var v := Seen(txn);
      g := One(LeafT(0, items));
      var leftId := BuildPage(txn, Leaf(items[..i]), LeafEncodes(items[..i], cap));
      if leftId.Err? {
        return Err(leftId.error), g;
      }
      ghost var v1 := Seen(txn);
      var rightId := BuildPage(txn, Leaf(items[i..]), LeafEncodes(items[i..], cap));
      GrewTransitive(v, v1, Seen(txn));
      if rightId.Err? {
        return Err(rightId.error), g;
      }
      g := Two(LeafT(leftId.value, items[..i]), items[i].key, LeafT(rightId.value, items[i..]));
      assert Rep(store.pages, g.left) by {
        LeafRep(v1.pages, leftId.value, items[..i]);
        RepGrows(v1, Seen(txn), g.left);
      }
      LeafRep(store.pages, rightId.value, items[i..]);
      TwoLeaves(store.pages, cap, items, i, leftId.value, rightId.value, lo, hi);
      if SmallItems(items, cap) {
        SmallHalves(items, cap, i, leftId.value, rightId.value);
      }
      return Ok(PutResult(leftId.value, Some(ChildEntry(items[i].key, rightId.value)), false, None)), g;
    }

    /** Write children and separators to one internal page, or to two with one
        separator moved up. */
    method WriteInternal(txn: WriteTxn, first: PageId, entries: seq<ChildEntry>,
                         ghost kids: seq<Tree>, ghost seps: seq<Key>, ghost lo: Option<Key>, ghost hi: Option<Key>)
      returns (r: Result<PutResult>, ghost g: Grown)
      requires store.Valid() && Points(first, entries, kids, seps) && KidsOrdered(kids, seps, lo, hi)
      requires RepAll(store.pages, kids) && FitsAll(kids, Cap())
      modifies txn`newPages, store`pages, store`pageCount, store`live, store`freeList, store`handed, store`written
      ensures store.Valid() && Grew(old(Seen(txn)), Seen(txn))
      ensures r.Err? ==> r.error == ValueTooLarge
      ensures r.Ok? ==>
                && GrewClean(old(Seen(txn)), Seen(txn))
                && Named(g, r.value.left, r.value.split)
                && Holds(store.pages, Cap(), g, FlatAll(kids), lo, hi)
                && BagAll(g.Trees()) == multiset(Created(old(Seen(txn)), Seen(txn))) + BagAll(kids)
      ensures InternalEncodes(seps, Cap()) ==> r.Ok? && g.One?
      ensures r.Ok? && |entries| <= 1 ==> g.One?
      ensures Answers(r, g, InternalShape(seps, Cap()))
      ensures SmallSeps(seps, Cap()) ==> r.Ok?
      ensures r.Ok? && SmallKeys(seps, Cap()) && SmallAll(kids, Cap()) ==> SmallGrown(g, Cap())
    {
      hide Lt, Sum, SmallSeps, SmallKeys, SmallAll, InternalEncodes, InternalShape, IsSplitIndex, KidsOrdered, Grew, RepAll, FitsAll, Rep, Fits, Small;
      var cap := PagePayloadCapacity(store.pageSize);
      ghost var v := Seen(txn);
      var keys := KeysOf(entries);
      assert keys == seps;
      g := One(NodeT(0, kids, seps));
      if InternalEncodes(seps, cap) {
        InternalEncodedFits(seps, cap);
      }
      if Sum(SepSizes(keys)) <= cap {
        OneInternalShape(seps, cap);
        if SmallSeps(seps, cap) {
          SmallInternalEncodes(seps, cap);
        }
        var id := BuildPage(txn, Internal(first, entries), InternalEncodes(keys, cap));
        if id.Err? {
          return Err(id.error), g;
        }
        g := One(NodeT(id.value, kids, seps));
        RepAllGrows(v, Seen(txn), kids);
        OneInternal(store.pages, cap, id.value, first, entries, kids, seps, lo, hi);
        return Ok(PutResult(id.value, None, false, None)), g;
      }
      var i := FindSplit(SepSizes(keys), cap);
      TwoInternalShape(seps, cap, i);
      if SmallSeps(seps, cap) {
        SmallSepsSplit(seps, cap, i);
      }
      if i == 0 || i >= |entries| {
        GrewNothing(v);
        return Err(ValueTooLarge), g;
      }
      r, g := WriteTwoInternals(txn, first, entries, i, kids, seps, lo, hi);
    }

    method WriteTwoInternals(txn: WriteTxn, first: PageId, entries: seq<ChildEntry>, i: nat,
                             ghost kids: seq<Tree>, ghost seps: seq<Key>, ghost lo: Option<Key>, ghost hi: Option<Key>)
      returns (r: Result<PutResult>, ghost g: Grown)
      requires store.Valid() && Points(first, entries, kids, seps) && KidsOrdered(kids, seps, lo, hi)
      requires 1 <= i < |entries| && RepAll(store.pages, kids) && FitsAll(kids, Cap())
      modifies txn`newPages, store`pages, store`pageCount, store`live, store`freeList, store`handed, store`written
      ensures store.Valid() && Grew(old(Seen(txn)), Seen(txn))
      ensures r.Err? ==> r.error == ValueTooLarge
      ensures r.Ok? == (InternalEncodes(seps[..i], Cap()) && InternalEncodes(seps[i + 1..], Cap()))
      ensures r.Ok? ==> GrownShape(g) == SplitsOff(seps[i])
      ensures r.Ok? ==>
                && GrewClean(old(Seen(txn)), Seen(txn))
                && Named(g, r.value.left, r.value.split)
                && Holds(store.pages, Cap(), g, FlatAll(kids), lo, hi)
                && BagAll(g.Trees()) == multiset(Created(old(Seen(txn)), Seen(txn))) + BagAll(kids)
      ensures r.Ok? && SmallKeys(seps, Cap()) && SmallAll(kids, Cap()) ==> SmallGrown(g, Cap())
    {
      hide Lt, Sum, SmallKeys, SmallAll, SmallGrown, InternalEncodes, KidsOrdered, Grew, RepAll, FitsAll, Rep, Fits, Small,
           Holds;
      var cap := PagePayloadCapacity(store.pageSize);
      ghost var v := Seen(txn);
      g := One(NodeT(0, kids, seps));
      var le, re := entries[..i], entries[i + 1..];
      assert KeysOf(le) == seps[..i] && KeysOf(re) == seps[i + 1..];
      var leftId := BuildPage(txn, Internal(first, le), InternalEncodes(KeysOf(le), cap));
      if leftId.Err? {
        return Err(leftId.error), g;
      }
      ghost var v1 := Seen(txn);
      var rightId := BuildPage(txn, Internal(entries[i].child, re), InternalEncodes(KeysOf(re), cap));
      GrewTransitive(v, v1, Seen(txn));
      if rightId.Err? {
        return Err(rightId.error), g;
      }
      g := Two(NodeT(leftId.value, kids[..i + 1], seps[..i]), seps[i], NodeT(rightId.value, kids[i + 1..], seps[i + 1..]));
      TwoInternalReps(v, v1, Seen(txn), first, entries, kids, seps, i, leftId.value, rightId.value);
      TwoInternals(store.pages, cap, kids, seps, i, leftId.value, rightId.value, lo, hi);
      return Ok(PutResult(leftId.value, Some(ChildEntry(entries[i].key, rightId.value)), false, None)), g;
    }

    // ---- Put ----

    /** Set `key` in the subtree at `node`, writing its path afresh. */
    method PutRec(txn: WriteTxn, node: PageId, key: Key, value: Value,
                  ghost t: Tree, ghost lo: Option<Key>, ghost hi: Option<Key>)
      returns (r: Result<PutResult>, ghost g: Grown)
      requires store.Valid() && RootOk(store.pages, Cap(), node, t, lo, hi)
      requires AtOrAbove(lo, key) && Below(hi, key)
      modifies txn`newPages, txn`freedPages,
               store`pages, store`pageCount, store`live, store`freeList, store`handed, store`written
      ensures store.Valid() && Grew(old(Seen(txn)), Seen(txn)) && old(txn.freedPages) <= txn.freedPages
      ensures r.Err? ==> r.error == ValueTooLarge
      ensures r.Ok? ==> PutOutcome(old(Seen(txn)), Seen(txn), txn.freedPages[|old(txn.freedPages)|..], Cap(),
                                   node, t, key, value, lo, hi, r.value, g)
      ensures Answers(r, g, PutShape(node, t, key, value, Cap()))
      ensures r.Ok? ==> Accepts(node, t, key, value, Cap())
      ensures (node != 0 ==> Small(t, Cap())) && SmallKey(key, Cap()) && CountsFit(Cap()) && Accepts(node, t, key, value, Cap())
              ==> r.Ok? && SmallGrown(g, Cap())
      decreases t
    {
      hide Lt, Sum, Upsert, Find, Small, SmallKey, CountsFit, Grew, GrewClean, Ordered, Fits, Flat, Bag, SmallGrown,
           PutOutcome, Accepts, Covering, Holds, PutShape, RebuiltShape;
      var cap := PagePayloadCapacity(store.pageSize);
      ghost var v := Seen(txn);
      g := One(LeafT(0, []));
      if LeafEntryBytes(|key|, |value|) > cap {
        GrewNothing(v);
        assert !Accepts(node, t, key, value, cap) by { LargeIsNotAccepted(node, t, key, value, cap); }
        LargeIsNotWritten(node, t, key, value, cap);
        return Err(ValueTooLarge), g;
      }
      if node == 0 {
        r, g := PutFirst(txn, key, value, t, lo, hi);
        assert txn.freedPages[|old(txn.freedPages)|..] == [];
        return;
      }
      RootPage(store.pages, node, t);
      var page := store.pages[node];
      match page
      case Leaf(existing) =>
        r, g := PutLeaf(txn, node, existing, key, value, t, lo, hi);
      case Internal(first, entries) =>
        var c := ChooseChild(entries, key);
        var child := if c == 0 then first else entries[c - 1].child;
        ghost var kids, seps := t.kids, t.seps;
        ghost var klo, khi := LoOf(seps, lo, c), HiOf(seps, hi, c);
        ChildIsOk(store.pages, cap, t, lo, hi, c, key);
        ChildAccepts(t, c, key, value, cap);
        NodePutShape(t, c, key, value, cap);
        var sub: Result<PutResult>;
        ghost var sg: Grown;
        sub, sg := PutRec(txn, child, key, value, kids[c], klo, khi);
        if sub.Err? {
          NothingRebuilt(seps, c, cap);
          return Err(sub.error), g;
        }
        r, g := RebuildAfterPut(txn, node, first, entries, c, key, value, t, lo, hi, v, old(txn.freedPages), sub.value, sg);
    }

    /** An empty tree becomes a single-entry leaf. */
    method PutFirst(txn: WriteTxn, key: Key, value: Value, ghost t: Tree, ghost lo: Option<Key>, ghost hi: Option<Key>)
      returns (r: Result<PutResult>, ghost g: Grown)
      requires store.Valid() && AtOrAbove(lo, key) && Below(hi, key)
      modifies txn`newPages, store`pages, store`pageCount, store`live, store`freeList, store`handed, store`written
      ensures store.Valid() && Grew(old(Seen(txn)), Seen(txn))
      ensures r.Err? ==> r.error == ValueTooLarge
      ensures r.Ok? ==> PutOutcome(old(Seen(txn)), Seen(txn), [], Cap(), 0, t, key, value, lo, hi, r.value, g)
      ensures Answers(r, g, PutShape(0, t, key, value, Cap()))
      ensures r.Ok? <==> Accepts(0, t, key, value, Cap())
      ensures r.Ok? && SmallKey(key, Cap()) ==> SmallGrown(g, Cap())
    {
      hide Lt, Grew, GrewClean, SmallGrown, SmallKey, LeafWrites, LeafShape, Holds, PutOutcome, BagAll;
      var items := [Entry(key, value)];
      assert items == Upsert([], key, value);
      r, g := WriteLeaf(txn, items, lo, hi);
      if r.Ok? {
        r := Ok(r.value.(inserted := true, replaced := None));
        FirstOutcome(old(Seen(txn)), Seen(txn), Cap(), t, key, value, lo, hi, r.value, g);
      }
    }

    method PutLeaf(txn: WriteTxn, node: PageId, existing: seq<Entry>, key: Key, value: Value,
                   ghost t: Tree, ghost lo: Option<Key>, ghost hi: Option<Key>)
      returns (r: Result<PutResult>, ghost g: Grown)
      requires store.Valid() && RootOk(store.pages, Cap(), node, t, lo, hi) && t == LeafT(node, existing)
      requires node != 0 && AtOrAbove(lo, key) && Below(hi, key)
      modifies txn`newPages, txn`freedPages,
               store`pages, store`pageCount, store`live, store`freeList, store`handed, store`written
      ensures store.Valid() && Grew(old(Seen(txn)), Seen(txn)) && txn.freedPages == old(txn.freedPages) + [node]
      ensures r.Err? ==> r.error == ValueTooLarge
      ensures r.Ok? ==> PutOutcome(old(Seen(txn)), Seen(txn), [node], Cap(), node, t, key, value, lo, hi, r.value, g)
      ensures Answers(r, g, PutShape(node, t, key, value, Cap()))
      ensures r.Ok? <==> Accepts(node, t, key, value, Cap())
      ensures r.Ok? && Small(t, Cap()) && SmallKey(key, Cap()) ==> SmallGrown(g, Cap())
    {
      hide Lt, Sum, Grew, SmallGrown, SmallKey, LeafWrites, LeafShape, Holds, Upsert, Find, SmallItems;
      var items, inserted, replaced := InsertIntoLeaf(existing, key, value);
      assert |items| > 0 && Sorted(items) && InRange(items, lo, hi) by {
        UpsertInRange(existing, key, value, lo, hi);
      }
      if Small(t, Cap()) && SmallKey(key, Cap()) {
        SmallItemsAfterPut(existing, key, value, Cap());
      }
      txn.freedPages := txn.freedPages + [node];
      r, g := WriteLeaf(txn, items, lo, hi);
      if r.Ok? {
        r := Ok(r.value.(inserted := inserted, replaced := replaced));
      }
    }

    /** Retire the old internal page and write the new one. */
    method RebuildAfterPut(txn: WriteTxn, node: PageId, first: PageId, entries: seq<ChildEntry>, c: nat,
                           key: Key, value: Value, ghost t: Tree, ghost lo: Option<Key>, ghost hi: Option<Key>,
                           ghost v: View, ghost freed: seq<PageId>, sub: PutResult, ghost sg: Grown)
      returns (r: Result<PutResult>, ghost g: Grown)
      requires store.Valid() && node != 0 && RootOk(v.pages, Cap(), node, t, lo, hi)
      requires t.NodeT? && Points(first, entries, t.kids, t.seps) && c <= |entries|
      requires AtOrAbove(LoOf(t.seps, lo, c), key) && Below(HiOf(t.seps, hi, c), key)
      requires Grew(v, Seen(txn)) && freed <= txn.freedPages
      requires PutOutcome(v, Seen(txn), txn.freedPages[|freed|..], Cap(), t.kids[c].id, t.kids[c], key, value,
                          LoOf(t.seps, lo, c), HiOf(t.seps, hi, c), sub, sg)
      modifies txn`newPages, txn`freedPages,
               store`pages, store`pageCount, store`live, store`freeList, store`handed, store`written
      ensures store.Valid() && Grew(v, Seen(txn)) && freed <= txn.freedPages
      ensures r.Err? ==> r.error == ValueTooLarge
      ensures r.Ok? ==> PutOutcome(v, Seen(txn), txn.freedPages[|freed|..], Cap(), node, t, key, value, lo, hi, r.value, g)
      ensures Answers(r, g, RebuiltShape(t.seps, c, GrownShape(sg), Cap()))
      ensures Small(t, Cap()) && SmallGrown(sg, Cap()) && CountsFit(Cap()) ==> r.Ok? && SmallGrown(g, Cap())
    {
      hide Lt, Sum, Upsert, Find, Small, SmallAll, CountsFit, Grew, GrewClean, Ordered, KidsOrdered, Fits, Flat, Bag, SmallGrown,
           PutOutcome, SmallSeps, Holds, RepAll, FitsAll, Rep, BagAll, FlatAll, InternalShape;
      ghost var cap := Cap();
      ghost var v1 := Seen(txn);
      ghost var retired := txn.freedPages[|freed|..];
      txn.freedPages := txn.freedPages + [node];
      assert txn.freedPages[|freed|..] == retired + [node];
      var newFirst := if c == 0 then sub.left else first;
      var rebuilt := if c == 0 then entries else entries[c - 1 := ChildEntry(entries[c - 1].key, sub.left)];
      if sub.split.Some? {
        rebuilt := rebuilt[..c] + [sub.split.value] + rebuilt[c..];
      }
      ghost var kids, seps := Spliced(t.kids, c, sg.Trees()), SplicedSeps(t.seps, c, sg.Seps());
      PutRebuilds(v, v1, retired, cap, node, first, entries, t, lo, hi, c, key, value, sub, sg, newFirst, rebuilt);
      if Small(t, cap) && SmallGrown(sg, cap) && CountsFit(cap) {
        SmallAfterPut(t, cap, c, sg);
      }
      SplicedShape(t.seps, c, sg, cap);
      r, g := WriteInternal(txn, newFirst, rebuilt, kids, seps, lo, hi);
      GrewTransitive(v, v1, Seen(txn));
      if r.Ok? {
        r := Ok(r.value.(inserted := sub.inserted, replaced := sub.replaced));
        PutNodeOutcome(v, v1, Seen(txn), retired, cap, node, t, lo, hi, c, key, value, sub, sg, r.value, g);
      }
    }

    // ---- Erase ----

    /** Remove `key` from the subtree at `node`. A page never grows, so the
        splits the parent could not absorb do not happen. */
    method EraseRec(txn: WriteTxn, node: PageId, key: Key, ghost t: Tree, ghost lo: Option<Key>, ghost hi: Option<Key>)
      returns (r: Result<EraseResult>, ghost out: Tree)
      requires store.Valid() && RootOk(store.pages, Cap(), node, t, lo, hi)
      requires AtOrAbove(lo, key) && Below(hi, key)
      modifies txn`newPages, txn`freedPages,
               store`pages, store`pageCount, store`live, store`freeList, store`handed, store`written
      ensures store.Valid() && old(txn.freedPages) <= txn.freedPages && r.Ok?
      ensures EraseOutcome(old(Seen(txn)), Seen(txn), txn.freedPages[|old(txn.freedPages)|..], Cap(),
                           node, t, key, lo, hi, r.value, out)
      ensures node != 0 && Small(t, Cap()) && r.value.left != 0 ==> Small(out, Cap())
      decreases t
    {
      hide Lt, Sum, Remove, Find, Small, Grew, GrewClean, Ordered, Fits, Flat, Bag, EraseOutcome;
      var cap := PagePayloadCapacity(store.pageSize);
      ghost var v := Seen(txn);
      if node == 0 {
        RemoveAbsent([], key);
        NothingErased(v, cap, node, t, key, lo, hi);
        assert txn.freedPages[|old(txn.freedPages)|..] == [];
        return Ok(EraseResult(0, false)), t;
      }
      RootPage(store.pages, node, t);
      var page := store.pages[node];
      match page
      case Leaf(existing) =>
        r, out := EraseLeaf(txn, node, existing, key, t, lo, hi);
      case Internal(first, entries) =>
        var c := ChooseChild(entries, key);
        var child := if c == 0 then first else entries[c - 1].child;
        ghost var kids, seps := t.kids, t.seps;
        ChildIsOk(store.pages, cap, t, lo, hi, c, key);
        var sub: Result<EraseResult>;
        ghost var sout: Tree;
        sub, sout := EraseRec(txn, child, key, kids[c], LoOf(seps, lo, c), HiOf(seps, hi, c));
        if !sub.value.erased {
          ChildHadNothing(v, Seen(txn), txn.freedPages[|old(txn.freedPages)|..], cap, node, t, c, key, lo, hi, sub.value, sout);
          return Ok(EraseResult(node, false)), t;
        }
        r, out := RebuildAfterErase(txn, node, first, entries, c, key, t, lo, hi, v, old(txn.freedPages), sub.value, sout);
    }

    method EraseLeaf(txn: WriteTxn, node: PageId, existing: seq<Entry>, key: Key,
                     ghost t: Tree, ghost lo: Option<Key>, ghost hi: Option<Key>)
      returns (r: Result<EraseResult>, ghost out: Tree)
      requires store.Valid() && RootOk(store.pages, Cap(), node, t, lo, hi) && t == LeafT(node, existing) && node != 0
      modifies txn`newPages, txn`freedPages,
               store`pages, store`pageCount, store`live, store`freeList, store`handed, store`written
      ensures store.Valid() && old(txn.freedPages) <= txn.freedPages && r.Ok?
      ensures EraseOutcome(old(Seen(txn)), Seen(txn), txn.freedPages[|old(txn.freedPages)|..], Cap(),
                           node, t, key, lo, hi, r.value, out)
      ensures Small(t, Cap()) && r.value.left != 0 ==> Small(out, Cap())
    {
      hide Lt, Sum, Remove, Find, Grew, GrewClean, EraseOutcome, LeafEncodes, Holds, SmallGrown, SmallLoad, SmallItems, Small;
      ghost var v := Seen(txn);
      ghost var freed := txn.freedPages;
      var items, erased := RemoveFromLeaf(existing, key);
      if !erased {
        NothingErased(v, Cap(), node, t, key, lo, hi);
        assert txn.freedPages[|freed|..] == [];
        return Ok(EraseResult(node, false)), t;
      }
      txn.freedPages := txn.freedPages + [node];
      assert txn.freedPages[|freed|..] == [node];
      LeafAfterErase(t, key, Cap(), lo, hi);
      if items == [] {
        LeafEmptied(v, Cap(), node, t, key, lo, hi);
        return Ok(EraseResult(0, true)), t;
      }
      var leaf: Result<PutResult>;
      ghost var g: Grown;
      leaf, g := WriteLeaf(txn, items, lo, hi);
      if leaf.Err? || leaf.value.split.Some? {
        assert false;
      }
      out := g.t;
      LeafErased(v, Seen(txn), Cap(), node, t, key, lo, hi, leaf.value, g);
      return Ok(EraseResult(leaf.value.left, true)), out;
    }

    /** Retire the old internal page; drop a child that became empty, hand the
        only child left up a level, or write the page afresh. */
    method RebuildAfterErase(txn: WriteTxn, node: PageId, first: PageId, entries: seq<ChildEntry>, c: nat, key: Key,
                             ghost t: Tree, ghost lo: Option<Key>, ghost hi: Option<Key>,
                             ghost v: View, ghost freed: seq<PageId>, sub: EraseResult, ghost sout: Tree)
      returns (r: Result<EraseResult>, ghost out: Tree)
      requires store.Valid() && node != 0 && RootOk(v.pages, Cap(), node, t, lo, hi)
      requires t.NodeT? && Points(first, entries, t.kids, t.seps) && c <= |entries| && sub.erased
      requires AtOrAbove(LoOf(t.seps, lo, c), key) && Below(HiOf(t.seps, hi, c), key)
      requires freed <= txn.freedPages
      requires EraseOutcome(v, Seen(txn), txn.freedPages[|freed|..], Cap(), t.kids[c].id, t.kids[c], key,
                            LoOf(t.seps, lo, c), HiOf(t.seps, hi, c), sub, sout)
      modifies txn`newPages, txn`freedPages,
               store`pages, store`pageCount, store`live, store`freeList, store`handed, store`written
      ensures store.Valid() && freed <= txn.freedPages && r.Ok?
      ensures EraseOutcome(v, Seen(txn), txn.freedPages[|freed|..], Cap(), node, t, key, lo, hi, r.value, out)
      ensures Small(t, Cap()) && (sub.left != 0 ==> Small(sout, Cap())) && r.value.left != 0 ==> Small(out, Cap())
    {
      hide Lt, Sum, Remove, Find, Small, SmallAll, SmallSeps, SmallKeys, Grew, GrewClean, Ordered, KidsOrdered, Fits, Flat,
           Bag, SmallGrown, EraseOutcome, Holds, RepAll, FitsAll, Rep, BagAll, FlatAll, InternalEncodes;
      ghost var cap := Cap();
      ghost var v1 := Seen(txn);
      ghost var retired := txn.freedPages[|freed|..];
      txn.freedPages := txn.freedPages + [node];
      assert txn.freedPages[|freed|..] == retired + [node];
      if sub.left == 0 && c == 0 && entries == [] {
        NodeEmptied(v, v1, retired, cap, node, t, key, lo, hi, sub, sout);
        return Ok(EraseResult(0, true)), t;
      }
      var newFirst, rebuilt := first, entries;
      if sub.left == 0 {
        if c == 0 {
          newFirst, rebuilt := entries[0].child, entries[1..];
        } else {
          rebuilt := entries[..c - 1] + entries[c..];
        }
      } else {
        if c == 0 {
          newFirst := sub.left;
        } else {
          rebuilt := entries[c - 1 := ChildEntry(entries[c - 1].key, sub.left)];
        }
      }
      ghost var kids := KidsAfterErase(t.kids, c, sub.left, sout);
      ghost var seps := SepsAfterErase(t.seps, c, sub.left);
      EraseRebuilds(v, v1, retired, cap, node, first, entries, t, lo, hi, c, key, sub, sout, newFirst, rebuilt);
      if Small(t, cap) && (sub.left != 0 ==> Small(sout, cap)) {
        SmallAfterErase(t, cap, c, sub.left, sout);
      }
      if rebuilt == [] {
        out := kids[0];
        LevelCollapses(v, v1, retired, cap, node, t, lo, hi, c, key, sub, sout, newFirst);
        return Ok(EraseResult(newFirst, true)), out;
      }
      var built: Result<PutResult>;
      ghost var g: Grown;
      built, g := WriteInternal(txn, newFirst, rebuilt, kids, seps, lo, hi);
      if built.Err? || built.value.split.Some? {
        assert false;
      }
      out := g.t;
      SmallOne(g, cap);
      NodeErased(v, v1, Seen(txn), retired, cap, node, t, lo, hi, c, key, sub, sout, built.value, g);
      return Ok(EraseResult(built.value.left, true)), out;
    }

    // ---- Transactions ----

    /** Insert or replace: the transaction's entries with `key` set. */
    method Put(txn: WriteTxn, key: Key, value: Value) returns (r: Result<Option<Value>>)
      requires TxnOpen(txn) && txn.intact
      modifies txn, store`pages, store`pageCount, store`live, store`freeList, store`handed, store`written
      ensures TxnOpen(txn)
      ensures r.Err? ==> r.error == ValueTooLarge && !txn.intact
      ensures r.Ok? ==>
                && txn.intact && txn.root != 0
                && Flat(txn.shape) == Upsert(old(RootFlat(txn.root, txn.shape)), key, value)
                && r.value == Find(old(RootFlat(txn.root, txn.shape)), key)
      ensures r.Ok? <==> old(PutWrites(txn.root, txn.shape, key, value, Cap()))
      ensures r.Ok? ==> old(Accepts(txn.root, txn.shape, key, value, Cap()))
      ensures old((txn.root != 0 ==> Small(txn.shape, Cap())) && Accepts(txn.root, txn.shape, key, value, Cap()))
              && SmallKey(key, Cap()) && CountsFit(Cap())
              ==> r.Ok? && Small(txn.shape, Cap())
    {
      hide Lt, Sum, Upsert, Find, Small, SmallKey, Accepts, CountsFit, Grew, GrewClean, Flat, RootBag, TxnGood, RootOk, Created,
           PageStore.Valid, PutWrites;
      ghost var v0 := Seen(txn);
      GoodRoot(txn.base, v0, Cap(), txn.root, txn.shape, txn.freedPages, txn.itemDelta, liveRoot, liveShape);
      var grown: Result<PageId>;
      var sub: Result<PutResult>;
      ghost var out: Tree;
      sub, grown, out := PutTree(txn, key, value);
      LiveSurvives(txn.base, v0, Seen(txn), Cap(), liveRoot, liveShape);
      if grown.Err? {
        txn.intact := false;
        return Err(grown.error);
      }
      txn.root, txn.shape, txn.itemDelta := grown.value, out, txn.itemDelta + if sub.value.inserted then 1 else 0;
      return Ok(sub.value.replaced);
    }

    /** The pages of a put: the recursion, and a new root above one that split. */
    method PutTree(txn: WriteTxn, key: Key, value: Value)
      returns (sub: Result<PutResult>, r: Result<PageId>, ghost out: Tree)
      requires store.Valid()
      requires TxnGood(txn.base, Seen(txn), Cap(), txn.root, txn.shape, txn.freedPages, txn.itemDelta, liveRoot, liveShape)
      modifies txn`newPages, txn`freedPages,
               store`pages, store`pageCount, store`live, store`freeList, store`handed, store`written
      ensures store.Valid() && Grew(old(Seen(txn)), Seen(txn))
      ensures r.Err? ==> r.error == ValueTooLarge
      ensures r.Ok? ==>
                && sub.Ok? && r.value != 0 && Flat(out) == Upsert(RootFlat(txn.root, txn.shape), key, value)
                && sub.value.replaced == Find(RootFlat(txn.root, txn.shape), key)
                && TxnGood(txn.base, Seen(txn), Cap(), r.value, out, txn.freedPages,
                           txn.itemDelta + (if sub.value.inserted then 1 else 0), liveRoot, liveShape)
      ensures r.Ok? <==> PutWrites(txn.root, txn.shape, key, value, Cap())
      ensures r.Ok? ==> Accepts(txn.root, txn.shape, key, value, Cap())
      ensures (txn.root != 0 ==> Small(txn.shape, Cap())) && Accepts(txn.root, txn.shape, key, value, Cap())
              && SmallKey(key, Cap()) && CountsFit(Cap())
              ==> r.Ok? && Small(out, Cap())
    {
      hide Lt, Sum, Upsert, Find, Small, SmallKey, Accepts, CountsFit, Grew, GrewClean, Ordered, Fits, Flat, Bag, SmallGrown,
           PutOutcome, Rep, Once, PagesOf, RootBag, Holds, TxnGood, BagAll, F.Elems, F.Ids, F.Distinct, RootOk, Created,
           PageStore.Valid, Named, PutShape, InternalShape, PutWrites, Answers;
      ghost var v0 := Seen(txn);
      ghost var root0, shape0, freed0, delta0 := txn.root, txn.shape, txn.freedPages, txn.itemDelta;
      GoodRoot(txn.base, v0, Cap(), root0, shape0, freed0, delta0, liveRoot, liveShape);
      ghost var g: Grown;
      sub, g := PutRec(txn, txn.root, key, value, txn.shape, None, None);
      WritesAsAnswered(sub, g, root0, shape0, key, value, Cap());
      ghost var v1 := Seen(txn);
      out := shape0;
      if sub.Err? {
        r := Err(sub.error);
        return;
      }
      ghost var retired := txn.freedPages[|freed0|..];
      assert txn.freedPages == freed0 + retired;
      PutHolds(v0, v1, retired, Cap(), root0, shape0, key, value, sub.value, g);
      r, out := GrowRoot(txn, sub.value, g, Upsert(RootFlat(root0, shape0), key, value));
      ghost var v2 := Seen(txn);
      GrewTransitive(v0, v1, v2);
      if r.Ok? {
        NewPagesGrow(v1, v2);
        TxnPut(txn.base, v0, v1, v2, Cap(), root0, shape0, freed0, retired, delta0, liveRoot, liveShape, key, value,
               sub.value, g, out);
      }
    }

    /** A root that split gets a new internal root above its halves. */
    method GrowRoot(txn: WriteTxn, sub: PutResult, ghost g: Grown, ghost contents: seq<Entry>)
      returns (r: Result<PageId>, ghost out: Tree)
      requires store.Valid() && Named(g, sub.left, sub.split) && Holds(store.pages, Cap(), g, contents, None, None)
      modifies txn`newPages, store`pages, store`pageCount, store`live, store`freeList, store`handed, store`written
      ensures store.Valid() && Grew(old(Seen(txn)), Seen(txn))
      ensures r.Err? ==> r.error == ValueTooLarge
      ensures r.Ok? ==>
                && GrewClean(old(Seen(txn)), Seen(txn))
                && r.value != 0 && out.id == r.value && RootOk(store.pages, Cap(), r.value, out, None, None)
                && Flat(out) == contents
                && Bag(out) == BagAll(g.Trees()) + multiset(Created(old(Seen(txn)), Seen(txn)))
      ensures r.Ok? <==> (g.Two? ==> InternalShape([g.sep], Cap()).Stays?)
      ensures SmallGrown(g, Cap()) && CountsFit(Cap()) ==> r.Ok? && Small(out, Cap())
    {
      hide Lt, Sum, Grew, Ordered, Fits, Flat, Bag, SmallGrown, Rep, Holds, KidsOrdered, SmallSeps, Small, BagAll, FlatAll, RepAll,
           SmallAll, SmallKeys, FitsAll, InternalEncodes, InternalShape;
      ghost var v := Seen(txn);
      if sub.split.None? {
        GrewNothing(v);
        GrownOne(store.pages, Cap(), g, contents, None, None);
        SmallOne(g, Cap());
        assert multiset(Created(v, v)) == multiset{};
        return Ok(sub.left), g.t;
      }
      var entries := [sub.split.value];
      assert Points(sub.left, entries, g.Trees(), g.Seps());
      HoldsKids(store.pages, Cap(), g, contents, None, None);
      if SmallGrown(g, Cap()) && CountsFit(Cap()) {
        SmallRoot(g, Cap());
      }
      var built: Result<PutResult>;
      ghost var bg: Grown;
      built, bg := WriteInternal(txn, sub.left, entries, g.Trees(), g.Seps(), None, None);
      out := g.left;
      if built.Err? {
        return Err(built.error), out;
      }
      GrownOne(store.pages, Cap(), bg, contents, None, None);
      SmallOne(bg, Cap());
      out := bg.t;
      return Ok(built.value.left), out;
    }

    /** Remove `key`: the transaction's entries without it. */
    method Erase(txn: WriteTxn, key: Key) returns (erased: bool)
      requires TxnOpen(txn) && txn.intact
      modifies txn, store`pages, store`pageCount, store`live, store`freeList, store`handed, store`written
      ensures TxnOpen(txn) && txn.intact
      ensures RootFlat(txn.root, txn.shape) == Remove(old(RootFlat(txn.root, txn.shape)), key)
      ensures erased == Find(old(RootFlat(txn.root, txn.shape)), key).Some?
      ensures old(txn.root != 0 ==> Small(txn.shape, Cap())) ==> (txn.root != 0 ==> Small(txn.shape, Cap()))
    {
      hide Lt, Sum, Remove, Find, Small, Grew, GrewClean, Ordered, Fits, Flat, Bag, Rep, Once, PagesOf, RootBag, EraseOutcome;
      if txn.root == 0 {
        RemoveAbsent([], key);
        return false;
      }
      ghost var v0 := Seen(txn);
      ghost var root0, shape0, freed0, delta0 := txn.root, txn.shape, txn.freedPages, txn.itemDelta;
      var sub: Result<EraseResult>;
      ghost var out: Tree;
      sub, out := EraseRec(txn, txn.root, key, txn.shape, None, None);
      ghost var v1 := Seen(txn);
      ghost var retired := txn.freedPages[|freed0|..];
      assert txn.freedPages == freed0 + retired;
      TxnErase(txn.base, v0, v1, Cap(), root0, shape0, freed0, retired, delta0, liveRoot, liveShape, key, sub.value, out);
      LiveSurvives(txn.base, v0, v1, Cap(), liveRoot, liveShape);
      txn.root := sub.value.left;
      txn.shape := out;
      if sub.value.erased {
        txn.itemDelta := txn.itemDelta - 1;
      }
      erased := sub.value.erased;
    }

    /** Record the storage layer's byte totals for the commits to come. */
    method SetByteTotals(valueBytes: nat, keyBytes: nat, ghost txn: WriteTxn)
      requires TxnOpen(txn)
      modifies `liveValueBytes, `liveKeyBytes
      ensures TxnOpen(txn) && liveValueBytes == valueBytes && liveKeyBytes == keyBytes
    {
      liveValueBytes, liveKeyBytes := valueBytes, keyBytes;
    }

    /** Name the transaction's root in a new meta, then free what it retired.
        `newValues` are the pages outside the tree its records refer to. */
    method Commit(txn: WriteTxn, ghost newValues: set<PageId>)
      requires TxnOpen(txn) && txn.intact && newValues <= values + txn.base.written
      modifies this, txn`newPages, txn`freedPages,
               store`pages, store`live, store`freeList, store`handed, store`written,
               store`metaA, store`metaB, store`lastSlot, store`committed
      ensures Valid() && liveRoot == txn.root && liveShape == txn.shape && values == newValues
      ensures liveTxn == txn.newTxnId && liveValueBytes == old(liveValueBytes) && liveKeyBytes == old(liveKeyBytes)
      ensures PagesOf(RootBag(liveRoot, liveShape)) ==
              old(PagesOf(RootBag(liveRoot, liveShape)) + F.Elems(txn.newPages) - F.Elems(txn.freedPages))
      ensures store.live == txn.base.live + F.Elems(old(txn.newPages)) - F.Elems(old(txn.freedPages))
      ensures F.Distinct(old(txn.freedPages)) && F.Elems(old(txn.newPages)) !! txn.base.live
      ensures F.Elems(old(txn.freedPages)) <= old(PagesOf(RootBag(liveRoot, liveShape))) + F.Elems(old(txn.newPages))
      ensures forall p | p in txn.base.pages && p !in old(txn.freedPages) ::
                p in store.pages && store.pages[p] == txn.base.pages[p]
      ensures store.LastMeta() == Meta(txn.newTxnId, txn.root, 0, |RootFlat(txn.root, txn.shape)|,
                                       liveValueBytes, liveKeyBytes, None)
      ensures store.handed + store.written ==
              txn.base.handed + txn.base.written + F.Elems(old(txn.newPages))
              - PagesOf(RootBag(txn.root, txn.shape)) - newValues - F.Elems(old(txn.freedPages))
    {
      hide Lt, Rep, Ordered, Fits, Flat, Bag, Once, Grew, RootBag, RootOk, PagesOf, TxnGood, RootFlat, F.Elems, F.Distinct, F.Ids;
      ghost var v := Seen(txn);
      ghost var tree := PagesOf(RootBag(txn.root, txn.shape));
      var freed := txn.freedPages;
      GoodRoot(txn.base, v, Cap(), txn.root, txn.shape, freed, txn.itemDelta, liveRoot, liveShape);
      TxnPages(txn.base, v, Cap(), txn.root, txn.shape, freed, txn.itemDelta, liveRoot, liveShape);
      assert && newValues !! tree && tree + newValues <= store.committed + store.written
             && F.Elems(freed) !! tree + newValues by {
        ValuesApart(PagesOf(RootBag(liveRoot, liveShape)), values, newValues, txn.base, v, tree, F.Elems(freed));
      }
      var newItemCount := liveItemCount + txn.itemDelta;
      var next := Meta(txn.newTxnId, txn.root, 0, Max(0, newItemCount), liveValueBytes, liveKeyBytes, None);
      Publish(next, freed, tree + newValues);
      assert RootOk(store.pages, Cap(), txn.root, txn.shape, None, None) by {
        RootKept(v.pages, store.pages, Cap(), txn.root, txn.shape, freed);
      }
      liveRoot, liveTxn, liveItemCount := next.root, next.txnId, next.itemCount;
      liveShape, values := txn.shape, newValues;
      txn.newPages, txn.freedPages := [], [];
    }

    /** Write the meta, which keeps `keep`, and only then free `freed`. */
    method Publish(meta: Meta, freed: seq<PageId>, ghost keep: set<PageId>)
      requires store.Valid() && keep <= store.committed + store.written && F.Elems(freed) !! keep
      requires meta.txnId > store.LastMeta().txnId
      modifies store`pages, store`live, store`freeList, store`handed, store`written,
               store`metaA, store`metaB, store`lastSlot, store`committed
      ensures store.Valid() && store.LastMeta() == meta && store.committed == keep
      ensures store.live == old(store.live) - F.Elems(freed)
      ensures forall p | p in old(store.pages) && p !in freed :: p in store.pages && store.pages[p] == old(store.pages)[p]
      ensures store.handed + store.written == old(store.handed + store.written) - keep - F.Elems(freed)
    {
      hide F.Elems, F.Distinct, F.Ids;
      store.WriteMeta(meta, keep);
      FreeAll(freed, keep);
    }

    /** Return `ids` to the store. */
    method FreeAll(ids: seq<PageId>, ghost keep: set<PageId>)
      requires store.Valid() && store.committed == keep && F.Elems(ids) !! keep
      modifies store`pages, store`live, store`freeList, store`handed, store`written
      ensures store.Valid() && store.live == old(store.live) - F.Elems(ids)
      ensures forall p | p in old(store.pages) && p !in ids :: p in store.pages && store.pages[p] == old(store.pages)[p]
      ensures store.pages.Keys <= old(store.pages.Keys)
      ensures store.handed == old(store.handed) - F.Elems(ids) && store.written == old(store.written) - F.Elems(ids)
    {
      assert ids[..0] == [];
      for i := 0 to |ids|
        invariant store.Valid() && store.live == old(store.live) - F.Elems(ids[..i])
        invariant forall p | p in old(store.pages) && p !in ids[..i] ::
                    p in store.pages && store.pages[p] == old(store.pages)[p]
        invariant store.pages.Keys <= old(store.pages.Keys)
        invariant store.handed == old(store.handed) - F.Elems(ids[..i])
        invariant store.written == old(store.written) - F.Elems(ids[..i])
      {
        assert ids[i] in F.Elems(ids);
        assert ids[..i + 1] == ids[..i] + [ids[i]];
        F.ElemsConcat(ids[..i], [ids[i]]);
        assert F.Elems([ids[i]]) == {ids[i]};
        store.Free(ids[i]);
      }
      assert ids[..|ids|] == ids;
    }

    /** Discard the transaction, whatever its operations answered: the store is
        as it was found, and the live tree untouched. */
    method Abort(txn: WriteTxn)
      requires TxnOpen(txn)
      modifies txn`newPages, txn`freedPages, store`pages, store`live, store`freeList, store`handed, store`written
      ensures Valid() && store.live == txn.base.live
      ensures forall p | p in txn.base.pages :: p in store.pages && store.pages[p] == txn.base.pages[p]
      ensures store.handed + store.written == txn.base.handed + txn.base.written
      ensures txn.newPages == [] && txn.freedPages == []
    {
      hide Lt, Rep, Ordered, Fits, Flat, Bag, Once, RootBag, TxnGood;
      ghost var v := Seen(txn);
      var ids := txn.newPages;
      assert Created(txn.base, v) == ids;
      assert F.Elems(ids) !! txn.base.live;
      FreeAll(ids, store.committed);
      assert RootOk(store.pages, Cap(), liveRoot, liveShape, None, None) by {
        assert PagesOf(RootBag(liveRoot, liveShape)) !! F.Elems(ids);
        RootKept(v.pages, store.pages, Cap(), liveRoot, liveShape, ids);
      }
      txn.newPages, txn.freedPages := [], [];
    }
  }
}
