/** The layers together: over a whole run of the file store whose commits are the
    trees its client built, a power loss at any moment reopens on one of those
    trees, whole. */
module CrashSafeTree {
  import opened Wrappers
  import opened TreeModel
  import opened StoreFile
  import opened StoreState
  import opened FileContract
  import opened FilePageStore
  import opened TreeTxn
  import opened CowTree
  import F = FreeListPages
  import TreeReads

  ghost function Decoded(tree: map<PageId, F.Page>, decode: Decoder): map<PageId, Node> {
    map p | p in tree :: decode(tree[p])
  }

  ghost function FilePages(d: Disk, decode: Decoder): map<PageId, Node> {
    map p | p in F.Ids(|d.pages|) :: decode(d.pages[p - 1])
  }

  /** The commit's pages are the tree `t`, at its root, with as many entries as it
      says. */
  ghost predicate Carries(c: Commit, decode: Decoder, t: Tree) {
    TreeReads.Proper(Decoded(c.tree, decode), c.root, t) && c.itemCount == |RootFlat(c.root, t)|
  }

  /** Everything ever committed was a tree. */
  ghost predicate TreesOnly(history: set<Commit>, decode: Decoder) {
    forall c | c in history :: exists t :: Carries(c, decode, t)
  }

  /** At every crash point of every run, whatever a power loss leaves, opening
      the file succeeds and finds, whole, the tree of the last durable commit or
      of the one in flight. */
  lemma TreeSurvivesPowerLoss(c: CrashPoint, d': Disk, w: nat, decode: Decoder, durable: Tree, inFlight: Tree)
    returns (t: Tree)
    requires w > 2 && CrashSafe(c, w) && PowerLoss(c.disk, d', w)
    requires Carries(c.durable.AsCommit(), decode, durable) && Carries(c.inFlight.AsCommit(), decode, inFlight)
    ensures Recover(d', w).Ok?
    ensures var meta := Recover(d', w).value.meta;
            && TreeReads.Proper(FilePages(d', decode), meta.root, t)
            && (|| (meta == c.durable.meta && t == durable)
                || (meta == c.inFlight.meta && t == inFlight))
  {
    hide CrashSafe, Rep, Ordered, Anchored, F.Chain, F.Chase, RecoveredFree, F.Elems, F.Distinct;
    var s := CrashRecovers(c, d', w);
    t := if s == c.durable then durable else inFlight;
    GivenBackTree(d', s, w, decode, t);
  }

  /** The pages a file gives back hold the tree that was committed. */
  lemma GivenBackTree(d: Disk, s: Snapshot, w: nat, decode: Decoder, t: Tree)
    requires w > 2 && (forall i | 0 <= i < |d.pages| :: |d.pages[i]| == w)
    requires GivesBack(d, s, w) && Carries(s.AsCommit(), decode, t)
    ensures TreeReads.Proper(FilePages(d, decode), s.meta.root, t)
  {
    hide Rep, Ordered, F.Chain, F.Chase, RecoveredFree, F.Elems, F.Distinct;
    if s.meta.root != 0 {
      var pages := Decoded(s.tree, decode);
      forall p | p in pages ensures p in FilePages(d, decode) && FilePages(d, decode)[p] == pages[p] {
        assert p in s.tree;
      }
      RepFrame(pages, FilePages(d, decode), t);
    }
  }

  /** A run up to any moment, then a power loss: the file reopens to a valid store
      at the tree that was durable then or the one in flight, and that tree is one
      the run committed. */
  method ReopenTree(file: FilePageStore, moment: nat, d: Disk, ghost decode: Decoder)
    returns (r: Result<FilePageStore>, ghost t: Tree)
    requires file.Valid() && TreesOnly(file.history, decode)
    requires moment < |file.trace| && PowerLoss(file.trace[moment].disk, d, file.words)
    ensures r.Ok? && fresh(r.value) && r.value.Valid() && r.value.disk == d
    ensures r.value.durable == file.trace[moment].durable || r.value.durable == file.trace[moment].inFlight
    ensures r.value.durable.AsCommit() in file.history && Carries(r.value.durable.AsCommit(), decode, t)
    ensures TreeReads.Proper(FilePages(d, decode), r.value.durable.meta.root, t)
    ensures TreesOnly(r.value.history, decode)
  {
    hide Inv, AllSafe, Carries, GivesBack, TreeReads.Proper;
    r := file.ReopenAfterPowerLoss(moment, d);
    t :| Carries(r.value.durable.AsCommit(), decode, t);
    GivenBackTree(d, r.value.durable, file.words, decode, t);
  }

  /** What a client keeps of its pages is what the file holds of them. */
  lemma KeptContents(s: Store, meta: Meta, tree: set<PageId>, decode: Decoder, t: Tree)
    requires Inv(s) && tree <= ClientOf(s, decode).committed + s.written
    requires TreeReads.Proper(ClientOf(s, decode).pages, meta.root, t) && PagesOf(RootBag(meta.root, t)) <= tree
    requires meta.itemCount == |RootFlat(meta.root, t)|
    ensures tree <= F.Ids(|s.disk.pages|) && Carries(CommitOf(meta, Contents(s, tree)), decode, t)
  {
    hide Rep, Ordered, DurableOk, ModeOk, ListExact, Bag;
    CommitPagesExist(s, tree);
    var pages, kept := ClientOf(s, decode).pages, Decoded(Contents(s, tree), decode);
    if meta.root != 0 {
      forall p | p in Bag(t) && p in pages ensures p in kept && kept[p] == pages[p] {
        assert p in PagesOf(RootBag(meta.root, t));
      }
      RepFrame(pages, kept, t);
    }
  }

  /** Committing the pages of a tree the client can see keeps every commit of the
      run a tree. No other operation of the store commits anything. */
  method CommitTree(file: FilePageStore, meta: Meta, ghost tree: set<PageId>, ghost t: Tree, ghost decode: Decoder)
    requires file.Valid() && TreesOnly(file.history, decode)
    requires tree <= ClientOf(file.State(), decode).committed + file.written && meta.txnId > file.State().LatestTxn()
    requires TreeReads.Proper(ClientOf(file.State(), decode).pages, meta.root, t) && PagesOf(RootBag(meta.root, t)) <= tree
    requires meta.itemCount == |RootFlat(meta.root, t)|
    modifies file
    ensures file.Valid() && TreesOnly(file.history, decode) && old(file.trace) <= file.trace
    ensures tree <= F.Ids(|old(file.disk).pages|) && file.State().LatestTree() == Contents(old(file.State()), tree)
    ensures Carries(CommitOf(meta, file.State().LatestTree()), decode, t)
    ensures SameFigures(file.State().LatestMeta(), meta)
  {
    hide FilePageStore.Coherent, Inv, Carries, TreeReads.Proper, Contents, PagesOf, RootBag;
    KeptContents(file.State(), meta, tree, decode, t);
    file.WriteMeta(meta, tree);
  }

  /** At its commit point the tree has exactly what the store asks of a client: its
      root reaches a proper tree among its pages, and it names no page but those of
      the last commit and those it has written since. */
  lemma TreeMayCommit(tree: CowTree, txn: WriteTxn, newValues: set<PageId>)
    requires tree.TxnOpen(txn) && txn.intact && newValues <= tree.values + txn.base.written
    ensures var c := tree.store.AsClient();
            && TreeReads.Proper(c.pages, txn.root, txn.shape)
            && PagesOf(RootBag(txn.root, txn.shape)) + newValues <= c.committed + c.written
            && txn.newTxnId > tree.store.LastMeta().txnId
            && tree.liveItemCount + txn.itemDelta == |RootFlat(txn.root, txn.shape)|
  {
    hide Rep, Ordered, Bag, Once, Grew, RootBag, PagesOf, TxnGood, F.Elems, F.Distinct, F.Ids;
    var v, live := tree.Seen(txn), PagesOf(RootBag(tree.liveRoot, tree.liveShape));
    GoodRoot(txn.base, v, tree.Cap(), txn.root, txn.shape, txn.freedPages, txn.itemDelta, tree.liveRoot, tree.liveShape);
    TxnPages(txn.base, v, tree.Cap(), txn.root, txn.shape, txn.freedPages, txn.itemDelta, tree.liveRoot, tree.liveShape);
    ValuesApart(live, tree.values, newValues, txn.base, v, PagesOf(RootBag(txn.root, txn.shape)), F.Elems(txn.freedPages));
  }

  /** The commit of a tree transaction over a file whose client is the tree. */
  method CommitTxnToFile(tree: CowTree, txn: WriteTxn, meta: Meta, ghost newValues: set<PageId>, file: FilePageStore,
                         ghost decode: Decoder)
    requires meta.txnId == txn.newTxnId && meta.root == txn.root && meta.itemCount == tree.liveItemCount + txn.itemDelta
    requires tree.TxnOpen(txn) && txn.intact && newValues <= tree.values + txn.base.written
    requires file.Valid() && TreesOnly(file.history, decode)
    requires ClientOf(file.State(), decode) == tree.store.AsClient()
    requires file.State().LatestTxn() == tree.store.LastMeta().txnId
    modifies file
    ensures file.Valid() && TreesOnly(file.history, decode) && old(file.trace) <= file.trace
    ensures Carries(CommitOf(meta, file.State().LatestTree()), decode, txn.shape)
  {
    hide FilePageStore.Valid, CowTree.TxnOpen, Carries, TreeReads.Proper, PagesOf, RootBag, TreesOnly;
    TreeMayCommit(tree, txn, newValues);
    CommitTree(file, meta, PagesOf(RootBag(txn.root, txn.shape)) + newValues, txn.shape, decode);
  }
}
