/** Whole runs of the tree against the map it refines, and the puts it refuses. */
module TreeRuns {
  import opened Wrappers
  import opened Keys
  import opened TreeModel
  import opened PageSizes
  import opened TreeTxn
  import opened CowTree
  import opened PageStore
  import TreeReads

  datatype Op = PutOp(key: Key, value: Value) | EraseOp(key: Key)

  /** What an operation answers: the value a put displaced, or whether there was
      anything to erase. */
  datatype Answer = Displaced(was: Option<Value>) | Erased(present: bool)

  // ---- The map a run is compared with ----

  function Step(m: map<Key, Value>, op: Op): map<Key, Value> {
    match op
    case PutOp(key, value) => m[key := value]
    case EraseOp(key) => m - {key}
  }

  function AnswerOf(m: map<Key, Value>, op: Op): Answer {
    match op
    case PutOp(key, _) => Displaced(if key in m then Some(m[key]) else None)
    case EraseOp(key) => Erased(key in m)
  }

  /** The map after every operation, latest last. */
  function MapAfter(m: map<Key, Value>, ops: seq<Op>): map<Key, Value> {
    if ops == [] then m else Step(MapAfter(m, ops[..|ops| - 1]), ops[|ops| - 1])
  }

  function Answers(m: map<Key, Value>, ops: seq<Op>): (a: seq<Answer>)
    ensures |a| == |ops|
  {
    if ops == [] then []
    else Answers(m, ops[..|ops| - 1]) + [AnswerOf(MapAfter(m, ops[..|ops| - 1]), ops[|ops| - 1])]
  }

  /** The live tree as a map. */
  ghost function Contents(tree: CowTree): map<Key, Value>
    reads tree
  {
    ToMap(RootFlat(tree.liveRoot, tree.liveShape))
  }

  /** Entries small enough that no put can be refused. */
  ghost predicate HalfPages(m: map<Key, Value>, cap: nat) {
    CountsFit(cap) && forall k | k in m :: SmallItem(Entry(k, m[k]), cap)
  }

  ghost predicate HalfPageOps(ops: seq<Op>, cap: nat) {
    forall op | op in ops && op.PutOp? :: SmallItem(Entry(op.key, op.value), cap)
  }

  lemma {:induction false} HalfPagesStay(m: map<Key, Value>, ops: seq<Op>, cap: nat)
    requires HalfPages(m, cap) && HalfPageOps(ops, cap)
    ensures HalfPages(MapAfter(m, ops), cap)
  {
    if ops != [] {
      var init := ops[..|ops| - 1];
      assert forall op | op in init :: op in ops;
      HalfPagesStay(m, init, cap);
      assert ops[|ops| - 1] in ops;
    }
  }

  lemma {:induction false} EntriesInMap(s: seq<Entry>, e: Entry)
    requires Sorted(s) && e in s
    ensures e.key in ToMap(s) && ToMap(s)[e.key] == e.value
  {
    hide Lt;
    LtIsTotalOrder();
    if e != s[0] {
      var i :| 1 <= i < |s| && s[i] == e;
      assert Lt(s[0].key, e.key);
      assert s[1..][i - 1] == e;
      EntriesInMap(s[1..], e);
    }
  }

  lemma HalfPageEntries(s: seq<Entry>, cap: nat)
    requires Sorted(s) && HalfPages(ToMap(s), cap)
    ensures forall e | e in s :: SmallItem(e, cap)
  {
    forall e | e in s ensures SmallItem(e, cap) {
      EntriesInMap(s, e);
    }
  }

  /** One operation on sorted entries is the same operation on the map. */
  lemma StepAnswer(s: seq<Entry>, op: Op)
    requires Sorted(s)
    ensures op.PutOp? ==> && ToMap(Upsert(s, op.key, op.value)) == Step(ToMap(s), op)
                          && Displaced(Find(s, op.key)) == AnswerOf(ToMap(s), op)
    ensures op.EraseOp? ==> && ToMap(Remove(s, op.key)) == Step(ToMap(s), op)
                            && Erased(Find(s, op.key).Some?) == AnswerOf(ToMap(s), op)
  {
    hide Lt, Upsert, Remove, Find, ToMap;
    FindIsLookup(s, op.key);
    if op.PutOp? {
      UpsertIsUpdate(s, op.key, op.value);
    } else {
      RemoveIsDeletion(s, op.key);
    }
  }

  // ---- Transactions ----

  ghost function TxnMap(txn: WriteTxn): map<Key, Value>
    reads txn
  {
    ToMap(RootFlat(txn.root, txn.shape))
  }

  /** Whether the tree's separators and keys leave internal pages splittable. */
  ghost predicate SmallRootTree(root: PageId, t: Tree, cap: nat) {
    root != 0 ==> Small(t, cap)
  }

  /** Room for half-page entries: none of them would be refused. */
  ghost predicate Roomy(root: PageId, t: Tree, cap: nat) {
    SmallRootTree(root, t, cap) && HalfPages(ToMap(RootFlat(root, t)), cap)
  }

  lemma RoomyTakes(pages: map<PageId, Node>, root: PageId, t: Tree, key: Key, value: Value, cap: nat)
    requires RootOk(pages, cap, root, t, None, None) && Roomy(root, t, cap) && SmallItem(Entry(key, value), cap)
    ensures SmallRootTree(root, t, cap) && Accepts(root, t, key, value, cap) && SmallKey(key, cap) && CountsFit(cap)
    ensures HalfPages(ToMap(Upsert(RootFlat(root, t), key, value)), cap)
  {
    hide Lt, Upsert, ToMap, Small, Accepts, CountsFit, Ordered, Rep, Fits, Flat, SmallKey;
    RootSorted(pages, cap, root, t);
    HalfPageEntries(RootFlat(root, t), cap);
    HalfPagesAccepted(pages, root, t, key, value, cap);
    UpsertIsUpdate(RootFlat(root, t), key, value);
  }

  /** One operation of a transaction does to the map what it says. */
  method ApplyOne(tree: CowTree, txn: WriteTxn, op: Op) returns (ok: bool, answer: Answer)
    requires tree.TxnOpen(txn) && txn.intact
    modifies txn, tree.store`pages, tree.store`pageCount, tree.store`live, tree.store`freeList,
             tree.store`handed, tree.store`written
    ensures tree.TxnOpen(txn) && txn.intact == ok
    ensures ok ==> TxnMap(txn) == Step(old(TxnMap(txn)), op) && answer == AnswerOf(old(TxnMap(txn)), op)
    ensures op.EraseOp? ==> ok
    ensures old(SmallRootTree(txn.root, txn.shape, tree.Cap()) && HalfPages(TxnMap(txn), tree.Cap()))
            && HalfPageOps([op], tree.Cap())
            ==> ok && SmallRootTree(txn.root, txn.shape, tree.Cap())
  {
    hide Lt, Upsert, Remove, Find, ToMap, Small, Accepts, CountsFit, Sum, Ordered, Rep, Fits, Flat, Bag, Grew, GrewClean,
         Once, PagesOf, SmallKey;
    ghost var s := RootFlat(txn.root, txn.shape);
    assert RootOk(tree.store.pages, tree.Cap(), txn.root, txn.shape, None, None);
    RootSorted(tree.store.pages, tree.Cap(), txn.root, txn.shape);
    StepAnswer(s, op);
    match op
    case PutOp(key, value) =>
      if Roomy(txn.root, txn.shape, tree.Cap()) && HalfPageOps([op], tree.Cap()) {
        assert op in [op];
        RoomyTakes(tree.store.pages, txn.root, txn.shape, key, value, tree.Cap());
      }
      var was := tree.Put(txn, key, value);
      ok := was.Ok?;
      answer := if ok then Displaced(was.value) else Displaced(None);
    case EraseOp(key) =>
      var present := tree.Erase(txn, key);
      ok, answer := true, Erased(present);
  }

  /** One transaction: all of `ops`, committed, or none of them. */
  method Run(tree: CowTree, ops: seq<Op>) returns (ok: bool, answers: seq<Answer>)
    requires tree.Valid()
    modifies tree, tree.store
    ensures tree.Valid() && tree.values == old(tree.values)
    ensures tree.liveValueBytes == old(tree.liveValueBytes) && tree.liveKeyBytes == old(tree.liveKeyBytes)
    ensures ok ==> Contents(tree) == MapAfter(old(Contents(tree)), ops) && answers == Answers(old(Contents(tree)), ops)
    ensures !ok ==> && tree.liveRoot == old(tree.liveRoot) && tree.liveShape == old(tree.liveShape)
                    && tree.store.live == old(tree.store.live)
    ensures tree.liveTxn == if ok then old(tree.liveTxn) + 1 else old(tree.liveTxn)
    ensures old(Roomy(tree.liveRoot, tree.liveShape, tree.Cap())) && HalfPageOps(ops, tree.Cap())
            ==> ok && Roomy(tree.liveRoot, tree.liveShape, tree.Cap())
  {
    hide Lt, ToMap, Small, CountsFit, Ordered, Rep, Fits, Flat, Bag, Grew, Once, PagesOf, TxnGood, RootBag, RootOk,
         HalfPages, HalfPageOps;
    ghost var m := Contents(tree);
    ghost var small := Roomy(tree.liveRoot, tree.liveShape, tree.Cap()) && HalfPageOps(ops, tree.Cap());
    var txn := tree.BeginWrite();
    answers := [];
    ok := true;
    assert ops[..0] == [];
    for i := 0 to |ops|
      invariant tree.TxnOpen(txn) && txn.intact && fresh(txn)
      invariant TxnMap(txn) == MapAfter(m, ops[..i]) && answers == Answers(m, ops[..i])
      invariant small ==> SmallRootTree(txn.root, txn.shape, tree.Cap())
      invariant unchanged(tree)
      invariant txn.base.live == old(tree.store.live)
    {
      assert ops[..i + 1][..i] == ops[..i];
      if small {
        OpsAreSmall(m, ops, i, tree.Cap());
      }
      var answer;
      ok, answer := ApplyOne(tree, txn, ops[i]);
      if !ok {
        tree.Abort(txn);
        return;
      }
      answers := answers + [answer];
    }
    assert ops[..|ops|] == ops;
    if small {
      HalfPagesStay(m, ops, tree.Cap());
    }
    tree.Commit(txn, tree.values);
  }

  lemma OpsAreSmall(m: map<Key, Value>, ops: seq<Op>, i: nat, cap: nat)
    requires i < |ops| && HalfPages(m, cap) && HalfPageOps(ops, cap)
    ensures HalfPages(MapAfter(m, ops[..i]), cap) && HalfPageOps([ops[i]], cap)
  {
    assert forall op | op in ops[..i] :: op in ops;
    HalfPagesStay(m, ops[..i], cap);
    assert ops[i] in ops;
  }

  // ---- Runs of transactions ----

  /** The map after a history, given which transactions committed. */
  function History(m: map<Key, Value>, txns: seq<seq<Op>>, done: seq<bool>): map<Key, Value>
    requires |done| == |txns|
  {
    if txns == [] then m
    else
      var n := |txns| - 1;
      var before := History(m, txns[..n], done[..n]);
      if done[n] then MapAfter(before, txns[n]) else before
  }

  /** Over every run of transactions the tree is the map: a committed transaction
      happened wholly, a refused one not at all. */
  method RunAll(tree: CowTree, txns: seq<seq<Op>>) returns (done: seq<bool>)
    requires tree.Valid()
    modifies tree, tree.store
    ensures tree.Valid() && |done| == |txns|
    ensures Contents(tree) == History(old(Contents(tree)), txns, done)
    ensures tree.liveItemCount == |Contents(tree)| == tree.store.LastMeta().itemCount
  {
    hide Lt, ToMap, RootOk, Once, PagesOf, RootBag, MapAfter;
    done := [];
    for i := 0 to |txns|
      invariant tree.Valid() && |done| == i
      invariant Contents(tree) == History(old(Contents(tree)), txns[..i], done)
    {
      var ok, _ := Run(tree, txns[i]);
      assert txns[..i + 1][..i] == txns[..i] && (done + [ok])[..i] == done;
      done := done + [ok];
    }
    assert txns[..|txns|] == txns;
    RootSorted(tree.store.pages, tree.Cap(), tree.liveRoot, tree.liveShape);
    MapSize(RootFlat(tree.liveRoot, tree.liveShape));
  }

  /** A lookup in the live tree is a lookup in the map. */
  method Lookup(tree: CowTree, key: Key) returns (r: Result<Option<Value>>)
    requires tree.Valid()
    ensures r == Ok(if key in Contents(tree) then Some(Contents(tree)[key]) else None)
  {
    hide Lt, ToMap, Find, Ordered, Rep, Flat, Once, PagesOf, RootBag;
    r := TreeReads.Get(tree.store, tree.liveRoot, key, tree.liveShape);
    RootSorted(tree.store.pages, tree.Cap(), tree.liveRoot, tree.liveShape);
    FindIsLookup(RootFlat(tree.liveRoot, tree.liveShape), key);
  }

  // ---- Puts that are refused ----

  /** A pair within the page limit can be refused: between two small entries, a
      pair that fills a page leaves a right half larger than one. */
  lemma InLimitPairRefused(cap: nat, value: Value)
    requires 14 <= cap && |value| == cap - 7 <= MAX_VALUE_LENGTH
    ensures var t := LeafT(1, [Entry([1], []), Entry([3], [])]);
            && Ordered(t, None, None) && Fits(t, cap)
            && LeafEntryBytes(1, |value|) <= cap
            && !Accepts(1, t, [2], value, cap)
  {
    var a, b, c := Entry([1], []), Entry([2], value), Entry([3], []);
    var t := LeafT(1, [a, c]);
    assert ItemSizes([a, c]) == [7, 7];
    assert Sum([7, 7]) == 14 by {
      assert [7, 7][1..] == [7] && [7][1..] == [];
    }
    assert Ordered(t, None, None) && Fits(t, cap);
    var u := [a, b, c];
    assert Upsert([a, c], [2], value) == u by {
      assert Upsert([c], [2], value) == [b, c];
      assert [a, c][1..] == [c];
    }
    var sizes := ItemSizes(u);
    assert sizes == [7, cap, 7];
    assert sizes[1..] == [cap, 7] && sizes[1..][1..] == [7] && [7][1..] == [];
    assert Sum(sizes) == 14 + cap;
    assert sizes[..1] == [7] && Sum([7]) == 7;
    assert ItemSizes(u[1..]) == [cap, 7];
    assert Sum([cap, 7]) == cap + 7;
    assert forall i: nat :: !SplitsAt(u, cap, i);
  }
}
