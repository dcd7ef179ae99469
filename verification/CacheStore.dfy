/** The cache store over the tree: entries, their overflow chains, and the totals
    each commit carries. It refines a map of entries. */
module CacheStore {
  import opened Wrappers
  import opened Keys
  import opened TreeModel
  import opened Records
  import opened PageSizes
  import opened OverflowChains
  import opened CacheRecords
  import opened TreeTxn
  import opened CowTree
  import opened PageStore
  import opened StoreFile
  import F = FreeListPages
  import Migration
  import TreeReads
  import TreeRuns

  const U32_MAX := 0xFFFF_FFFF
  const TOKENS := 0x1_0000_0000_0000_0000

  // ---- Tokens ----

  /** Tokens are counted off from 1, wrapping at 64 bits. */
  ghost predicate Numbered(issued: seq<U64>, next: U64) {
    next == (|issued| + 1) % TOKENS && forall i | 0 <= i < |issued| :: issued[i] == (i + 1) % TOKENS
  }

  lemma NextToken(issued: seq<U64>, next: U64)
    requires Numbered(issued, next)
    ensures Numbered(issued + [next], (next + 1) % TOKENS)
  {
  }

  /** No token is issued twice before the counter wraps. */
  lemma TokensDiffer(issued: seq<U64>, next: U64)
    requires Numbered(issued, next)
    ensures |issued| <= TOKENS ==> forall i, j | 0 <= i < j < |issued| :: issued[i] != issued[j]
    ensures |issued| < TOKENS ==> next !in issued
  {
    if |issued| <= TOKENS {
      forall i, j | 0 <= i < j < |issued| ensures issued[i] != issued[j] {
        assert issued[i] == i + 1;
      }
    }
    if |issued| < TOKENS {
      forall i | 0 <= i < |issued| ensures issued[i] != next {
        assert issued[i] == i + 1;
      }
    }
  }

  class CacheStore {
    const tree: CowTree
    const env: Env
    var storeBytes: nat
    var storeKeyBytes: nat
    var nextCas: U64
    var liveGeneration: U64

    // The tokens this session has handed out, in order.
    ghost var issued: seq<U64>

    // The pages each key's value is spread over; none when it is inline.
    ghost var chains: map<Key, seq<PageId>>

    ghost function Records(): seq<Entry>
      reads tree
    {
      RootFlat(tree.liveRoot, tree.liveShape)
    }

    /** Every record is whole; chains share no page with each other or with the
        tree, and are what the last commit keeps besides the tree. */
    ghost predicate Core()
      reads this, tree, tree.store
    {
      && tree.Valid() && env.Lawful() && env.pageSize == tree.store.pageSize
      && Held(ToMap(Records()), tree.store.pages, chains, env)
      && tree.values == ChainPages(chains)
    }

    /** The running totals are those of the records, and the last meta carries
        them; the tokens were counted off. */
    ghost predicate Counted()
      reads this, tree, tree.store
    {
      && Numbered(issued, nextCas)
      && storeBytes == Total(Records(), ValueCost) && storeKeyBytes == Total(Records(), KeyCost)
      && tree.liveValueBytes == tree.store.LastMeta().valueBytes == storeBytes
      && tree.liveKeyBytes == tree.store.LastMeta().keyBytes == Min(storeKeyBytes, U32_MAX)
    }

    /** At rest nothing is allocated but the tree and the chains. */
    ghost predicate Valid()
      reads this, tree, tree.store
    {
      Core() && Counted() && tree.store.live == tree.store.committed
    }

    ghost function View(): map<Key, CacheEntry>
      requires Core()
      reads this, tree, tree.store
    {
      CacheRecords.View(ToMap(Records()), tree.store.pages, chains, env)
    }

    /** Every record takes at most half a page. */
    ghost predicate Roomy()
      reads tree
    {
      tree.store.pageSize >= PAGE_HEADER_SIZE && TreeRuns.Roomy(tree.liveRoot, tree.liveShape, tree.Cap())
    }

    /** Whether the tree can write a record of `size` bytes under `key`. */
    ghost predicate Takes(key: Key, size: nat)
      reads tree
    {
      tree.store.pageSize >= PAGE_HEADER_SIZE && PutWrites(tree.liveRoot, tree.liveShape, key, Blank(size), tree.Cap())
    }

    /** A chain has been written and no record names it yet. */
    ghost predicate Staged(chain: seq<PageId>)
      reads this, tree, tree.store
    {
      && Core() && Counted()
      && tree.store.live == tree.store.committed + F.Elems(chain) && F.Elems(chain) !! tree.store.committed
      && tree.store.handed == {} && tree.store.written == F.Elems(chain)
    }

    /** An empty store. */
    constructor (tree: CowTree, env: Env)
      requires tree.Valid() && env.Lawful() && env.pageSize == tree.store.pageSize
      requires tree.liveRoot == 0 && tree.values == {} && tree.store.live == tree.store.committed
      requires tree.liveValueBytes == tree.store.LastMeta().valueBytes == 0
      requires tree.liveKeyBytes == tree.store.LastMeta().keyBytes == 0
      ensures Valid() && this.tree == tree && this.env == env && View() == map[] && issued == []
      ensures CountsFit(tree.Cap()) ==> Roomy()
    {
      this.tree, this.env := tree, env;
      storeBytes, storeKeyBytes, nextCas, liveGeneration, issued := 0, 0, 1, 0, [];
      chains := map[];
    }

    /** The entries are those of the records that are not reserved. */
    lemma EntriesAreRecords()
      requires Core()
      ensures forall k :: k in View() <==> !Migration.IsReserved(k) && k in ToMap(Records())
    {
      hide ToMap, RecordOk, Migration.IsReserved, Apart;
      forall k ensures k in View() <==> !Migration.IsReserved(k) && k in ToMap(Records()) {
        assert k in View() <==> k in Migration.OwnRecords(ToMap(Records()));
      }
    }

    // ---- Chains ----

    /** Decide where stored bytes go, and write a chain for large ones. */
    method StageValue(stored: seq<Byte>) returns (body: Body, ghost chain: seq<PageId>)
      requires Valid() && |stored| < 0x1_0000_0000 && |stored| <= env.maxValueBytes
      requires tree.store.pageCount + ChainLength(|stored|, Payload(env.pageSize)) < 0x1_0000_0000_0000_0000
      modifies tree.store`pages, tree.store`pageCount, tree.store`live, tree.store`freeList, tree.store`handed,
               tree.store`written
      ensures Staged(chain) && View() == old(View())
      ensures body.Inline? <==> |stored| <= env.InlineLimit()
      ensures BodyOk(body, tree.store.pages, chain, env) && StoredBytes(body, tree.store.pages, chain) == stored
    {
      hide ToMap, Held, CacheRecords.View, Once, RootOk, Total, F.Ids, F.Elems, F.Distinct, ChainLength, PagesOf, RootBag,
           RootFlat, ChainPages, Linked, ChainBytes;
      assert tree.store.handed == {} && tree.store.written == {} by { NothingLoose(tree.store); }
      if |stored| <= env.InlineLimit() {
        chain := [];
        assert F.Elems(chain) == {} by { NoPages(); }
        return Inline(stored), chain;
      }
      ghost var pages := tree.store.pages;
      var root;
      root, chain := WriteChain(tree.store, stored);
      StoreFrame(ToMap(Records()), pages, tree.store.pages, chains, env, tree.Cap(), tree.liveRoot, tree.liveShape,
                 tree.store.committed, {});
      body := Chained(root, |stored|);
    }

    /** Give a chain no record names back. */
    method DropChain(root: PageId, ghost chain: seq<PageId>, ghost len: nat)
      requires Core() && Linked(tree.store.pages, chain) && F.Distinct(chain) && root == chain[0]
      requires F.Elems(chain) !! tree.store.committed
      requires len <= env.maxValueBytes && |chain| == ChainLength(len, Payload(env.pageSize))
      modifies tree.store`pages, tree.store`live, tree.store`freeList, tree.store`handed, tree.store`written
      ensures Core() && View() == old(View()) && (old(Counted()) ==> Counted())
      ensures tree.store.live == old(tree.store.live) - F.Elems(chain)
      ensures tree.store.handed == old(tree.store.handed) - F.Elems(chain)
      ensures tree.store.written == old(tree.store.written) - F.Elems(chain)
    {
      hide ToMap, Held, CacheRecords.View, Rep, Ordered, Fits, Once, RootOk, Total, F.Ids, ChainLength;
      ghost var pages := tree.store.pages;
      ChainFitsBudget(len, Payload(env.pageSize), env.maxValueBytes);
      FreeChain(tree.store, root, env.maxValueBytes, chain);
      StoreFrame(ToMap(Records()), pages, tree.store.pages, chains, env, tree.Cap(), tree.liveRoot, tree.liveShape,
                 tree.store.committed, F.Elems(chain));
    }

    // ---- Transactions ----

    /** A transaction on top of a staged chain. */
    ghost predicate TxnStaged(txn: WriteTxn, chain: seq<PageId>)
      reads this, tree, tree.store, txn
    {
      && tree.TxnOpen(txn) && env.Lawful() && env.pageSize == tree.store.pageSize && Counted()
      && Held(ToMap(Records()), txn.base.pages, chains, env) && tree.values == ChainPages(chains)
      && txn.base.live == tree.store.committed + F.Elems(chain) && F.Elems(chain) !! tree.store.committed
      && txn.base.handed == {} && txn.base.written == F.Elems(chain)
    }

    /** The entries the transaction started from. */
    ghost function TxnView(txn: WriteTxn, chain: seq<PageId>): map<Key, CacheEntry>
      requires TxnStaged(txn, chain)
      reads this, tree, tree.store, txn
    {
      CacheRecords.View(ToMap(Records()), txn.base.pages, chains, env)
    }

    /** Commit what the transaction did to the records, with the totals of the very
        map it names. `gone` are the chain pages no record names any more. */
    method CommitChange(txn: WriteTxn, bytes: nat, keyBytes: nat, ghost chain: seq<PageId>,
                        ghost chains': map<Key, seq<PageId>>, ghost gone: set<PageId>)
      requires TxnStaged(txn, chain) && txn.intact
      requires gone <= ChainPages(chains) && ChainPages(chains') == ChainPages(chains) - gone + F.Elems(chain)
      requires Held(ToMap(RootFlat(txn.root, txn.shape)), txn.base.pages, chains', env)
      requires bytes == Total(RootFlat(txn.root, txn.shape), ValueCost)
      requires keyBytes == Total(RootFlat(txn.root, txn.shape), KeyCost)
      modifies this, tree, txn`newPages, txn`freedPages,
               tree.store`pages, tree.store`live, tree.store`freeList, tree.store`handed, tree.store`written,
               tree.store`metaA, tree.store`metaB, tree.store`lastSlot, tree.store`committed
      ensures Core() && Counted() && chains == chains'
      ensures issued == old(issued) && liveGeneration == old(liveGeneration)
      ensures tree.liveRoot == old(txn.root) && tree.liveShape == old(txn.shape)
      ensures View() == CacheRecords.View(old(ToMap(RootFlat(txn.root, txn.shape))), txn.base.pages, chains', env)
      ensures tree.store.live == tree.store.committed + gone && gone !! tree.store.committed
      ensures forall p | p in gone && p in txn.base.pages :: p in tree.store.pages && tree.store.pages[p] == txn.base.pages[p]
    {
      hide ToMap, Held, CacheRecords.View, Once, RootOk, Total, F.Ids, F.Elems, F.Distinct, PagesOf, RootBag,
           RootFlat, ChainPages, TxnGood, Grew, ValueCost, KeyCost, PageStore.Valid, PageStore.LastMeta, CowTree.Valid,
           CowTree.TxnOpen;
      TxnPagesSplit(tree, txn);
      ghost var m := ToMap(RootFlat(txn.root, txn.shape));
      ghost var was, made, freed := PagesOf(RootBag(tree.liveRoot, tree.liveShape)), F.Elems(txn.newPages), F.Elems(txn.freedPages);
      ghost var ids := txn.freedPages;
      ghost var values := tree.values;
      storeBytes, storeKeyBytes := bytes, keyBytes;
      tree.SetByteTotals(storeBytes, Min(storeKeyBytes, U32_MAX), txn);
      tree.Commit(txn, ChainPages(chains'));
      chains := chains';
      PagesSplit(tree);
      CommitPages(was, values, F.Elems(chain), made, freed, gone, tree.store.live, tree.store.committed);
      assert Held(m, tree.store.pages, chains, env) &&
             CacheRecords.View(m, tree.store.pages, chains, env) == CacheRecords.View(m, txn.base.pages, chains, env) by {
        KeptPages(txn.base.pages, tree.store.pages, ids, ChainPages(chains));
        HeldFrame(m, txn.base.pages, tree.store.pages, chains, env);
      }
      KeptPages(txn.base.pages, tree.store.pages, ids, gone);
    }

    // ---- Operations ----

    /** Put a record in a new transaction. It is refused exactly when the tree cannot
        write a record of its size; a small one in a roomy tree, and one that is no
        longer than the record it replaces, never is. */
    method PutRecord(txn: WriteTxn, key: Key, raw: Value) returns (r: Result<Option<Value>>)
      requires tree.TxnOpen(txn) && txn.intact && txn.root == tree.liveRoot && txn.shape == tree.liveShape
      modifies txn, tree.store`pages, tree.store`pageCount, tree.store`live, tree.store`freeList, tree.store`handed,
               tree.store`written
      ensures tree.TxnOpen(txn) && txn.intact == r.Ok?
      ensures r.Ok? <==> Takes(key, |raw|)
      ensures r.Err? ==> r.error == ValueTooLarge
      ensures r.Ok? ==> RootFlat(txn.root, txn.shape) == Upsert(Records(), key, raw) && r.value == Find(Records(), key)
      ensures Roomy() && SmallItem(Entry(key, raw), tree.Cap()) ==>
                r.Ok? && TreeRuns.Roomy(txn.root, txn.shape, tree.Cap())
      ensures Find(Records(), key).Some? && |raw| <= |Find(Records(), key).value| ==> r.Ok?
    {
      hide ToMap, Once, RootOk, F.Ids, F.Elems, F.Distinct, PagesOf, RootBag, Flat, TxnGood, Grew, Upsert, Find, Accepts,
           Small, SmallItem, SmallKey, CountsFit, PutShape, TreeRuns.HalfPages;
      ghost var s := Records();
      PutShapeBySize(tree.liveRoot, tree.liveShape, key, raw, Blank(|raw|), tree.Cap());
      if Find(s, key).Some? && |raw| <= |Find(s, key).value| {
        RewriteIsWritten(tree.store.pages, tree.liveRoot, tree.liveShape, key, raw, tree.Cap());
      }
      if Roomy() && SmallItem(Entry(key, raw), tree.Cap()) {
        TreeRuns.RoomyTakes(tree.store.pages, tree.liveRoot, tree.liveShape, key, raw, tree.Cap());
      }
      r := tree.Put(txn, key, raw);
    }

    /** The tree refused the record: give the pages back. */
    method RefusePut(txn: WriteTxn, body: Body, ghost chain: seq<PageId>)
      requires TxnStaged(txn, chain) && BodyOk(body, txn.base.pages, chain, env)
      modifies txn`newPages, txn`freedPages,
               tree.store`pages, tree.store`live, tree.store`freeList, tree.store`handed, tree.store`written
      ensures Valid() && View() == old(TxnView(txn, chain))
    {
      hide ToMap, Held, CacheRecords.View, Once, RootOk, Total, F.Ids, F.Elems, F.Distinct, PagesOf, RootBag,
           RootFlat, ChainPages, TxnGood, Grew, ChainLength, ChainBytes;
      tree.Abort(txn);
      HeldFrame(ToMap(Records()), txn.base.pages, tree.store.pages, chains, env);
      if body.Chained? {
        ChainFrame(txn.base.pages, tree.store.pages, chain);
        DropChain(body.root, chain, body.storedLen);
      } else {
        NoPages();
      }
    }

    /** The tree took the record: settle the totals, commit, and only then free the
        chain the displaced record named. */
    method AcceptPut(txn: WriteTxn, key: Key, raw: Value, originalLen: nat, displaced: Option<Value>, ghost chain: seq<PageId>)
      requires TxnStaged(txn, chain) && txn.intact && !Migration.IsReserved(key)
      requires RootFlat(txn.root, txn.shape) == Upsert(Records(), key, raw) && displaced == Find(Records(), key)
      requires RecordOk(raw, txn.base.pages, chain, env) && OriginalLen(raw) == originalLen
      modifies this, tree, txn`newPages, txn`freedPages,
               tree.store`pages, tree.store`live, tree.store`freeList, tree.store`handed, tree.store`written,
               tree.store`metaA, tree.store`metaB, tree.store`lastSlot, tree.store`committed
      ensures Valid() && issued == old(issued) && liveGeneration == old(liveGeneration)
      ensures tree.liveRoot == old(txn.root) && tree.liveShape == old(txn.shape)
      ensures View() == old(TxnView(txn, chain)[key := EntryOf(raw, txn.base.pages, chain, env)])
    {
      hide ToMap, Held, CacheRecords.View, Once, RootOk, Total, F.Ids, F.Elems, F.Distinct, PagesOf, RootBag,
           RootFlat, ChainPages, TxnGood, Grew, ValueCost, KeyCost, Parse, Upsert, Find, RecordOk, EntryOf, Apart, BodyOk,
           ChainLength, ChainBytes, Migration.IsReserved;
      ghost var s := Records();
      ghost var old' := if key in chains then chains[key] else [];
      RootSorted(tree.store.pages, tree.Cap(), tree.liveRoot, tree.liveShape);
      PutFacts(s, key, raw, txn.base.pages, chains, env, chain, tree.store.committed);
      var replaced, displacedLen, oldRoot := false, 0, 0;
      if displaced.Some? {
        OldChainFacts(displaced.value, txn.base.pages, chains[key], env);
        var parsed := Parse(displaced.value);
        if parsed.Ok? {
          replaced, displacedLen := true, parsed.value.originalLen;
          if parsed.value.body.Chained? {
            oldRoot := parsed.value.body.root;
          }
        }
      }
      ghost var len := if displaced.Some? then StoredLen(displaced.value) else 0;
      var bytes, keyBytes := storeBytes + originalLen, storeKeyBytes;
      if replaced {
        bytes := bytes - Min(displacedLen, bytes);
      } else {
        keyBytes := keyBytes + |key|;
      }
      CommitChange(txn, bytes, keyBytes, chain, chains[key := chain], F.Elems(old'));
      if oldRoot != 0 {
        assert Linked(tree.store.pages, old') by { ChainKept(txn.base.pages, tree.store.pages, old'); }
        DropChain(oldRoot, old', len);
      } else {
        NoPages();
      }
    }

    /** Store an entry under `key`. Either it is there, and every other key as it
        was, or (the tree refusing a record of its size) nothing has changed. Where
        every record so far takes at most half a page, no short key is refused. */
    method StoreEntry(key: Key, header: Header, value: seq<Byte>) returns (r: Result<()>)
      requires Valid() && !Migration.IsReserved(key)
      requires |value| <= env.maxValueBytes && |value| < 0x1_0000_0000
      requires tree.store.pageCount + ChainLength(|env.Stored(value).1|, Payload(env.pageSize)) < 0x1_0000_0000_0000_0000
      modifies this, tree, tree.store
      ensures Valid() && issued == old(issued) && liveGeneration == old(liveGeneration)
      ensures r.Ok? ==> View() == old(View())[key := CacheEntry(RoundedHeader(header), value)]
      ensures r.Err? ==> View() == old(View()) && storeBytes == old(storeBytes) && storeKeyBytes == old(storeKeyBytes)
      ensures r.Ok? <==> old(Takes(key, env.RecordBytes(value)))
      ensures r.Err? ==> r.error == ValueTooLarge && (old(Roomy()) ==> Roomy())
      ensures old(Roomy()) && env.ShortKey(key) ==> r.Ok? && Roomy()
    {
      hide ToMap, Held, CacheRecords.View, Once, RootOk, Total, F.Ids, F.Elems, F.Distinct, PagesOf, RootBag,
           Flat, ChainPages, TxnGood, Grew, ValueCost, KeyCost, Encode, Parse, Upsert, Find, Linked, ChainBytes,
           ChainLength, RecordOk, EntryOf, Apart, BodyOk, StoredBytes, RoundedHeader, Migration.IsReserved, SmallItem,
           TreeRuns.Roomy, PutWrites, Env.ShortKey, Env.RecordBytes, Env.Stored;
      var (codec, stored) := env.Stored(value);
      StoredReadsBack(env, value);
      var body;
      ghost var chain;
      body, chain := StageValue(stored);
      var record := Record(header, codec, |value|, body);
      NewRecord(record, value, tree.store.pages, chain, env, stored);
      var raw := Encode(record);
      NewRecordSize(record, value, tree.store.pages, chain, env, key, tree.liveRoot, tree.liveShape);
      var txn := tree.BeginWrite();
      var put := PutRecord(txn, key, raw);
      if put.Err? {
        RefusePut(txn, body, chain);
        return Err(put.error);
      }
      AcceptPut(txn, key, raw, |value|, put.value, chain);
      return Ok(());
    }

    /** Remove `key`, and free its chain once the commit no longer names it. */
    method EraseEntry(key: Key)
      requires Valid() && !Migration.IsReserved(key)
      modifies this, tree, tree.store
      ensures Valid() && issued == old(issued) && liveGeneration == old(liveGeneration)
      ensures View() == old(View()) - {key} && ToMap(Records()) == old(ToMap(Records())) - {key}
      ensures old(Roomy()) ==> Roomy()
    {
      hide ToMap, Held, CacheRecords.View, Once, RootOk, Total, F.Ids, F.Elems, F.Distinct, PagesOf, RootBag,
           RootFlat, ChainPages, TxnGood, Grew, ValueCost, KeyCost, Parse, Remove, Find, RecordOk, Apart, BodyOk,
           ChainLength, ChainBytes, Migration.IsReserved, Small;
      ghost var s := Records();
      ghost var old' := if key in chains then chains[key] else [];
      RootSorted(tree.store.pages, tree.Cap(), tree.liveRoot, tree.liveShape);
      EraseFacts(s, key, tree.store.pages, chains, env);
      var got := TreeReads.Get(tree.store, tree.liveRoot, key, tree.liveShape) by {
        assert TreeReads.Proper(tree.store.pages, tree.liveRoot, tree.liveShape) by {
          ProperRoot(tree.store.pages, tree.Cap(), tree.liveRoot, tree.liveShape);
        }
      }
      var bytes, keyBytes, oldRoot := storeBytes, storeKeyBytes, 0;
      if got.value.Some? {
        OldChainFacts(got.value.value, tree.store.pages, chains[key], env);
        var record := Parse(got.value.value).value;
        bytes := bytes - Min(record.originalLen, bytes);
        keyBytes := keyBytes - Min(|key|, keyBytes);
        if record.body.Chained? {
          oldRoot := record.body.root;
        }
      }
      ghost var len := if got.value.Some? then StoredLen(got.value.value) else 0;
      assert tree.store.handed == {} && tree.store.written == {} by { NothingLoose(tree.store); }
      NoPages();
      var txn := tree.BeginWrite();
      var erased := tree.Erase(txn, key);
      CommitChange(txn, bytes, keyBytes, [], chains - {key}, F.Elems(old'));
      if oldRoot != 0 {
        assert Linked(tree.store.pages, old') by { ChainKept(txn.base.pages, tree.store.pages, old'); }
        DropChain(oldRoot, old', len);
      }
    }

    /** The entry under `key`: inline or chained, compressed or not, its plaintext. */
    method LoadEntry(key: Key) returns (r: Result<Option<CacheEntry>>)
      requires Valid() && !Migration.IsReserved(key)
      ensures r == Ok(if key in View() then Some(View()[key]) else None)
    {
      hide ToMap, Once, RootOk, Total, F.Ids, F.Elems, F.Distinct, PagesOf, RootBag, RootFlat, ChainPages, Parse, Find,
           ChainLength, ChainBytes, Migration.IsReserved, Linked, Apart, Migration.OwnRecords;
      RootSorted(tree.store.pages, tree.Cap(), tree.liveRoot, tree.liveShape);
      FindIsLookup(Records(), key);
      FindOwned(ToMap(Records()), tree.store.pages, chains, env, key);
      ProperRoot(tree.store.pages, tree.Cap(), tree.liveRoot, tree.liveShape);
      var got := TreeReads.Get(tree.store, tree.liveRoot, key, tree.liveShape);
      if got.value.None? {
        return Ok(None);
      }
      var raw := got.value.value;
      assert RecordOk(raw, tree.store.pages, chains[key], env);
      var record := Parse(raw).value;
      var stored: seq<Byte>;
      match record.body {
        case Inline(bytes) => stored := bytes;
        case Chained(root, storedLen) =>
          var value := ReadChain(tree.store, root, storedLen, env.maxValueBytes, chains[key]);
          stored := value.value;
      }
      if record.codec == IDENTITY {
        return Ok(Some(CacheEntry(record.header, stored)));
      }
      if env.maxValueBytes != 0 && record.originalLen > env.maxValueBytes {
        return Err(Corrupt);
      }
      var plain := env.decompress(record.codec, stored, record.originalLen);
      return Ok(Some(CacheEntry(record.header, plain.value)));
    }

    /** A token this session has not issued before, until the counter wraps. */
    method NextCas() returns (cas: U64)
      requires Valid()
      modifies `nextCas, `issued
      ensures Valid() && View() == old(View()) && Records() == old(Records())
      ensures issued == old(issued) + [cas]
      ensures |issued| <= TOKENS ==> cas !in old(issued)
    {
      hide ToMap, Held, CacheRecords.View, Once, RootOk, Total, PagesOf, RootBag, RootFlat, ChainPages;
      TokensDiffer(issued, nextCas);
      NextToken(issued, nextCas);
      cas := nextCas;
      nextCas := (nextCas + 1) % TOKENS;
      issued := issued + [cas];
    }

    /** Change an entry's metadata in place: the record is rewritten around the same
        stored bytes or the same chain. An entry that has lapsed is reclaimed. */
    method UpdateMetadata(key: Key, now: Time, mutate: Header -> Header) returns (r: Result<U64>)
      requires Valid() && !Migration.IsReserved(key)
      modifies this, tree, tree.store
      ensures Valid() && liveGeneration == old(liveGeneration)
      ensures var view := old(View());
              if key !in view then r == Err(KeyNotFound) && View() == view
              else if view[key].header.expiry <= now || view[key].header.generation < liveGeneration
              then r == Err(KeyNotFound) && View() == view - {key}
              else && r.Ok? && issued == old(issued) + [r.value]
                   && View() == view[key := CacheEntry(RoundedHeader(mutate(view[key].header).(cas := r.value)), view[key].value)]
      ensures r.Err? ==> issued == old(issued)
      ensures old(Roomy()) ==> Roomy()
    {
      hide ToMap, Held, CacheRecords.View, Once, RootOk, Total, F.Ids, F.Elems, F.Distinct, PagesOf, RootBag,
           Flat, ChainPages, TxnGood, Grew, ValueCost, KeyCost, Encode, Parse, Upsert, Find, Linked, ChainBytes,
           ChainLength, Accepts, Small, RecordOk, EntryOf, Apart, BodyOk, StoredBytes, RoundedHeader, Migration.IsReserved;
      ghost var s := Records();
      RootSorted(tree.store.pages, tree.Cap(), tree.liveRoot, tree.liveShape);
      FindIsLookup(s, key);
      FindOwned(ToMap(s), tree.store.pages, chains, env, key);
      ProperRoot(tree.store.pages, tree.Cap(), tree.liveRoot, tree.liveShape);
      var got := TreeReads.Get(tree.store, tree.liveRoot, key, tree.liveShape);
      ViewAt(ToMap(s), tree.store.pages, chains, env, key);
      if got.value.None? {
        return Err(KeyNotFound);
      }
      var record := Parse(got.value.value).value;
      if record.header.expiry <= now || record.header.generation < liveGeneration {
        EraseEntry(key);
        return Err(KeyNotFound);
      }
      var cas := NextCas();
      var updated := record.(header := mutate(record.header).(cas := cas));
      RewriteRecord(key, record, updated);
      return Ok(cas);
    }

    /** Put a record back with another header. It takes no more bytes than it did, so
        the tree writes it. */
    method RewriteRecord(key: Key, record: Record, updated: Record)
      requires Valid() && !Migration.IsReserved(key) && key in chains && key in ToMap(Records())
      requires Parse(ToMap(Records())[key]) == Ok(record) && updated == record.(header := updated.header)
      modifies this, tree, tree.store
      ensures Valid() && issued == old(issued) && liveGeneration == old(liveGeneration)
      ensures key in old(View())
      ensures View() == old(View())[key := CacheEntry(RoundedHeader(updated.header), old(View())[key].value)]
      ensures old(Roomy()) ==> Roomy()
    {
      hide ToMap, Held, CacheRecords.View, Once, RootOk, Total, F.Ids, F.Elems, F.Distinct, PagesOf, RootBag,
           Flat, ChainPages, TxnGood, Grew, ValueCost, KeyCost, Encode, Parse, Upsert, Find, Linked, ChainBytes,
           ChainLength, Accepts, Small, RecordOk, EntryOf, Apart, BodyOk, StoredBytes, RoundedHeader, Migration.IsReserved;
      ghost var s := Records();
      RootSorted(tree.store.pages, tree.Cap(), tree.liveRoot, tree.liveShape);
      FindIsLookup(s, key);
      ViewAt(ToMap(s), tree.store.pages, chains, env, key);
      MetadataFacts(s, key, record, updated, tree.store.pages, chains, env);
      assert tree.store.handed == {} && tree.store.written == {} by { NothingLoose(tree.store); }
      NoPages();
      var txn := tree.BeginWrite();
      ShorterIsSmall(ToMap(s), key, updated, tree.liveRoot, tree.liveShape, tree.Cap());
      var put := PutRecord(txn, key, Encode(updated));
      CommitChange(txn, storeBytes, storeKeyBytes, [], chains, {});
    }
  }

  lemma ProperRoot(pages: map<PageId, Node>, cap: nat, root: PageId, shape: Tree)
    requires RootOk(pages, cap, root, shape, None, None)
    ensures TreeReads.Proper(pages, root, shape)
  {
  }

  /** A record of `size` bytes, whichever. */
  ghost function Blank(size: nat): (raw: Value)
    ensures |raw| == size
  {
    seq(size, _ => 0)
  }

  lemma RewriteIsWritten(pages: map<PageId, Node>, root: PageId, shape: Tree, key: Key, raw: Value, cap: nat)
    requires RootOk(pages, cap, root, shape, None, None)
    requires Find(RootFlat(root, shape), key).Some? && |raw| <= |Find(RootFlat(root, shape), key).value|
    ensures PutWrites(root, shape, key, raw, cap)
  {
    hide PutShape, Rep, Ordered, Fits, Flat;
    RewriteStays(pages, shape, None, None, key, raw, cap);
  }

  /** The record takes what its value says, and with a short key half a page at most. */
  lemma NewRecordSize(r: Record, value: seq<Byte>, pages: map<PageId, Node>, chain: seq<PageId>, env: Env, key: Key,
                      root: PageId, shape: Tree)
    requires Encodable(r) && StoredBytes(r.body, pages, chain) == env.Stored(value).1
    requires r.body.Inline? <==> |env.Stored(value).1| <= env.InlineLimit()
    ensures |Encode(r)| == env.RecordBytes(value)
    ensures env.pageSize > OVERFLOW_HEADER_SIZE && env.ShortKey(key)
            && TreeRuns.Roomy(root, shape, PagePayloadCapacity(env.pageSize))
            ==> SmallItem(Entry(key, Encode(r)), PagePayloadCapacity(env.pageSize))
  {
    hide Encode;
    EncodedSize(r);
  }

  lemma ShorterIsSmall(m: map<Key, Value>, key: Key, updated: Record, root: PageId, shape: Tree, cap: nat)
    requires key in m && Parse(m[key]).Ok? && updated == Parse(m[key]).value.(header := updated.header)
    requires m == ToMap(RootFlat(root, shape))
    ensures Encodable(updated) && |Encode(updated)| <= |m[key]|
    ensures TreeRuns.Roomy(root, shape, cap) ==> SmallItem(Entry(key, Encode(updated)), cap)
  {
    hide Encode, Parse, ToMap;
    ReencodedSize(m[key], updated.header);
    assert TreeRuns.Roomy(root, shape, cap) ==> SmallItem(Entry(key, m[key]), cap);
  }

  lemma ViewAt(m: map<Key, Value>, pages: map<PageId, Node>, chains: map<Key, seq<PageId>>, env: Env, key: Key)
    requires env.Lawful() && Held(m, pages, chains, env)
    ensures key in CacheRecords.View(m, pages, chains, env) <==> key in chains
    ensures key in chains ==>
              && key in m && Parse(m[key]).Ok?
              && CacheRecords.View(m, pages, chains, env)[key].header == Parse(m[key]).value.header
  {
    hide Parse;
  }

  /** What erasing `key` changes. */
  lemma EraseFacts(s: seq<Entry>, key: Key, pages: map<PageId, Node>, chains: map<Key, seq<PageId>>, env: Env)
    requires Sorted(s) && env.Lawful() && Held(ToMap(s), pages, chains, env) && !Migration.IsReserved(key)
    ensures ToMap(Remove(s, key)) == ToMap(s) - {key}
    ensures Held(ToMap(Remove(s, key)), pages, chains - {key}, env)
    ensures CacheRecords.View(ToMap(Remove(s, key)), pages, chains - {key}, env) ==
            CacheRecords.View(ToMap(s), pages, chains, env) - {key}
    ensures var was := Find(s, key);
            && (was.Some? <==> key in chains)
            && (was.Some? ==> Parse(was.value).Ok? && OldChain(was.value, pages, chains[key], env))
            && Total(Remove(s, key), ValueCost) + (if was.Some? then OriginalLen(was.value) else 0) == Total(s, ValueCost)
            && Total(Remove(s, key), KeyCost) + (if was.Some? then |key| else 0) == Total(s, KeyCost)
    ensures var gone := if key in chains then F.Elems(chains[key]) else F.Elems([]);
            gone <= ChainPages(chains) && ChainPages(chains - {key}) == ChainPages(chains) - gone + F.Elems([])
  {
    hide Lt, ToMap, Remove, Find, RecordOk, F.Elems, Migration.IsReserved, Parse, Total, CacheRecords.View;
    RemoveIsDeletion(s, key);
    FindIsLookup(s, key);
    FindOwned(ToMap(s), pages, chains, env, key);
    ChainPagesSplit(chains, key, []);
    NoPages();
    HeldAfterErase(ToMap(s), pages, chains, env, key);
    TotalRemove(s, key, ValueCost);
    TotalRemove(s, key, KeyCost);
  }

  /** Rewriting a record's header keeps its chain, its value and the totals. */
  lemma MetadataFacts(s: seq<Entry>, key: Key, record: Record, updated: Record, pages: map<PageId, Node>,
                      chains: map<Key, seq<PageId>>, env: Env)
    requires Sorted(s) && env.Lawful() && Held(ToMap(s), pages, chains, env) && !Migration.IsReserved(key)
    requires key in chains && key in ToMap(s) && Parse(ToMap(s)[key]) == Ok(record) && updated == record.(header := updated.header)
    ensures Encodable(updated)
    ensures var raw := Encode(updated);
            && Held(ToMap(Upsert(s, key, raw)), pages, chains, env)
            && CacheRecords.View(ToMap(Upsert(s, key, raw)), pages, chains, env) ==
               CacheRecords.View(ToMap(s), pages, chains, env)
                 [key := CacheEntry(RoundedHeader(updated.header), CacheRecords.View(ToMap(s), pages, chains, env)[key].value)]
            && Total(Upsert(s, key, raw), ValueCost) == Total(s, ValueCost)
            && Total(Upsert(s, key, raw), KeyCost) == Total(s, KeyCost)
  {
    hide Lt, ToMap, Upsert, Find, F.Elems, Migration.IsReserved, Parse, Encode, Total, RecordOk, EntryOf, Migration.OwnRecords,
         RoundedHeader;
    var m, chain := ToMap(s), chains[key];
    UpdatedRecord(m[key], record, updated, pages, chain, env);
    var raw := Encode(updated);
    UpsertIsUpdate(s, key, raw);
    FindIsLookup(s, key);
    assert chains[key := chain] == chains;
    HeldAfterPut(m, pages, chains, env, key, raw, chain);
    TotalUpsert(s, key, raw, ValueCost);
    TotalUpsert(s, key, raw, KeyCost);
  }

  /** The same record under another header: the same chain, value and length. */
  lemma UpdatedRecord(was: Value, record: Record, updated: Record, pages: map<PageId, Node>, chain: seq<PageId>, env: Env)
    requires env.Lawful() && RecordOk(was, pages, chain, env)
    requires Parse(was) == Ok(record) && updated == record.(header := updated.header)
    ensures Encodable(updated) && RecordOk(Encode(updated), pages, chain, env)
    ensures EntryOf(Encode(updated), pages, chain, env) ==
            CacheEntry(RoundedHeader(updated.header), EntryOf(was, pages, chain, env).value)
    ensures OriginalLen(Encode(updated)) == OriginalLen(was)
  {
    hide Parse, Encode, ChainBytes, Linked, Rounded, F.Distinct, ChainLength;
    Migration.ParsedIsEncodable(Migration.CURRENT_VERSION, was);
    RecordRoundTrip(updated);
  }

  /** The record a value is stored as reads back as that value. */
  lemma NewRecord(r: Record, value: seq<Byte>, pages: map<PageId, Node>, chain: seq<PageId>, env: Env, stored: seq<Byte>)
    requires env.Lawful() && BodyOk(r.body, pages, chain, env) && StoredBytes(r.body, pages, chain) == stored
    requires env.Plain(r.codec, stored, |value|) == Some(value) && r.originalLen == |value| <= env.maxValueBytes
    requires |value| < 0x1_0000_0000 && |stored| <= |value|
    ensures Encodable(r) && RecordOk(Encode(r), pages, chain, env) && OriginalLen(Encode(r)) == |value|
    ensures EntryOf(Encode(r), pages, chain, env) == CacheEntry(RoundedHeader(r.header), value)
  {
    hide Encode, Parse, ChainBytes, Linked, ChainLength, Rounded;
    RecordRoundTrip(r);
  }

  ghost function StoredLen(raw: Value): nat {
    if Parse(raw).Ok? && Parse(raw).value.body.Chained? then Parse(raw).value.body.storedLen else 0
  }

  /** What putting a record over `key` changes: the map, the totals, and the chain
      that is left behind. */
  lemma PutFacts(s: seq<Entry>, key: Key, raw: Value, pages: map<PageId, Node>, chains: map<Key, seq<PageId>>, env: Env,
                 chain: seq<PageId>, committed: set<PageId>)
    requires Sorted(s) && env.Lawful() && Held(ToMap(s), pages, chains, env) && !Migration.IsReserved(key)
    requires RecordOk(raw, pages, chain, env) && F.Elems(chain) !! committed && ChainPages(chains) <= committed
    ensures ToMap(Upsert(s, key, raw)) == ToMap(s)[key := raw]
    ensures Held(ToMap(Upsert(s, key, raw)), pages, chains[key := chain], env)
    ensures CacheRecords.View(ToMap(Upsert(s, key, raw)), pages, chains[key := chain], env) ==
            CacheRecords.View(ToMap(s), pages, chains, env)[key := EntryOf(raw, pages, chain, env)]
    ensures var was := Find(s, key);
            && (was.Some? <==> key in chains)
            && (was.Some? ==> Parse(was.value).Ok? && OldChain(was.value, pages, chains[key], env))
            && Total(Upsert(s, key, raw), ValueCost) + (if was.Some? then OriginalLen(was.value) else 0) ==
               Total(s, ValueCost) + OriginalLen(raw)
            && Total(Upsert(s, key, raw), KeyCost) == Total(s, KeyCost) + if was.Some? then 0 else |key|
    ensures var gone := if key in chains then F.Elems(chains[key]) else F.Elems([]);
            gone <= ChainPages(chains) && ChainPages(chains[key := chain]) == ChainPages(chains) - gone + F.Elems(chain)
  {
    hide Lt, ToMap, Upsert, Find, RecordOk, EntryOf, F.Elems, Migration.IsReserved, Parse, Total, CacheRecords.View;
    UpsertIsUpdate(s, key, raw);
    FindIsLookup(s, key);
    FindOwned(ToMap(s), pages, chains, env, key);
    ChainPagesSplit(chains, key, chain);
    NoPages();
    forall k | k in chains && k != key ensures F.Elems(chain) !! F.Elems(chains[k]) {
      ChainPagesSplit(chains, k, []);
    }
    HeldAfterPut(ToMap(s), pages, chains, env, key, raw, chain);
    TotalUpsert(s, key, raw, ValueCost);
    TotalUpsert(s, key, raw, KeyCost);
  }

  /** The chain a displaced record leaves behind. */
  ghost predicate OldChain(raw: Value, pages: map<PageId, Node>, chain: seq<PageId>, env: Env)
    requires env.pageSize > OVERFLOW_HEADER_SIZE
  {
    Parse(raw).Ok? && BodyOk(Parse(raw).value.body, pages, chain, env)
  }

  lemma OldChainFacts(raw: Value, pages: map<PageId, Node>, chain: seq<PageId>, env: Env)
    requires env.pageSize > OVERFLOW_HEADER_SIZE && OldChain(raw, pages, chain, env)
    ensures var body := Parse(raw).value.body;
            if body.Inline? then chain == []
            else && Linked(pages, chain) && F.Distinct(chain) && chain != [] && chain[0] == body.root != 0
                 && StoredLen(raw) <= env.maxValueBytes && |chain| == ChainLength(StoredLen(raw), Payload(env.pageSize))
  {
  }

  lemma FindOwned(m: map<Key, Value>, pages: map<PageId, Node>, chains: map<Key, seq<PageId>>, env: Env, key: Key)
    requires env.Lawful() && Held(m, pages, chains, env) && !Migration.IsReserved(key)
    ensures key in m <==> key in chains
    ensures key in m ==> OldChain(m[key], pages, chains[key], env)
  {
    hide Parse, Migration.IsReserved, BodyOk;
    assert key in m <==> key in Migration.OwnRecords(m);
  }

  lemma ChainKept(pages: map<PageId, Node>, pages': map<PageId, Node>, chain: seq<PageId>)
    requires Linked(pages, chain)
    requires forall p | p in F.Elems(chain) && p in pages :: p in pages' && pages'[p] == pages[p]
    ensures Linked(pages', chain)
  {
    forall i | 0 <= i < |chain| ensures chain[i] in F.Elems(chain) {
    }
  }

  /** After the commit: what is live is what is committed and the pages gone from
      the records. */
  lemma CommitPages(was: set<PageId>, values: set<PageId>, fresh': set<PageId>, made: set<PageId>, freed: set<PageId>,
                    gone: set<PageId>, live: set<PageId>, committed: set<PageId>)
    requires live == was + values + fresh' + made - freed
    requires committed == (was + made - freed) + (values - gone + fresh')
    requires gone <= values && was !! values && fresh' !! was + values
    requires made !! was + values + fresh' && freed <= was + made
    ensures live == committed + gone && gone !! committed
    ensures freed !! values + fresh'
  {
  }

  lemma KeptPages(pages: map<PageId, Node>, pages': map<PageId, Node>, ids: seq<PageId>, keep: set<PageId>)
    requires F.Elems(ids) !! keep
    requires forall p | p in pages && p !in ids :: p in pages' && pages'[p] == pages[p]
    ensures forall p | p in keep && p in pages :: p in pages' && pages'[p] == pages[p]
  {
  }

  /** The tree and the records stand while pages outside them change. */
  lemma StoreFrame(m: map<Key, Value>, pages: map<PageId, Node>, pages': map<PageId, Node>, chains: map<Key, seq<PageId>>,
                   env: Env, cap: nat, root: PageId, shape: Tree, committed: set<PageId>, gone: set<PageId>)
    requires env.Lawful() && Held(m, pages, chains, env) && RootOk(pages, cap, root, shape, None, None)
    requires PagesOf(RootBag(root, shape)) + ChainPages(chains) <= committed && gone !! committed
    requires forall p | p in pages && p !in gone :: p in pages' && pages'[p] == pages[p]
    ensures RootOk(pages', cap, root, shape, None, None)
    ensures Held(m, pages', chains, env)
    ensures CacheRecords.View(m, pages', chains, env) == CacheRecords.View(m, pages, chains, env)
  {
    hide Held, CacheRecords.View, Ordered, Fits, RootBag;
    HeldFrame(m, pages, pages', chains, env);
    if root != 0 {
      forall p | p in Bag(shape) && p in pages ensures p in pages' && pages'[p] == pages[p] {
        assert p in PagesOf(RootBag(root, shape)) by { InRootBag(root, shape, p); }
      }
      RepFrame(pages, pages', shape);
    }
  }

  lemma PagesSplit(tree: CowTree)
    requires tree.Valid()
    ensures tree.store.committed == PagesOf(RootBag(tree.liveRoot, tree.liveShape)) + tree.values
    ensures PagesOf(RootBag(tree.liveRoot, tree.liveShape)) !! tree.values
  {
  }

  lemma TxnPagesSplit(tree: CowTree, txn: WriteTxn)
    requires tree.TxnOpen(txn)
    ensures tree.store.committed == PagesOf(RootBag(tree.liveRoot, tree.liveShape)) + tree.values
    ensures PagesOf(RootBag(tree.liveRoot, tree.liveShape)) !! tree.values
  {
    hide Grew, TxnGood;
    PagesSplit(tree);
  }

  lemma NothingLoose(store: PageStore)
    requires store.Valid() && store.live == store.committed
    ensures store.handed == {} && store.written == {}
  {
  }

  lemma NoPages()
    ensures F.Elems([]) == {}
  {
  }

  lemma InRootBag(root: PageId, shape: Tree, p: PageId)
    requires root != 0 && p in Bag(shape)
    ensures p in PagesOf(RootBag(root, shape))
  {
  }
}
