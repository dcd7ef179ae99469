/** What the cache store's records mean: which pages each one owns, which entry it
    stands for, and what the running totals add up. */
module CacheRecords {
  import opened Wrappers
  import opened Keys
  import opened TreeModel
  import opened Records
  import opened PageSizes
  import opened OverflowChains
  import F = FreeListPages
  import Migration

  /** A cache entry as callers see it. */
  datatype CacheEntry = CacheEntry(header: Header, value: seq<Byte>)

  /** Options, with the codec as a pair of functions. */
  datatype Env = Env(pageSize: nat, maxValueBytes: nat, compression: U8, compressionMinBytes: nat,
                     compress: seq<Byte> -> seq<Byte>, decompress: (U8, seq<Byte>, nat) -> Option<seq<Byte>>)
  {
    /** Decompressing undoes compressing. */
    ghost predicate Lawful() {
      && pageSize > OVERFLOW_HEADER_SIZE
      && (compression != IDENTITY ==> forall v :: decompress(compression, compress(v), |v|) == Some(v))
    }

    function InlineLimit(): nat {
      pageSize / 4
    }

    /** Which codec and bytes a value is stored under: compressed only when that
        is both asked for and smaller. */
    function Stored(value: seq<Byte>): (U8, seq<Byte>) {
      if compression != IDENTITY && |value| >= compressionMinBytes then
        var c := compress(value);
        if c != [] && |c| < |value| then (compression, c) else (IDENTITY, value)
      else (IDENTITY, value)
    }

    /** What the record of a value takes: its bytes inline, or a descriptor. */
    function RecordBytes(value: seq<Byte>): nat {
      if |Stored(value).1| <= InlineLimit() then 47 + |Stored(value).1| else 63
    }

    /** A key so short that its record, which holds at most a quarter page of value,
        takes at most half a page. */
    predicate ShortKey(key: Key)
      requires pageSize > OVERFLOW_HEADER_SIZE
    {
      && |key| <= MAX_KEY_LENGTH
      && 2 * LeafEntryBytes(|key|, 47 + InlineLimit()) <= PagePayloadCapacity(pageSize)
      && 2 * LeafEntryBytes(|key|, 63) <= PagePayloadCapacity(pageSize)
    }

    /** The plaintext of stored bytes. */
    function Plain(codec: U8, stored: seq<Byte>, originalLen: nat): Option<seq<Byte>> {
      if codec == IDENTITY then Some(stored) else decompress(codec, stored, originalLen)
    }
  }

  /** What is stored reads back, and is the smaller of the value and its compressed
      form where compression is asked for and gives anything. */
  lemma StoredReadsBack(env: Env, value: seq<Byte>)
    requires env.Lawful()
    ensures var (codec, stored) := env.Stored(value);
            && env.Plain(codec, stored, |value|) == Some(value) && |stored| <= |value|
            && if env.compression != IDENTITY && |value| >= env.compressionMinBytes && env.compress(value) != []
               then |stored| == Min(|value|, |env.compress(value)|)
               else stored == value
  {
  }

  /** Pages of 2 KiB and more take any key of the memcached protocol. */
  lemma ProtocolKeysAreShort(env: Env, key: Key)
    requires env.pageSize >= 2048 && |key| <= 250
    ensures env.ShortKey(key)
  {
  }

  // ---- One record ----

  ghost function StoredBytes(b: Body, pages: map<PageId, Node>, chain: seq<PageId>): seq<Byte> {
    if b.Inline? then b.stored else ChainBytes(pages, chain)
  }

  ghost predicate BodyOk(b: Body, pages: map<PageId, Node>, chain: seq<PageId>, env: Env)
    requires env.pageSize > OVERFLOW_HEADER_SIZE
  {
    if b.Inline? then chain == []
    else && Linked(pages, chain) && F.Distinct(chain) && chain[0] == b.root
         && |ChainBytes(pages, chain)| == b.storedLen <= env.maxValueBytes
         && |chain| == ChainLength(b.storedLen, Payload(env.pageSize))
  }

  /** The record reads, owns `chain`, and its value decompresses to what it says. */
  ghost predicate RecordOk(raw: Value, pages: map<PageId, Node>, chain: seq<PageId>, env: Env)
    requires env.pageSize > OVERFLOW_HEADER_SIZE
  {
    && Parse(raw).Ok?
    && var r := Parse(raw).value;
       && r.originalLen <= env.maxValueBytes && BodyOk(r.body, pages, chain, env)
       && env.Plain(r.codec, StoredBytes(r.body, pages, chain), r.originalLen).Some?
       && |env.Plain(r.codec, StoredBytes(r.body, pages, chain), r.originalLen).value| == r.originalLen
  }

  ghost function EntryOf(raw: Value, pages: map<PageId, Node>, chain: seq<PageId>, env: Env): CacheEntry
    requires env.pageSize > OVERFLOW_HEADER_SIZE && RecordOk(raw, pages, chain, env)
  {
    var r := Parse(raw).value;
    CacheEntry(r.header, env.Plain(r.codec, StoredBytes(r.body, pages, chain), r.originalLen).value)
  }

  lemma RecordFrame(raw: Value, pages: map<PageId, Node>, pages': map<PageId, Node>, chain: seq<PageId>, env: Env)
    requires env.pageSize > OVERFLOW_HEADER_SIZE && RecordOk(raw, pages, chain, env)
    requires forall p | p in chain && p in pages :: p in pages' && pages'[p] == pages[p]
    ensures RecordOk(raw, pages', chain, env) && EntryOf(raw, pages', chain, env) == EntryOf(raw, pages, chain, env)
  {
    hide Parse, ChainLength;
    var r := Parse(raw).value;
    if r.body.Chained? {
      ChainFrame(pages, pages', chain);
    }
  }

  // ---- All of them ----

  ghost predicate Apart(chains: map<Key, seq<PageId>>) {
    forall j, k | j in chains && k in chains && j != k :: F.Elems(chains[j]) !! F.Elems(chains[k])
  }

  ghost function ChainPages(chains: map<Key, seq<PageId>>): set<PageId> {
    set k, p | k in chains && p in chains[k] :: p
  }

  /** Every cache record is whole, and no page belongs to two of them. */
  ghost predicate Held(m: map<Key, Value>, pages: map<PageId, Node>, chains: map<Key, seq<PageId>>, env: Env)
    requires env.pageSize > OVERFLOW_HEADER_SIZE
  {
    && chains.Keys == Migration.OwnRecords(m).Keys
    && Apart(chains)
    && forall k | k in chains :: k in m && RecordOk(m[k], pages, chains[k], env)
  }

  /** The store as a map of entries. */
  ghost function View(m: map<Key, Value>, pages: map<PageId, Node>, chains: map<Key, seq<PageId>>, env: Env)
    : map<Key, CacheEntry>
    requires env.pageSize > OVERFLOW_HEADER_SIZE && Held(m, pages, chains, env)
  {
    map k | k in chains :: EntryOf(m[k], pages, chains[k], env)
  }

  /** Pages outside the chains do not matter. */
  lemma HeldFrame(m: map<Key, Value>, pages: map<PageId, Node>, pages': map<PageId, Node>, chains: map<Key, seq<PageId>>, env: Env)
    requires env.pageSize > OVERFLOW_HEADER_SIZE && Held(m, pages, chains, env)
    requires forall p | p in ChainPages(chains) && p in pages :: p in pages' && pages'[p] == pages[p]
    ensures Held(m, pages', chains, env) && View(m, pages', chains, env) == View(m, pages, chains, env)
  {
    hide RecordOk, EntryOf;
    forall k | k in chains
      ensures RecordOk(m[k], pages', chains[k], env)
      ensures EntryOf(m[k], pages', chains[k], env) == EntryOf(m[k], pages, chains[k], env)
    {
      assert forall p | p in chains[k] :: p in ChainPages(chains);
      RecordFrame(m[k], pages, pages', chains[k], env);
    }
  }

  lemma OwnAfterPut(m: map<Key, Value>, key: Key, raw: Value)
    requires !Migration.IsReserved(key)
    ensures Migration.OwnRecords(m[key := raw]).Keys == Migration.OwnRecords(m).Keys + {key}
  {
    hide Migration.IsReserved;
  }

  /** Storing one key: it takes the new record, every other key is untouched. */
  lemma HeldAfterPut(m: map<Key, Value>, pages: map<PageId, Node>, chains: map<Key, seq<PageId>>, env: Env,
                     key: Key, raw: Value, chain: seq<PageId>)
    requires env.pageSize > OVERFLOW_HEADER_SIZE && Held(m, pages, chains, env) && !Migration.IsReserved(key)
    requires RecordOk(raw, pages, chain, env)
    requires forall k | k in chains && k != key :: F.Elems(chain) !! F.Elems(chains[k])
    ensures Held(m[key := raw], pages, chains[key := chain], env)
    ensures View(m[key := raw], pages, chains[key := chain], env) ==
            View(m, pages, chains, env)[key := EntryOf(raw, pages, chain, env)]
  {
    hide RecordOk, EntryOf, Migration.IsReserved, F.Elems, Migration.OwnRecords;
    PutHeld(m, pages, chains, env, key, raw, chain);
    var m', chains' := m[key := raw], chains[key := chain];
    forall k | k in chains' ensures View(m', pages, chains', env)[k] ==
                                    View(m, pages, chains, env)[key := EntryOf(raw, pages, chain, env)][k]
    {
      if k != key {
        assert m'[k] == m[k] && chains'[k] == chains[k];
      }
    }
  }

  lemma PutHeld(m: map<Key, Value>, pages: map<PageId, Node>, chains: map<Key, seq<PageId>>, env: Env,
                key: Key, raw: Value, chain: seq<PageId>)
    requires env.pageSize > OVERFLOW_HEADER_SIZE && Held(m, pages, chains, env) && !Migration.IsReserved(key)
    requires RecordOk(raw, pages, chain, env)
    requires forall k | k in chains && k != key :: F.Elems(chain) !! F.Elems(chains[k])
    ensures Held(m[key := raw], pages, chains[key := chain], env)
  {
    hide RecordOk, Migration.IsReserved, F.Elems, Migration.OwnRecords;
    var m', chains' := m[key := raw], chains[key := chain];
    OwnAfterPut(m, key, raw);
    forall j, k | j in chains' && k in chains' && j != k ensures F.Elems(chains'[j]) !! F.Elems(chains'[k]) {
    }
    forall k | k in chains' ensures k in m' && RecordOk(m'[k], pages, chains'[k], env) {
    }
  }

  lemma HeldAfterErase(m: map<Key, Value>, pages: map<PageId, Node>, chains: map<Key, seq<PageId>>, env: Env, key: Key)
    requires env.pageSize > OVERFLOW_HEADER_SIZE && Held(m, pages, chains, env) && !Migration.IsReserved(key)
    ensures Held(m - {key}, pages, chains - {key}, env)
    ensures View(m - {key}, pages, chains - {key}, env) == View(m, pages, chains, env) - {key}
  {
    hide RecordOk, EntryOf, Migration.IsReserved;
    assert Migration.OwnRecords(m - {key}).Keys == Migration.OwnRecords(m).Keys - {key};
  }

  /** The chain pages of the other keys, and those of one key. */
  lemma ChainPagesSplit(chains: map<Key, seq<PageId>>, key: Key, chain: seq<PageId>)
    requires Apart(chains)
    ensures key in chains ==> ChainPages(chains - {key}) == ChainPages(chains) - F.Elems(chains[key])
    ensures key in chains ==> F.Elems(chains[key]) <= ChainPages(chains)
    ensures key !in chains ==> chains - {key} == chains
    ensures ChainPages(chains[key := chain]) == ChainPages(chains - {key}) + F.Elems(chain)
  {
    var rest := chains - {key};
    forall p | p in ChainPages(chains[key := chain]) ensures p in ChainPages(rest) + F.Elems(chain) {
      var k :| k in chains[key := chain] && p in chains[key := chain][k];
      if k != key {
        assert k in rest && p in rest[k];
      }
    }
    forall p | p in ChainPages(rest) + F.Elems(chain) ensures p in ChainPages(chains[key := chain]) {
      if p in F.Elems(chain) {
        assert key in chains[key := chain] && p in chains[key := chain][key];
      } else {
        var k :| k in rest && p in rest[k];
        assert k in chains[key := chain] && p in chains[key := chain][k];
      }
    }
    if key in chains {
      forall p | p in ChainPages(rest) ensures p in ChainPages(chains) - F.Elems(chains[key]) {
        var k :| k in rest && p in rest[k];
        assert k in chains && p in chains[k] && p in F.Elems(chains[k]);
        assert p in ChainPages(chains);
      }
      forall p | p in ChainPages(chains) - F.Elems(chains[key]) ensures p in ChainPages(rest) {
        var k :| k in chains && p in chains[k];
        assert k in rest && p in rest[k];
      }
    }
  }

  // ---- Totals ----

  function OriginalLen(raw: Value): nat {
    if Parse(raw).Ok? then Parse(raw).value.originalLen else 0
  }

  function ValueCost(e: Entry): nat {
    if Migration.IsReserved(e.key) then 0 else OriginalLen(e.value)
  }

  function KeyCost(e: Entry): nat {
    if Migration.IsReserved(e.key) then 0 else |e.key|
  }

  ghost function Total(s: seq<Entry>, cost: Entry -> nat): nat {
    if s == [] then 0 else cost(s[0]) + Total(s[1..], cost)
  }

  lemma {:induction false} TotalUpsert(s: seq<Entry>, k: Key, v: Value, cost: Entry -> nat)
    requires Sorted(s)
    ensures Total(Upsert(s, k, v), cost) + (if Find(s, k).Some? then cost(Entry(k, Find(s, k).value)) else 0) ==
            Total(s, cost) + cost(Entry(k, v))
  {
    hide Lt;
    LtIsTotalOrder();
    if s == [] {
      assert Upsert(s, k, v)[1..] == [];
    } else if s[0].key == k {
      assert s[0] == Entry(k, s[0].value);
      assert ([Entry(k, v)] + s[1..])[1..] == s[1..];
    } else if Lt(k, s[0].key) {
      assert ([Entry(k, v)] + s)[1..] == s;
      RemoveAbsent(s, k);
    } else {
      TotalUpsert(s[1..], k, v, cost);
      assert ([s[0]] + Upsert(s[1..], k, v))[1..] == Upsert(s[1..], k, v);
    }
  }

  lemma {:induction false} TotalRemove(s: seq<Entry>, k: Key, cost: Entry -> nat)
    ensures Total(Remove(s, k), cost) + (if Find(s, k).Some? then cost(Entry(k, Find(s, k).value)) else 0) == Total(s, cost)
  {
    if s != [] {
      if s[0].key == k {
        assert s[0] == Entry(k, s[0].value);
      } else {
        TotalRemove(s[1..], k, cost);
        assert ([s[0]] + Remove(s[1..], k))[1..] == Remove(s[1..], k);
      }
    }
  }
}
