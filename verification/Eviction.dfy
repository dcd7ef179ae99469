/** Eviction down to the budget: entries this session has not touched first, in
    key order from a cursor, then the touched ones, least recent first. */
module Eviction {
  import opened Wrappers
  import opened Keys
  import opened TreeTxn
  import opened CowTree
  import opened Records
  import opened CacheRecords
  import opened CacheStore
  import opened OverflowChains
  import F = FreeListPages
  import Migration
  import TreeReads

  const COLD_SLICE_KEYS := 256
  const META_SLOTS := 2

  // ---- Victims of a slice ----

  /** The cold keys among those visited, in order. */
  function Victims(visited: seq<Entry>, warm: seq<Key>): seq<Key> {
    if visited == [] then []
    else
      var k := visited[|visited| - 1].key;
      Victims(visited[..|visited| - 1], warm) + if Migration.IsReserved(k) || k in warm then [] else [k]
  }

  ghost predicate Cold(k: Key, warm: seq<Key>) {
    !Migration.IsReserved(k) && k !in warm
  }

  ghost predicate Ascends(keys: seq<Key>) {
    forall i, j | 0 <= i < j < |keys| :: Lt(keys[i], keys[j])
  }

  lemma {:induction false} VictimsAreCold(visited: seq<Entry>, warm: seq<Key>)
    requires Sorted(visited)
    ensures Ascends(Victims(visited, warm))
    ensures forall k :: k in Victims(visited, warm) <==> Cold(k, warm) && exists e | e in visited :: e.key == k
  {
    hide Lt, Migration.IsReserved;
    LtIsTotalOrder();
    if visited != [] {
      var init, e := visited[..|visited| - 1], visited[|visited| - 1];
      VictimsAreCold(init, warm);
      assert visited == init + [e];
      assert forall d | d in init :: Lt(d.key, e.key);
      var before := Victims(init, warm);
      forall i | 0 <= i < |before| ensures Lt(before[i], e.key) {
        assert before[i] in before;
      }
    }
  }

  /** Where the next slice starts: everything, or the keys above the cursor. */
  function CursorOption(cursor: Key): Option<Key> {
    if cursor == [] then None else Some(cursor)
  }

  /** Every cold key is above the cursor. */
  ghost predicate ColdAbove(keys: set<Key>, warm: seq<Key>, cursor: Key) {
    forall k | k in keys && k !in warm :: TreeReads.Past(CursorOption(cursor), k)
  }

  /** Among the visited keys, the cold ones up to any visited key are victims up to
      it. */
  lemma SliceIsThorough(s: seq<Entry>, cursor: Key, warm: seq<Key>, visited: seq<Entry>, c: Key, k: Key)
    requires Sorted(s) && visited <= TreeReads.Beyond(s, CursorOption(cursor))
    requires (exists e | e in visited :: e.key == c) && (exists e | e in s :: e.key == k)
    requires Cold(k, warm) && TreeReads.Past(CursorOption(cursor), k) && !Lt(c, k)
    ensures k in Victims(visited, warm)
  {
    hide Lt, Migration.IsReserved, TreeReads.Past, TreeReads.Beyond, Victims;
    Migration.SliceIsPrefix(s, CursorOption(cursor), visited);
    VictimsAreCold(visited, warm);
    var d :| d in s && d.key == k;
    var e :| e in visited && e.key == c;
    assert d in visited;
  }

  /** A slice that was not stopped saw every key above the cursor. */
  lemma WholeSlice(s: seq<Entry>, cursor: Key, warm: seq<Key>, visited: seq<Entry>, k: Key)
    requires Sorted(s) && visited == TreeReads.Beyond(s, CursorOption(cursor))
    requires (exists e | e in s :: e.key == k) && Cold(k, warm) && TreeReads.Past(CursorOption(cursor), k)
    ensures k in Victims(visited, warm)
  {
    hide Lt, Migration.IsReserved, TreeReads.Past, TreeReads.Beyond, Victims;
    var d :| d in s && d.key == k;
    Migration.BeyondHolds(s, CursorOption(cursor), d);
    Migration.SliceIsPrefix(s, CursorOption(cursor), visited);
    VictimsAreCold(visited, warm);
  }

  /** What the walk of a slice delivers. */
  ghost predicate SliceWalk(s: seq<Entry>, cursor: Key, warm: seq<Key>, visited: seq<Entry>) {
    && visited <= TreeReads.Beyond(s, CursorOption(cursor))
    && (|Victims(visited, warm)| < COLD_SLICE_KEYS ==> visited == TreeReads.Beyond(s, CursorOption(cursor)))
  }

  lemma WalkGivesSlice(s: seq<Entry>, cursor: Key, warm: seq<Key>, visited: seq<Entry>, more: TreeReads.Visitor)
    requires forall v :: more(v) == (|Victims(v, warm)| < COLD_SLICE_KEYS)
    requires visited == TreeReads.Delivered([], TreeReads.Beyond(s, CursorOption(cursor)), more)
    ensures SliceWalk(s, cursor, warm, visited)
  {
    hide TreeReads.Beyond, TreeReads.Delivered, Victims;
    var all := TreeReads.Beyond(s, CursorOption(cursor));
    assert [] + all == all;
    TreeReads.DeliveredPrefix([], all, more);
    if |Victims(visited, warm)| < COLD_SLICE_KEYS {
      Migration.Unstopped([], all, more);
    }
  }

  /** After the first `consumed` victims went: where the cursor may stand. */
  lemma CursorAfter(s: seq<Entry>, keys: set<Key>, warm: seq<Key>, cursor: Key, visited: seq<Entry>, consumed: nat, c: Key)
    requires Sorted(s) && SliceWalk(s, cursor, warm, visited) && ColdAbove(keys, warm, cursor)
    requires forall k | k in keys :: !Migration.IsReserved(k) && exists e | e in s :: e.key == k
    requires consumed <= |Victims(visited, warm)|
    requires exists e | e in visited :: e.key == c
    requires forall i | consumed <= i < |Victims(visited, warm)| :: Lt(c, Victims(visited, warm)[i])
    ensures ColdAbove(keys - SetOf(Victims(visited, warm)[..consumed]), warm, c)
  {
    hide Lt, Migration.IsReserved, TreeReads.Past, TreeReads.Beyond, Victims;
    var victims := Victims(visited, warm);
    forall k | k in keys - SetOf(victims[..consumed]) && k !in warm ensures TreeReads.Past(CursorOption(c), k) {
      if !Lt(c, k) {
        SliceIsThorough(s, cursor, warm, visited, c, k);
        assert false;
      }
      PastCursor(c, k);
    }
  }

  lemma PastCursor(c: Key, k: Key)
    requires Lt(c, k)
    ensures TreeReads.Past(CursorOption(c), k)
  {
  }

  ghost function SetOf(keys: seq<Key>): set<Key> {
    set k | k in keys
  }

  /** A slice that saw everything and consumed everything leaves nothing cold. */
  lemma NothingCold(s: seq<Entry>, keys: set<Key>, warm: seq<Key>, cursor: Key, visited: seq<Entry>)
    requires Sorted(s) && visited == TreeReads.Beyond(s, CursorOption(cursor)) && ColdAbove(keys, warm, cursor)
    requires forall k | k in keys :: !Migration.IsReserved(k) && exists e | e in s :: e.key == k
    ensures forall k | k in keys - SetOf(Victims(visited, warm)) :: k in warm
  {
    hide Lt, Migration.IsReserved, TreeReads.Past, TreeReads.Beyond, Victims;
    forall k | k in keys - SetOf(Victims(visited, warm)) ensures k in warm {
      if k !in warm {
        WholeSlice(s, cursor, warm, visited, k);
      }
    }
  }

  // ---- The store with its mirror ----

  predicate DistinctKeys(keys: seq<Key>) {
    forall i, j | 0 <= i < j < |keys| :: keys[i] != keys[j]
  }

  function WithoutKey(keys: seq<Key>, key: Key): seq<Key> {
    if keys == [] then []
    else (if keys[0] == key then [] else [keys[0]]) + WithoutKey(keys[1..], key)
  }

  lemma {:induction false} WithoutKeyMembers(keys: seq<Key>, key: Key)
    ensures forall k :: k in WithoutKey(keys, key) <==> k in keys && k != key
    ensures DistinctKeys(keys) ==> DistinctKeys(WithoutKey(keys, key))
  {
    if keys != [] {
      var rest := WithoutKey(keys[1..], key);
      WithoutKeyMembers(keys[1..], key);
      assert keys == [keys[0]] + keys[1..];
      if DistinctKeys(keys) {
        forall i | 0 <= i < |rest| ensures rest[i] != keys[0] {
          assert rest[i] in rest;
        }
      }
    }
  }

  /** The others keep their order: whatever surrounds the one place the key is at. */
  lemma {:induction false} WithoutKeyKeepsOrder(before: seq<Key>, key: Key, after: seq<Key>)
    requires key !in before && key !in after
    ensures WithoutKey(before + [key] + after, key) == before + after
    ensures WithoutKey(before + after, key) == before + after
  {
    if before != [] {
      WithoutKeyKeepsOrder(before[1..], key, after);
      assert (before + [key] + after)[1..] == before[1..] + [key] + after && (before + after)[1..] == before[1..] + after;
    } else {
      WithoutAbsent(after, key);
      assert ([key] + after)[1..] == after && before + [key] + after == [key] + after && before + after == after;
    }
  }

  lemma {:induction false} WithoutAbsent(keys: seq<Key>, key: Key)
    requires key !in keys
    ensures WithoutKey(keys, key) == keys
  {
    if keys != [] {
      WithoutAbsent(keys[1..], key);
    }
  }

  /** The mirror holds stored keys; those it lacks are above the cursor, and there
      is none once the cold walk is exhausted. */
  ghost predicate Mirrors(keys: set<Key>, warm: seq<Key>, cursor: Key, exhausted: bool) {
    && (forall k | k in warm :: k in keys)
    && ColdAbove(keys, warm, cursor)
    && (exhausted ==> forall k | k in keys :: k in warm)
  }

  /** Entries may be gone; those that are left are as they were. */
  ghost predicate Remains(view0: map<Key, CacheEntry>, view: map<Key, CacheEntry>) {
    forall k | k in view :: k in view0 && view[k] == view0[k]
  }

  /** An attempt to erase: which key, how much the store took before it, and whether
      the disk let it go. */
  datatype Erasure = Erasure(key: Key, footprint: nat, gone: bool)

  /** The mirror after a series of attempts on its last key: one that went is dropped,
      one that was refused moves to the front. */
  ghost function Queue(lru: seq<Key>, tries: seq<Erasure>): seq<Key> {
    if tries == [] then lru
    else
      var n, q := |tries| - 1, Queue(lru, tries[..|tries| - 1]);
      if q == [] then q
      else if tries[n].gone then q[..|q| - 1]
      else [q[|q| - 1]] + q[..|q| - 1]
  }

  /** Every attempt was on the key then last. */
  ghost predicate LastFirst(lru: seq<Key>, tries: seq<Erasure>) {
    forall i | 0 <= i < |tries| ::
      var q := Queue(lru, tries[..i]);
      q != [] && tries[i].key == q[|q| - 1]
  }

  lemma QueueOn(lru: seq<Key>, tries: seq<Erasure>, rest: seq<Key>, victim: Key, e: Erasure)
    requires LastFirst(lru, tries) && Queue(lru, tries) == rest + [victim] && e.key == victim
    ensures LastFirst(lru, tries + [e])
    ensures Queue(lru, tries + [e]) == if e.gone then rest else [victim] + rest
  {
    var all := tries + [e];
    assert all[..|tries|] == tries;
    forall i | 0 <= i < |all| ensures var q := Queue(lru, all[..i]); q != [] && all[i].key == q[|q| - 1] {
      if i < |tries| {
        assert all[..i] == tries[..i];
      }
    }
    var q := rest + [victim];
    assert q[..|q| - 1] == rest;
  }

  /** From `log0` to `log` every attempt was made over the budget, and every key that
      went was taken by one of them. */
  ghost predicate Forced(log0: seq<Erasure>, log: seq<Erasure>, keys0: set<Key>, keys: set<Key>, budget: nat) {
    && log0 <= log
    && (forall i | |log0| <= i < |log| :: log[i].footprint > budget)
    && forall k | k in keys0 && k !in keys :: exists i | |log0| <= i < |log| :: log[i].key == k
  }

  lemma ForcedOn(log0: seq<Erasure>, log1: seq<Erasure>, log2: seq<Erasure>, keys0: set<Key>, keys1: set<Key>, keys2: set<Key>,
                 budget: nat)
    requires Forced(log0, log1, keys0, keys1, budget) && Forced(log1, log2, keys1, keys2, budget)
    ensures Forced(log0, log2, keys0, keys2, budget)
  {
    forall k | k in keys0 && k !in keys2 ensures exists i | |log0| <= i < |log2| :: log2[i].key == k {
      if k !in keys1 {
        var i :| |log0| <= i < |log1| && log1[i].key == k;
        assert log2[i].key == k;
      } else {
        var i :| |log1| <= i < |log2| && log2[i].key == k;
      }
    }
  }

  lemma ForcedNone(log: seq<Erasure>, keys: set<Key>, budget: nat)
    ensures Forced(log, log, keys, keys, budget)
  {
  }

  lemma ForcedOne(log0: seq<Erasure>, log1: seq<Erasure>, keys0: set<Key>, keys1: set<Key>, e: Erasure, keys2: set<Key>, budget: nat)
    requires Forced(log0, log1, keys0, keys1, budget) && e.footprint > budget && keys1 - {e.key} <= keys2
    ensures Forced(log0, log1 + [e], keys0, keys2, budget)
  {
    forall k | k in keys1 && k !in keys2 ensures exists i | |log1| <= i < |log1 + [e]| :: (log1 + [e])[i].key == k {
      assert (log1 + [e])[|log1|].key == k;
    }
    ForcedOn(log0, log1, log1 + [e], keys0, keys1, keys2, budget);
  }

  /** A mirror node goes only when its entry is gone. */
  ghost predicate NodesKept(lru0: seq<Key>, lru: seq<Key>, keys: set<Key>) {
    && (forall k | k in lru :: k in lru0)
    && forall k | k in lru0 && k !in lru :: k !in keys
  }

  lemma NothingTried(lru: seq<Key>)
    ensures LastFirst(lru, []) && Queue(lru, []) == lru
  {
  }

  lemma NoNodeDropped(lru: seq<Key>, keys: set<Key>)
    ensures NodesKept(lru, lru, keys)
  {
  }

  lemma NodeDropped(lru0: seq<Key>, lru: seq<Key>, keys: set<Key>, victim: Key, rest: seq<Key>)
    requires NodesKept(lru0, lru, keys) && lru == rest + [victim]
    ensures NodesKept(lru0, rest, keys - {victim}) && NodesKept(lru0, [victim] + rest, keys)
  {
    forall k ensures k in lru <==> k == victim || k in rest {
    }
  }

  class EvictingStore {
    const cache: CacheStore
    const maxBytes: nat

    // What this session touched, most recent first; where the cold walk stands.
    var lru: seq<Key>
    var coldCursor: Key
    var coldExhausted: bool

    // The disk: which attempts to erase fail.
    const failing: nat -> bool
    var attempts: nat
    ghost var faulty: bool
    ghost var log: seq<Erasure>

    /** While no erase has failed, every key the mirror lacks is above the cursor,
        and there is none once the cold walk is exhausted. */
    ghost predicate Valid()
      reads this, cache, cache.tree, cache.tree.store
    {
      && cache.Valid() && DistinctKeys(lru) && (forall k | k in lru :: !Migration.IsReserved(k))
      && (!faulty ==> Mirrors(cache.View().Keys, lru, coldCursor, coldExhausted))
    }

    /** The pages in use, both meta slots among them. */
    function Footprint(): nat
      reads cache.tree.store
    {
      (|cache.tree.store.live| + META_SLOTS) * cache.tree.store.pageSize
    }

    /** At rest it is the pages of the tree, the pages of the values, and the slots. */
    lemma FootprintIsPages()
      requires Valid()
      ensures var tree, values := PagesOf(RootBag(cache.tree.liveRoot, cache.tree.liveShape)), ChainPages(cache.chains);
              Footprint() == (|tree| + |values| + 2) * cache.env.pageSize
    {
      hide ToMap, RootBag, Once, RootOk, CacheStore.Counted, ChainPages, Held, CacheStore.View, Mirrors;
      var tree, values := PagesOf(RootBag(cache.tree.liveRoot, cache.tree.liveShape)), ChainPages(cache.chains);
      assert cache.tree.store.live == tree + values && tree !! values;
    }

    /** The tokens issued, the generation and the room are as they were. */
    ghost predicate Stands(issued: seq<U64>, generation: U64, roomy: bool)
      reads cache, cache.tree
    {
      cache.issued == issued && cache.liveGeneration == generation && (roomy ==> cache.Roomy())
    }

    /** A store just opened: nothing touched yet. */
    constructor (cache: CacheStore, maxBytes: nat, failing: nat -> bool)
      requires cache.Valid()
      ensures Valid() && this.cache == cache && this.maxBytes == maxBytes && this.failing == failing
      ensures lru == [] && coldCursor == [] && !coldExhausted && !faulty && attempts == 0 && log == []
    {
      this.cache, this.maxBytes, this.failing := cache, maxBytes, failing;
      lru, coldCursor, coldExhausted, attempts, faulty, log := [], [], false, 0, false, [];
    }

    /** Bring a key to the front of the mirror. */
    method Touch(key: Key)
      requires Valid() && key in cache.View()
      modifies `lru
      ensures Valid() && lru == [key] + WithoutKey(old(lru), key)
    {
      hide CacheStore.Core, CacheStore.Counted, CacheStore.View, CacheStore.Roomy, Migration.IsReserved, ToMap;
      ghost var rest := WithoutKey(lru, key);
      cache.EntriesAreRecords();
      WithoutKeyMembers(lru, key);
      assert forall i | 0 <= i < |rest| :: rest[i] in rest;
      lru := [key] + WithoutKey(lru, key);
      assert forall k :: k in lru <==> k == key || k in rest;
    }

    /** Erase one entry, unless the disk will not let it go. */
    method TryErase(key: Key) returns (ok: bool)
      requires cache.Valid() && !Migration.IsReserved(key)
      modifies `attempts, `faulty, `log, cache, cache.tree, cache.tree.store
      ensures cache.Valid() && ok == !failing(old(attempts)) && faulty == (old(faulty) || !ok)
      ensures cache.View() == if ok then old(cache.View()) - {key} else old(cache.View())
      ensures log == old(log) + [Erasure(key, old(Footprint()), ok)] && attempts == old(attempts) + 1
      ensures ReservedKept(old(ToMap(cache.Records())), ToMap(cache.Records()))
      ensures Stands(old(cache.issued), old(cache.liveGeneration), old(cache.Roomy()))
    {
      hide CacheStore.Core, CacheStore.Counted, CacheStore.View, CacheStore.Roomy, Migration.IsReserved, ToMap, RootFlat;
      ok := !failing(attempts);
      attempts := attempts + 1;
      log := log + [Erasure(key, Footprint(), ok)];
      if ok {
        cache.EraseEntry(key);
      } else {
        faulty := true;
      }
    }

    /** Take the cold victims in order until the store fits. */
    method EraseVictims(victims: seq<Key>) returns (consumed: nat, erased: nat)
      requires cache.Valid() && Ascends(victims) && forall k | k in victims :: k in cache.View()
      modifies `attempts, `faulty, `log, cache, cache.tree, cache.tree.store
      ensures cache.Valid() && consumed <= |victims| && erased <= consumed && (old(faulty) ==> faulty)
      ensures !faulty ==> erased == consumed && cache.View().Keys == old(cache.View()).Keys - SetOf(victims[..consumed])
      ensures |cache.View()| + erased == |old(cache.View())| && Remains(old(cache.View()), cache.View())
      ensures consumed < |victims| ==> Footprint() <= maxBytes
      ensures old(Footprint()) <= maxBytes ==> consumed == 0
      ensures erased == 0 && !faulty && victims != [] ==> old(Footprint()) <= maxBytes
      ensures ReservedKept(old(ToMap(cache.Records())), ToMap(cache.Records()))
      ensures Stands(old(cache.issued), old(cache.liveGeneration), old(cache.Roomy()))
      ensures Forced(old(log), log, old(cache.View()).Keys, cache.View().Keys, maxBytes)
    {
      hide CacheStore.Core, CacheStore.Counted, CacheStore.View, CacheStore.Roomy, RootFlat, Migration.IsReserved, ToMap,
           Erasing, Ascends, Remains, SetOf, Forced, ReservedKept;
      consumed, erased := 0, 0;
      ghost var view0, records0, log0 := cache.View(), ToMap(cache.Records()), log;
      EraseStarts(view0, victims);
      ForcedNone(log0, view0.Keys, maxBytes);
      ReservedSame(records0);
      for i := 0 to |victims|
        invariant cache.Valid() && consumed == i && erased <= consumed && (old(faulty) ==> faulty)
        invariant Erasing(view0, cache.View(), victims, i, erased, faulty)
        invariant i == 0 ==> Footprint() == old(Footprint())
        invariant old(Footprint()) <= maxBytes ==> i == 0
        invariant ReservedKept(records0, ToMap(cache.Records()))
        invariant Stands(old(cache.issued), old(cache.liveGeneration), old(cache.Roomy()))
        invariant Forced(log0, log, view0.Keys, cache.View().Keys, maxBytes)
      {
        if Footprint() <= maxBytes {
          Erased(view0, cache.View(), victims, i, erased, faulty);
          return;
        }
        consumed := consumed + 1;
        ghost var view := cache.View();
        VictimIsThere(view0, view, victims, i, erased, faulty);
        cache.EntriesAreRecords();
        ghost var was, before := faulty, log;
        ghost var footprint, records := Footprint(), ToMap(cache.Records());
        var ok := TryErase(victims[i]);
        VictimErased(view0, view, cache.View(), victims, i, erased, was, faulty, ok, log0, before, Erasure(victims[i], footprint, ok),
                     maxBytes);
        ReservedOn(records0, records, ToMap(cache.Records()));
        if ok {
          erased := erased + 1;
        }
      }
      Erased(view0, cache.View(), victims, |victims|, erased, faulty);
    }

    /** Evict a slice of the entries this session has not touched, walking on from
        the cursor. The cursor moves past what was taken, never past what was only
        seen. */
    method EvictColdSlice() returns (evicted: bool)
      requires Valid()
      modifies `attempts, `faulty, `log, `coldCursor, `coldExhausted, cache, cache.tree, cache.tree.store
      ensures Valid() && (old(faulty) ==> faulty)
      ensures !Lt(coldCursor, old(coldCursor)) && (old(coldExhausted) ==> coldExhausted)
      ensures evicted ==> |cache.View()| < |old(cache.View())|
      ensures Remains(old(cache.View()), cache.View())
      ensures !evicted && !faulty && old(Footprint()) > maxBytes ==> coldExhausted
      ensures ReservedKept(old(ToMap(cache.Records())), ToMap(cache.Records()))
      ensures Stands(old(cache.issued), old(cache.liveGeneration), old(cache.Roomy()))
      ensures Forced(old(log), log, old(cache.View()).Keys, cache.View().Keys, maxBytes)
    {
      hide CacheStore.Core, CacheStore.Counted, CacheStore.View, CacheStore.Roomy, Migration.IsReserved, ToMap, Victims, Mirrors, RootFlat,
           DistinctKeys, NextCursor;
      GoesOn(coldCursor, coldCursor, coldCursor);
      if coldExhausted {
        return false;
      }
      var visited, victims, consumed, erased := TakeSlice();
      MoveCursor(visited, victims, consumed);
      evicted := erased != 0;
    }

    /** Walk, then erase the victims while the store is over its budget. */
    method TakeSlice() returns (visited: seq<Entry>, victims: seq<Key>, consumed: nat, erased: nat)
      requires Valid() && !coldExhausted
      modifies `attempts, `faulty, `log, cache, cache.tree, cache.tree.store
      ensures cache.Valid() && (old(faulty) ==> faulty)
      ensures victims == Victims(visited, lru) && erased <= consumed <= |victims|
      ensures !Lt(NextCursor(lru, coldCursor, visited, consumed), coldCursor)
      ensures !faulty ==> Mirrors(cache.View().Keys, lru, NextCursor(lru, coldCursor, visited, consumed),
                                  NextExhausted(lru, visited, consumed))
      ensures |cache.View()| + erased == |old(cache.View())| && Remains(old(cache.View()), cache.View())
      ensures erased == 0 && !faulty && old(Footprint()) > maxBytes ==> NextExhausted(lru, visited, consumed)
      ensures ReservedKept(old(ToMap(cache.Records())), ToMap(cache.Records()))
      ensures Stands(old(cache.issued), old(cache.liveGeneration), old(cache.Roomy()))
      ensures Forced(old(log), log, old(cache.View()).Keys, cache.View().Keys, maxBytes)
    {
      hide CacheStore.Core, CacheStore.Counted, CacheStore.View, CacheStore.Roomy, Migration.IsReserved, ToMap, Victims, Mirrors, RootFlat,
           DistinctKeys, SliceWalk, NextCursor, Ascends, SetOf, ReservedKept;
      ghost var s, keys := cache.Records(), cache.View().Keys;
      visited := WalkCold();
      victims := Victims(visited, lru);
      VictimsOf(s, keys, lru, coldCursor, visited);
      SliceGoesOn(s, lru, coldCursor, visited);
      consumed, erased := EraseVictims(victims);
      if !faulty {
        SliceDone(s, keys, lru, coldCursor, visited, consumed);
      }
    }

    /** The cursor goes to the last key walked when every victim was taken, else to
        the last victim taken. */
    method MoveCursor(visited: seq<Entry>, victims: seq<Key>, consumed: nat)
      requires victims == Victims(visited, lru) && consumed <= |victims| && !coldExhausted
      modifies `coldCursor, `coldExhausted
      ensures coldCursor == NextCursor(lru, old(coldCursor), visited, consumed)
      ensures coldExhausted == NextExhausted(lru, visited, consumed)
    {
      hide Victims;
      var lastKey := if visited == [] then [] else visited[|visited| - 1].key;
      if consumed == |victims| {
        if lastKey != [] {
          coldCursor := lastKey;
        }
        if |victims| < COLD_SLICE_KEYS {
          coldExhausted := true;
        }
      } else if consumed != 0 {
        coldCursor := victims[consumed - 1];
      }
    }

    /** Walk on from the cursor until the slice has its victims. */
    method WalkCold() returns (visited: seq<Entry>)
      requires cache.Valid()
      ensures Sorted(cache.Records()) && SliceWalk(cache.Records(), coldCursor, lru, visited)
    {
      hide Lt, Migration.IsReserved, ToMap, Victims, TreeReads.Past, TreeReads.Beyond, TreeReads.Delivered, Held, Total, Once,
           PagesOf, SliceWalk;
      var warm := lru;
      var more := (v: seq<Entry>) => |Victims(v, warm)| < COLD_SLICE_KEYS;
      var tree := cache.tree;
      assert Once(RootBag(tree.liveRoot, tree.liveShape));
      ProperRoot(tree.store.pages, tree.Cap(), tree.liveRoot, tree.liveShape);
      RootSorted(tree.store.pages, tree.Cap(), tree.liveRoot, tree.liveShape);
      var r, pageReads;
      r, visited, pageReads := TreeReads.Walk(tree.store, tree.liveRoot, CursorOption(coldCursor), more, tree.liveShape);
      WalkGivesSlice(cache.Records(), coldCursor, lru, visited, more);
    }

    /** What is owed about the victims of a walk. */
    lemma VictimsOf(s: seq<Entry>, keys: set<Key>, warm: seq<Key>, cursor: Key, visited: seq<Entry>)
      requires cache.Valid() && s == cache.Records() && keys == cache.View().Keys
      requires Sorted(s) && SliceWalk(s, cursor, warm, visited)
      ensures Ascends(Victims(visited, warm))
      ensures forall k | k in Victims(visited, warm) :: k in cache.View() && exists e | e in visited :: e.key == k
      ensures forall k | k in keys :: !Migration.IsReserved(k) && exists e | e in s :: e.key == k
    {
      hide CacheStore.Core, CacheStore.Counted, CacheStore.View, CacheStore.Roomy, Lt, Migration.IsReserved, ToMap, Victims, TreeReads.Past,
           TreeReads.Beyond;
      Migration.SliceIsPrefix(s, CursorOption(cursor), visited);
      VictimsAreCold(visited, warm);
      cache.EntriesAreRecords();
      forall k | k in Victims(visited, warm) ensures k in cache.View() {
        var e :| e in visited && e.key == k;
        MapKeys(s, k);
      }
      forall k | k in keys ensures exists e | e in s :: e.key == k {
        MapKeys(s, k);
      }
    }

    /** Bring the store within its budget. It always ends, whatever the disk
        refuses; and when the disk refuses nothing, the store ends within its
        budget or with no entry left. Reserved records are never touched. */
    method EvictToFit()
      requires Valid()
      modifies this, cache, cache.tree, cache.tree.store
      ensures Valid() && (old(faulty) ==> faulty)
      ensures maxBytes != 0 && !faulty ==> Footprint() <= maxBytes || cache.View() == map[]
      ensures maxBytes == 0 || old(Footprint()) <= maxBytes ==> cache.View() == old(cache.View()) && lru == old(lru)
      ensures Remains(old(cache.View()), cache.View())
      ensures !faulty ==> lru <= old(lru) && (lru != old(lru) ==> forall k | k in cache.View() :: k in lru)
      ensures NodesKept(old(lru), lru, cache.View().Keys)
      ensures !Lt(coldCursor, old(coldCursor)) && (old(coldExhausted) ==> coldExhausted)
      ensures ReservedKept(old(ToMap(cache.Records())), ToMap(cache.Records()))
      ensures Stands(old(cache.issued), old(cache.liveGeneration), old(cache.Roomy()))
      ensures Forced(old(log), log, old(cache.View()).Keys, cache.View().Keys, maxBytes)
    {
      hide CacheStore.Core, CacheStore.Counted, CacheStore.View, CacheStore.Roomy, Lt, Migration.IsReserved, ToMap, ColdAbove, Forced;
      ForcedNone(log, cache.View().Keys, maxBytes);
      GoesOn(coldCursor, coldCursor, coldCursor);
      if maxBytes == 0 {
        return;
      }
      var remaining := |lru|;
      while Footprint() > maxBytes
        invariant Valid() && (old(faulty) ==> faulty) && remaining == |lru| && lru == old(lru)
        invariant Remains(old(cache.View()), cache.View())
        invariant !Lt(coldCursor, old(coldCursor)) && (old(coldExhausted) ==> coldExhausted)
        invariant old(Footprint()) <= maxBytes ==> cache.View() == old(cache.View()) && Footprint() <= maxBytes
        invariant ReservedKept(old(ToMap(cache.Records())), ToMap(cache.Records()))
        invariant Stands(old(cache.issued), old(cache.liveGeneration), old(cache.Roomy()))
        invariant Forced(old(log), log, old(cache.View()).Keys, cache.View().Keys, maxBytes)
        decreases |cache.View()|
      {
        ghost var before, keys := log, cache.View().Keys;
        ghost var cursor := coldCursor;
        var evicted := EvictColdSlice();
        GoesOn(old(coldCursor), cursor, coldCursor);
        ForcedOn(old(log), before, log, old(cache.View()).Keys, keys, cache.View().Keys, maxBytes);
        if !evicted {
          break;
        }
      }
      ghost var before, keys := log, cache.View().Keys;
      EvictWarm(remaining);
      ForcedOn(old(log), before, log, old(cache.View()).Keys, keys, cache.View().Keys, maxBytes);
    }

    /** Then the touched entries, least recent first; one the disk refuses goes to
        the front, and uses up one of `rounds`. */
    method EvictWarm(rounds: nat)
      requires Valid() && rounds == |lru|
      requires Footprint() <= maxBytes || faulty || coldExhausted
      modifies this, cache, cache.tree, cache.tree.store
      ensures Valid() && (old(faulty) ==> faulty)
      ensures !faulty ==> Footprint() <= maxBytes || cache.View() == map[]
      ensures old(Footprint()) <= maxBytes ==> cache.View() == old(cache.View()) && lru == old(lru)
      ensures Remains(old(cache.View()), cache.View())
      ensures coldCursor == old(coldCursor) && coldExhausted == old(coldExhausted)
      ensures !faulty ==> lru <= old(lru) && (lru != old(lru) ==> coldExhausted)
      ensures NodesKept(old(lru), lru, cache.View().Keys)
      ensures old(log) <= log && LastFirst(old(lru), log[|old(log)|..]) && lru == Queue(old(lru), log[|old(log)|..])
      ensures ReservedKept(old(ToMap(cache.Records())), ToMap(cache.Records()))
      ensures Stands(old(cache.issued), old(cache.liveGeneration), old(cache.Roomy()))
      ensures Forced(old(log), log, old(cache.View()).Keys, cache.View().Keys, maxBytes)
    {
      hide CacheStore.Core, CacheStore.Counted, CacheStore.View, CacheStore.Roomy, Migration.IsReserved, ToMap, Mirrors, DistinctKeys, RootFlat, Forced, NodesKept, Queue, LastFirst;
      var remaining := rounds;
      ForcedNone(log, cache.View().Keys, maxBytes);
      NoNodeDropped(lru, cache.View().Keys);
      ghost var tries: seq<Erasure> := [];
      NothingTried(lru);
      while Footprint() > maxBytes && lru != [] && remaining != 0
        invariant Valid() && (old(faulty) ==> faulty) && 0 <= remaining
        invariant faulty || remaining == |lru|
        invariant Footprint() <= maxBytes || faulty || coldExhausted
        invariant old(Footprint()) <= maxBytes ==> cache.View() == old(cache.View()) && lru == old(lru) && Footprint() <= maxBytes
        invariant Remains(old(cache.View()), cache.View())
        invariant coldCursor == old(coldCursor) && coldExhausted == old(coldExhausted)
        invariant !faulty ==> lru <= old(lru) && (lru != old(lru) ==> coldExhausted)
        invariant NodesKept(old(lru), lru, cache.View().Keys)
        invariant log == old(log) + tries && LastFirst(old(lru), tries) && lru == Queue(old(lru), tries)
        invariant ReservedKept(old(ToMap(cache.Records())), ToMap(cache.Records()))
        invariant Stands(old(cache.issued), old(cache.liveGeneration), old(cache.Roomy()))
        invariant Forced(old(log), log, old(cache.View()).Keys, cache.View().Keys, maxBytes)
        decreases |lru|, remaining
      {
        var victim, rest := lru[|lru| - 1], lru[..|lru| - 1];
        assert lru == rest + [victim];
        ghost var view := cache.View();
        WarmTail(view.Keys, lru, coldCursor, coldExhausted);
        NodeDropped(old(lru), lru, view.Keys, victim, rest);
        ghost var before, footprint := log, Footprint();
        var ok := TryErase(victim);
        QueueOn(old(lru), tries, rest, victim, Erasure(victim, footprint, ok));
        tries := tries + [Erasure(victim, footprint, ok)];
        ForcedOne(old(log), before, old(cache.View()).Keys, view.Keys, Erasure(victim, footprint, ok), cache.View().Keys, maxBytes);
        if ok {
          assert cache.View().Keys == view.Keys - {victim};
          lru := rest;
          remaining := |lru|;
        } else {
          lru := [victim] + rest;
          remaining := remaining - 1;
        }
      }
      if !faulty && Footprint() > maxBytes {
        NothingWarm(cache.View().Keys, coldCursor);
      }
    }

    /** SET: store the entry under the next token and the live generation, mark it
        warm, and make room. */
    method Set(key: Key, value: seq<Byte>, flags: U32, expiry: Time) returns (r: Result<U64>)
      requires Valid() && !Migration.IsReserved(key) && |value| < 0x1_0000_0000
      requires cache.tree.store.pageCount + ChainLength(|cache.env.Stored(value).1|, Payload(cache.env.pageSize))
               < 0x1_0000_0000_0000_0000
      modifies this, cache, cache.tree, cache.tree.store
      ensures Valid() && (old(faulty) ==> faulty)
      ensures r.Ok? <==> |value| <= cache.env.maxValueBytes && old(cache.Takes(key, cache.env.RecordBytes(value)))
      ensures |value| <= cache.env.maxValueBytes && old(cache.Roomy()) && cache.env.ShortKey(key) ==> r.Ok?
      ensures r.Err? ==> r.error == ValueTooLarge && cache.View() == old(cache.View()) && lru == old(lru)
      ensures r.Ok? && maxBytes != 0 && !faulty ==> Footprint() <= maxBytes || cache.View() == map[]
      ensures r.Ok? ==>
                var header := Header(flags, r.value, expiry, old(cache.liveGeneration), TIME_MIN, false);
                var stored := old(cache.View())[key := CacheEntry(RoundedHeader(header), value)];
                && Remains(stored, cache.View()) && (maxBytes == 0 ==> cache.View() == stored)
      ensures var roomy := old(cache.Roomy()) && (r.Err? || cache.env.ShortKey(key));
              if r.Ok? then Stands(old(cache.issued) + [r.value], old(cache.liveGeneration), roomy)
              else && old(cache.issued) <= cache.issued && Stands(cache.issued, old(cache.liveGeneration), roomy)
                   && |cache.issued| == |old(cache.issued)| + if |value| > cache.env.maxValueBytes then 0 else 1
      ensures r.Err? ==> log == old(log) && coldCursor == old(coldCursor) && coldExhausted == old(coldExhausted)
      ensures r.Ok? ==>
                var warm := [key] + WithoutKey(old(lru), key);
                && (!faulty ==> lru <= warm) && (maxBytes == 0 ==> lru == warm) && NodesKept(warm, lru, cache.View().Keys)
      ensures !Lt(coldCursor, old(coldCursor)) && (old(coldExhausted) ==> coldExhausted)
      ensures r.Ok? ==> Forced(old(log), log, old(cache.View()).Keys + {key}, cache.View().Keys, maxBytes)
    {
      hide CacheStore.Core, CacheStore.Counted, CacheStore.View, CacheStore.Roomy, CacheStore.Takes, Lt, Migration.IsReserved,
           ToMap, ColdAbove, ChainLength, RootFlat;
      GoesOn(coldCursor, coldCursor, coldCursor);
      if |value| > cache.env.maxValueBytes {
        return Err(ValueTooLarge);
      }
      ghost var keys := cache.View().Keys;
      var cas := cache.NextCas();
      var header := Header(flags, cas, expiry, cache.liveGeneration, TIME_MIN, false);
      var stored := cache.StoreEntry(key, header, value);
      if stored.Err? {
        return Err(stored.error);
      }
      ghost var warm := lru;
      WithoutKeyMembers(lru, key);
      ghost var rest := WithoutKey(lru, key);
      assert forall i | 0 <= i < |rest| :: rest[i] in rest;
      lru := [key] + WithoutKey(lru, key);
      assert forall k :: k in lru <==> k == key || k in rest;
      WarmStored(keys, cache.View().Keys, warm, lru, key, coldCursor);
      EvictToFit();
      return Ok(cas);
    }

    /** Whether an entry is still to be seen. */
    predicate Lapsed(header: Header, now: Time)
      reads cache
    {
      header.expiry <= now || header.generation < cache.liveGeneration
    }

    /** GET: a live entry becomes the most recent; a lapsed one reads as a miss, and
        is left for a writer to reclaim. */
    method Get(key: Key, now: Time) returns (r: Option<CacheEntry>)
      requires Valid() && !Migration.IsReserved(key)
      modifies `lru
      ensures Valid()
      ensures var hit := key in cache.View() && !Lapsed(cache.View()[key].header, now);
              && (hit ==> var e := cache.View()[key]; r == Some(e.(header := e.header.(lastAccess := now))))
              && (!hit ==> r == None && lru == old(lru))
              && (hit ==> lru == [key] + WithoutKey(old(lru), key))
    {
      hide CacheStore.Core, CacheStore.Counted, CacheStore.View, Migration.IsReserved, ToMap, Mirrors;
      var loaded := cache.LoadEntry(key);
      if loaded.value.None? || Lapsed(loaded.value.value.header, now) {
        return None;
      }
      Touch(key);
      var e := loaded.value.value;
      return Some(e.(header := e.header.(lastAccess := now)));
    }

    /** DEL: erase the entry and forget it. A lapsed entry is reclaimed and answered
        as missing. */
    method Delete(key: Key, now: Time) returns (r: Result<()>)
      requires Valid() && !Migration.IsReserved(key)
      modifies this, cache, cache.tree, cache.tree.store
      ensures Valid() && (old(faulty) ==> faulty)
      ensures var view := old(cache.View());
              var erased := !failing(old(attempts));
              if key !in view then r == Err(KeyNotFound) && cache.View() == view && lru == old(lru)
              else && cache.View() == (if erased then view - {key} else view)
                   && if old(Lapsed(cache.View()[key].header, now))
                      then r == Err(KeyNotFound) && lru == WithoutKey(old(lru), key)
                      else && r == (if erased then Ok(()) else Err(IoError))
                           && lru == if erased then WithoutKey(old(lru), key) else old(lru)
      ensures coldCursor == old(coldCursor) && coldExhausted == old(coldExhausted)
      ensures Stands(old(cache.issued), old(cache.liveGeneration), old(cache.Roomy()))
    {
      hide CacheStore.Core, CacheStore.Counted, CacheStore.View, CacheStore.Roomy, Lt, Migration.IsReserved, ToMap, ColdAbove;
      var loaded := cache.LoadEntry(key);
      if loaded.value.None? {
        return Err(KeyNotFound);
      }
      var lapsed := Lapsed(loaded.value.value.header, now);
      ghost var keys, warm := cache.View().Keys, lru;
      WithoutKeyMembers(lru, key);
      var ok := TryErase(key);
      if !ok && !lapsed {
        return Err(IoError);
      }
      lru := WithoutKey(lru, key);
      WarmErased(keys, warm, lru, key, coldCursor);
      return if lapsed then Err(KeyNotFound) else Ok(());
    }

    /** TOUCH and MARK STALE: change an entry's header in place and make it the most
        recent. A lapsed entry is reclaimed and forgotten. */
    method UpdateMetadata(key: Key, now: Time, mutate: Header -> Header) returns (r: Result<U64>)
      requires Valid() && !Migration.IsReserved(key)
      modifies this, cache, cache.tree, cache.tree.store
      ensures Valid() && faulty == old(faulty) && log == old(log)
      ensures coldCursor == old(coldCursor) && coldExhausted == old(coldExhausted)
      ensures var view := old(cache.View());
              if key !in view then r == Err(KeyNotFound) && cache.View() == view && lru == old(lru)
              else if old(Lapsed(cache.View()[key].header, now))
              then r == Err(KeyNotFound) && cache.View() == view - {key} && lru == WithoutKey(old(lru), key)
              else && r.Ok? && cache.issued == old(cache.issued) + [r.value] && lru == [key] + WithoutKey(old(lru), key)
                   && cache.View() == view[key := CacheEntry(RoundedHeader(mutate(view[key].header).(cas := r.value)),
                                                             view[key].value)]
      ensures r.Err? ==> cache.issued == old(cache.issued)
      ensures cache.liveGeneration == old(cache.liveGeneration)
      ensures old(cache.Roomy()) ==> cache.Roomy()
    {
      hide CacheStore.Core, CacheStore.Counted, CacheStore.View, CacheStore.Roomy, Lt, Migration.IsReserved, ToMap, ColdAbove,
           RoundedHeader;
      ghost var view, warm := cache.View(), lru;
      WithoutKeyMembers(lru, key);
      var loaded := cache.LoadEntry(key);
      if loaded.value.None? {
        return Err(KeyNotFound);
      }
      r := cache.UpdateMetadata(key, now, mutate);
      if r.Ok? {
        assert cache.View().Keys == view.Keys;
        Touch(key);
      } else {
        lru := WithoutKey(lru, key);
        WarmErased(view.Keys, warm, lru, key, coldCursor);
      }
    }
  }

  /** What erasing the first `i` victims has done so far. */
  ghost predicate Erasing(view0: map<Key, CacheEntry>, view: map<Key, CacheEntry>, victims: seq<Key>, i: nat, erased: nat,
                          faulty: bool)
    requires i <= |victims|
  {
    && |view| + erased == |view0| && Ascends(victims) && Remains(view0, view)
    && (!faulty ==> erased == i && view.Keys == view0.Keys - SetOf(victims[..i]))
    && forall j | i <= j < |victims| :: victims[j] in view
  }

  lemma EraseStarts(view0: map<Key, CacheEntry>, victims: seq<Key>)
    requires Ascends(victims) && forall k | k in victims :: k in view0
    ensures Erasing(view0, view0, victims, 0, 0, false) && Erasing(view0, view0, victims, 0, 0, true)
  {
    SetOfNone(victims);
  }

  lemma VictimIsThere(view0: map<Key, CacheEntry>, view: map<Key, CacheEntry>, victims: seq<Key>, i: nat, erased: nat,
                      faulty: bool)
    requires i < |victims| && Erasing(view0, view, victims, i, erased, faulty)
    ensures victims[i] in view
  {
  }

  lemma Erased(view0: map<Key, CacheEntry>, view: map<Key, CacheEntry>, victims: seq<Key>, i: nat, erased: nat, faulty: bool)
    requires i <= |victims| && Erasing(view0, view, victims, i, erased, faulty)
    ensures |view| + erased == |view0| && Remains(view0, view)
    ensures !faulty ==> erased == i && view.Keys == view0.Keys - SetOf(victims[..i])
  {
  }

  lemma EraseStep(view0: map<Key, CacheEntry>, view: map<Key, CacheEntry>, victims: seq<Key>, i: nat, erased: nat,
                  faulty': bool, ok: bool)
    requires i < |victims| && (!ok ==> faulty')
    requires Erasing(view0, view, victims, i, erased, faulty')
    ensures ok ==> Erasing(view0, view - {victims[i]}, victims, i + 1, erased + 1, faulty')
    ensures !ok ==> Erasing(view0, view, victims, i + 1, erased, faulty')
  {
    hide SetOf;
    assert forall j | i < j < |victims| :: victims[i] != victims[j] by { LtIsTotalOrder(); }
    hide Lt, Ascends;
    SetOfNext(victims, i);
    OneLess(view, victims[i]);
  }

  /** A later fault only promises less. */
  lemma ErasingFaulty(view0: map<Key, CacheEntry>, view: map<Key, CacheEntry>, victims: seq<Key>, i: nat, erased: nat,
                      faulty: bool, faulty': bool)
    requires i <= |victims| && Erasing(view0, view, victims, i, erased, faulty) && (faulty ==> faulty')
    ensures Erasing(view0, view, victims, i, erased, faulty')
  {
  }

  lemma VictimErased(view0: map<Key, CacheEntry>, view: map<Key, CacheEntry>, view': map<Key, CacheEntry>, victims: seq<Key>,
                     i: nat, erased: nat, faulty: bool, faulty': bool, ok: bool, log0: seq<Erasure>, log: seq<Erasure>,
                     e: Erasure, budget: nat)
    requires i < |victims| && faulty' == (faulty || !ok) && e.key == victims[i] && e.footprint > budget
    requires view' == if ok then view - {victims[i]} else view
    requires Erasing(view0, view, victims, i, erased, faulty) && Forced(log0, log, view0.Keys, view.Keys, budget)
    ensures Erasing(view0, view', victims, i + 1, if ok then erased + 1 else erased, faulty')
    ensures Forced(log0, log + [e], view0.Keys, view'.Keys, budget)
  {
    hide Erasing, Forced;
    ErasingFaulty(view0, view, victims, i, erased, faulty, faulty');
    EraseStep(view0, view, victims, i, erased, faulty', ok);
    ForcedOne(log0, log, view0.Keys, view.Keys, e, view'.Keys, budget);
  }

  lemma SetOfNone(keys: seq<Key>)
    ensures SetOf(keys[..0]) == {}
  {
  }

  lemma SetOfNext(keys: seq<Key>, i: nat)
    requires i < |keys|
    ensures SetOf(keys[..i + 1]) == SetOf(keys[..i]) + {keys[i]}
  {
    assert keys[..i + 1] == keys[..i] + [keys[i]];
  }

  lemma OneLess(m: map<Key, CacheEntry>, k: Key)
    requires k in m
    ensures |m - {k}| == |m| - 1 && (m - {k}).Keys == m.Keys - {k}
  {
    assert (m - {k}).Keys == m.Keys - {k};
    assert |(m - {k}).Keys| == |m.Keys| - 1;
  }

  /** Where a slice that took `consumed` victims leaves the cursor. */
  ghost function NextCursor(warm: seq<Key>, cursor: Key, visited: seq<Entry>, consumed: nat): Key {
    var victims := Victims(visited, warm);
    if consumed == |victims| then
      if visited != [] && visited[|visited| - 1].key != [] then visited[|visited| - 1].key else cursor
    else if 0 < consumed < |victims| then victims[consumed - 1]
    else cursor
  }

  /** The cursor never goes back. */
  lemma SliceGoesOn(s: seq<Entry>, warm: seq<Key>, cursor: Key, visited: seq<Entry>)
    requires Sorted(s) && SliceWalk(s, cursor, warm, visited)
    ensures forall consumed: nat :: !Lt(NextCursor(warm, cursor, visited, consumed), cursor)
  {
    hide Lt, Victims, Migration.IsReserved, TreeReads.Beyond;
    LtIsTotalOrder();
    Migration.SliceIsPrefix(s, CursorOption(cursor), visited);
    VictimsAreCold(visited, warm);
    NothingIsLess(cursor);
    forall consumed: nat ensures !Lt(NextCursor(warm, cursor, visited, consumed), cursor) {
      var next := NextCursor(warm, cursor, visited, consumed);
      if next != cursor && cursor != [] {
        assert next in Victims(visited, warm) || exists e | e in visited :: e.key == next;
      }
    }
  }

  lemma GoesOn(a: Key, b: Key, c: Key)
    requires a == b || !Lt(b, a)
    requires b == c || !Lt(c, b)
    ensures !Lt(c, a)
  {
    hide Lt;
    LtIsTotalOrder();
  }

  lemma NothingIsLess(k: Key)
    ensures k == [] ==> forall a :: !Lt(a, k)
  {
  }

  ghost function NextExhausted(warm: seq<Key>, visited: seq<Entry>, consumed: nat): bool {
    consumed == |Victims(visited, warm)| < COLD_SLICE_KEYS
  }

  lemma SliceDone(s: seq<Entry>, keys: set<Key>, warm: seq<Key>, cursor: Key, visited: seq<Entry>, consumed: nat)
    requires Sorted(s) && SliceWalk(s, cursor, warm, visited) && Mirrors(keys, warm, cursor, false)
    requires forall k | k in keys :: !Migration.IsReserved(k) && exists e | e in s :: e.key == k
    requires consumed <= |Victims(visited, warm)|
    ensures Mirrors(keys - SetOf(Victims(visited, warm)[..consumed]), warm, NextCursor(warm, cursor, visited, consumed),
                    NextExhausted(warm, visited, consumed))
  {
    hide Lt, Migration.IsReserved, TreeReads.Past, TreeReads.Beyond, Victims, ColdAbove, SetOf;
    var victims := Victims(visited, warm);
    FewerCold(keys, keys - SetOf(victims[..consumed]), warm, cursor);
    Migration.SliceIsPrefix(s, CursorOption(cursor), visited);
    VictimsAreCold(visited, warm);
    assert forall k | k in SetOf(victims[..consumed]) :: k !in warm by { TakenAreCold(victims, consumed, warm); }
    if consumed == |victims| {
      assert victims[..consumed] == victims;
      if visited != [] {
        assert visited[|visited| - 1] in visited;
        CursorAfter(s, keys, warm, cursor, visited, consumed, visited[|visited| - 1].key);
      }
      if consumed < COLD_SLICE_KEYS {
        NothingCold(s, keys, warm, cursor, visited);
      }
    } else if consumed > 0 {
      assert victims[consumed - 1] in victims;
      CursorAfter(s, keys, warm, cursor, visited, consumed, victims[consumed - 1]);
    }
  }

  lemma TakenAreCold(victims: seq<Key>, consumed: nat, warm: seq<Key>)
    requires consumed <= |victims| && forall k | k in victims :: Cold(k, warm)
    ensures forall k | k in SetOf(victims[..consumed]) :: k !in warm
  {
    assert forall k | k in victims[..consumed] :: k in victims;
  }

  /** Taking the least recent key out of the store and the mirror, or moving it to
      the front. */
  lemma WarmTail(keys: set<Key>, warm: seq<Key>, cursor: Key, exhausted: bool)
    requires warm != [] && DistinctKeys(warm)
    ensures var victim, rest := warm[|warm| - 1], warm[..|warm| - 1];
            && DistinctKeys(rest) && DistinctKeys([victim] + rest)
            && (Mirrors(keys, warm, cursor, exhausted) ==> Mirrors(keys - {victim}, rest, cursor, exhausted))
  {
    var victim, rest := warm[|warm| - 1], warm[..|warm| - 1];
    assert forall k :: k in warm <==> k in rest || k == victim by { assert warm == rest + [victim]; }
    WarmErased(keys, warm, rest, victim, cursor);
  }

  lemma NothingWarm(keys: set<Key>, cursor: Key)
    requires Mirrors(keys, [], cursor, true)
    ensures keys == {}
  {
  }

  lemma FewerCold(keys: set<Key>, keys': set<Key>, warm: seq<Key>, cursor: Key)
    requires ColdAbove(keys, warm, cursor) && keys' <= keys
    ensures ColdAbove(keys', warm, cursor)
  {
  }

  lemma WarmErased(keys: set<Key>, warm: seq<Key>, rest: seq<Key>, key: Key, cursor: Key)
    requires forall k | k in warm && k != key :: k in rest
    ensures ColdAbove(keys, warm, cursor) ==> ColdAbove(keys - {key}, rest, cursor)
  {
  }

  lemma WarmStored(keys: set<Key>, keys': set<Key>, warm: seq<Key>, warm': seq<Key>, key: Key, cursor: Key)
    requires keys' == keys + {key} && key in warm' && forall k | k in warm :: k in warm'
    ensures ColdAbove(keys, warm, cursor) ==> ColdAbove(keys', warm', cursor)
  {
  }

  /** Reserved records are as they were. */
  ghost predicate ReservedKept(m: map<Key, Value>, m': map<Key, Value>) {
    forall k | Migration.IsReserved(k) :: (k in m <==> k in m') && (k in m ==> m'[k] == m[k])
  }

  lemma ReservedSame(m: map<Key, Value>)
    ensures ReservedKept(m, m)
  {
  }

  lemma ReservedOn(m: map<Key, Value>, m': map<Key, Value>, m'': map<Key, Value>)
    requires ReservedKept(m, m') && ReservedKept(m', m'')
    ensures ReservedKept(m, m'')
  {
    hide Migration.IsReserved;
  }
}
