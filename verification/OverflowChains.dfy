/** Values too large for a leaf: chains of overflow pages, written before the
    record that names them is committed, and freed after it is gone. */
module OverflowChains {
  import opened Wrappers
  import opened Keys
  import opened TreeModel
  import opened PageStore
  import F = FreeListPages

  const OVERFLOW_HEADER_SIZE := 16

  function Payload(pageSize: nat): nat
    requires pageSize > OVERFLOW_HEADER_SIZE
  {
    pageSize - OVERFLOW_HEADER_SIZE
  }

  /** How many pages a value of `len` bytes takes. */
  function ChainLength(len: nat, payload: nat): nat
    requires payload > 0
  {
    Max(1, (len + payload - 1) / payload)
  }

  /** Where the pages of a value begin and end. */
  lemma ChunkBounds(len: nat, payload: nat, i: nat)
    requires payload > 0 && i < ChainLength(len, payload)
    ensures i * payload <= len
    ensures if i + 1 < ChainLength(len, payload) then (i + 1) * payload <= len else len <= (i + 1) * payload
  {
    var n := (len + payload - 1) / payload;
    DivBounds(len + payload - 1, payload);
    NextMultiple(i, payload);
    if i + 1 < n {
      MultipleGrows(i + 2, n, payload);
      NextMultiple(i + 1, payload);
    } else if i + 1 > n {
      assert n == 0 && i == 0;
    }
  }

  lemma DivBounds(a: nat, b: nat)
    requires b > 0
    ensures (a / b) * b <= a < (a / b) * b + b
  {
  }

  lemma NextMultiple(i: nat, b: nat)
    ensures (i + 1) * b == i * b + b
  {
  }

  lemma MultipleGrows(i: nat, j: nat, b: nat)
    requires i <= j
    ensures i * b <= j * b
  {
  }

  /** A chain is never longer than a reader's budget for its length. */
  lemma ChainFitsBudget(len: nat, payload: nat, most: nat)
    requires payload > 0 && len <= most
    ensures ChainLength(len, payload) <= most / payload + 2
  {
    var n, q := (len + payload - 1) / payload, most / payload;
    DivBounds(len + payload - 1, payload);
    DivBounds(most, payload);
    NextMultiple(q, payload);
    NextMultiple(q + 1, payload);
    if n >= q + 2 {
      MultipleGrows(q + 2, n, payload);
    }
  }

  // ---- Chains on pages ----

  ghost function NextOf(ids: seq<PageId>, i: nat): PageId
    requires i < |ids|
  {
    if i + 1 < |ids| then ids[i + 1] else 0
  }

  /** The pages link up, the last one to nothing. */
  ghost predicate Linked(pages: map<PageId, Node>, ids: seq<PageId>) {
    && ids != [] && 0 !in ids
    && forall i | 0 <= i < |ids| :: ids[i] in pages && pages[ids[i]].Overflow? && pages[ids[i]].next == NextOf(ids, i)
  }

  ghost function ChunkOf(pages: map<PageId, Node>, id: PageId): seq<Byte> {
    if id in pages && pages[id].Overflow? then pages[id].chunk else []
  }

  /** The bytes a chain carries. */
  ghost function ChainBytes(pages: map<PageId, Node>, ids: seq<PageId>): seq<Byte> {
    if ids == [] then [] else ChainBytes(pages, ids[..|ids| - 1]) + ChunkOf(pages, ids[|ids| - 1])
  }

  lemma NextChunk(pages: map<PageId, Node>, ids: seq<PageId>, i: nat)
    requires i < |ids|
    ensures ChainBytes(pages, ids[..i + 1]) == ChainBytes(pages, ids[..i]) + ChunkOf(pages, ids[i])
  {
    assert ids[..i + 1][..i] == ids[..i];
  }

  /** A chain depends on its own pages only. */
  lemma {:induction false} ChainFrame(pages: map<PageId, Node>, pages': map<PageId, Node>, ids: seq<PageId>)
    requires forall p | p in ids && p in pages :: p in pages' && pages'[p] == pages[p]
    requires forall p | p in ids :: p in pages
    ensures ChainBytes(pages', ids) == ChainBytes(pages, ids)
    ensures Linked(pages, ids) ==> Linked(pages', ids)
  {
    if ids != [] {
      ChainFrameBytes(pages, pages', ids);
    }
  }

  lemma {:induction false} ChainFrameBytes(pages: map<PageId, Node>, pages': map<PageId, Node>, ids: seq<PageId>)
    requires forall p | p in ids :: p in pages && p in pages' && pages'[p] == pages[p]
    ensures ChainBytes(pages', ids) == ChainBytes(pages, ids)
  {
    if ids != [] {
      ChainFrameBytes(pages, pages', ids[..|ids| - 1]);
      assert ids[|ids| - 1] in ids;
    }
  }

  // ---- Writing ----

  method AllocateChain(store: PageStore, count: nat) returns (ids: seq<PageId>)
    requires store.Valid()
    modifies store`pageCount, store`live, store`freeList, store`handed
    ensures store.Valid() && |ids| == count && F.Distinct(ids) && 0 !in ids
    ensures F.Elems(ids) !! old(store.live) && store.live == old(store.live) + F.Elems(ids)
    ensures store.handed == old(store.handed) + F.Elems(ids) && store.pageCount <= old(store.pageCount) + count
  {
    ids := [];
    for i := 0 to count
      invariant store.pageCount <= old(store.pageCount) + i
      invariant store.Valid() && |ids| == i && F.Distinct(ids) && 0 !in ids
      invariant F.Elems(ids) !! old(store.live) && store.live == old(store.live) + F.Elems(ids)
      invariant store.handed == old(store.handed) + F.Elems(ids)
    {
      var id := store.Allocate();
      F.ElemsConcat(ids, [id]);
      assert F.Elems([id]) == {id};
      assert id !in F.Elems(ids);
      assert forall j | 0 <= j < |ids| :: ids[j] in F.Elems(ids);
      ids := ids + [id];
    }
  }

  function Chunk(value: seq<Byte>, payload: nat, i: nat): seq<Byte>
    requires payload > 0 && i < ChainLength(|value|, payload)
  {
    ChunkBounds(|value|, payload, i);
    value[i * payload..Min((i + 1) * payload, |value|)]
  }

  /** Write a value to a fresh chain. */
  method WriteChain(store: PageStore, value: seq<Byte>) returns (root: PageId, ghost chain: seq<PageId>)
    requires store.Valid()
    modifies store`pages, store`pageCount, store`live, store`freeList, store`handed, store`written
    ensures store.Valid() && Linked(store.pages, chain) && ChainBytes(store.pages, chain) == value && root == chain[0]
    ensures root <= old(store.pageCount) + ChainLength(|value|, Payload(store.pageSize))
    ensures F.Distinct(chain) && |chain| == ChainLength(|value|, Payload(store.pageSize))
    ensures F.Elems(chain) !! old(store.live) && store.live == old(store.live) + F.Elems(chain)
    ensures store.handed == old(store.handed) && store.written == old(store.written) + F.Elems(chain)
    ensures forall p | p in old(store.pages) :: p in store.pages && store.pages[p] == old(store.pages)[p]
  {
    hide F.Ids, F.Elems, F.Distinct, ChainLength, ChainBytes, Chunk;
    var payload := Payload(store.pageSize);
    var count := ChainLength(|value|, payload);
    assert count >= 1 by { AtLeastOne(|value|, payload); }
    var ids := AllocateChain(store, count);
    chain := ids;
    WriteChunks(store, ids, value);
    assert ids[..count] == ids;
    WholeValue(store.pages, ids, value, payload, count);
    root := ids[0];
    StillHanded(ids, 0);
    IdsBound(store.pageCount);
  }

  /** Fill the pages of a chain, each naming the next. */
  method WriteChunks(store: PageStore, ids: seq<PageId>, value: seq<Byte>)
    requires store.Valid() && F.Distinct(ids) && F.Elems(ids) <= store.handed
    requires |ids| == ChainLength(|value|, Payload(store.pageSize))
    modifies store`pages, store`handed, store`written
    ensures store.Valid()
    ensures store.handed == old(store.handed) - F.Elems(ids) && store.written == old(store.written) + F.Elems(ids)
    ensures forall j | 0 <= j < |ids| :: ids[j] in store.pages &&
              store.pages[ids[j]] == Overflow(NextOf(ids, j), Chunk(value, Payload(store.pageSize), j))
    ensures forall p | p in old(store.pages) && p !in F.Elems(ids) ::
              p in store.pages && store.pages[p] == old(store.pages)[p]
  {
    hide F.Ids, F.Elems, F.Distinct, ChainLength, Chunk;
    var payload := Payload(store.pageSize);
    NoElems(ids);
    for i := 0 to |ids|
      invariant store.Valid()
      invariant store.handed == old(store.handed) - F.Elems(ids[..i])
      invariant store.written == old(store.written) + F.Elems(ids[..i])
      invariant forall j | 0 <= j < i :: ids[j] in store.pages &&
                  store.pages[ids[j]] == Overflow(NextOf(ids, j), Chunk(value, payload, j))
      invariant forall p | p in old(store.pages) && p !in F.Elems(ids) ::
                  p in store.pages && store.pages[p] == old(store.pages)[p]
    {
      var next := if i + 1 < |ids| then ids[i + 1] else 0;
      StillHanded(ids, i);
      OtherIds(ids, i);
      store.Write(ids[i], Overflow(next, Chunk(value, payload, i)));
    }
    assert ids[..|ids|] == ids;
  }

  lemma OtherIds(ids: seq<PageId>, i: nat)
    requires i < |ids| && F.Distinct(ids)
    ensures forall j | 0 <= j < i :: ids[j] != ids[i]
  {
  }

  lemma NoElems(ids: seq<PageId>)
    ensures F.Elems(ids[..0]) == {}
  {
  }

  lemma IdsBound(n: nat)
    ensures forall p | p in F.Ids(n) :: p <= n
  {
  }

  lemma AtLeastOne(len: nat, payload: nat)
    requires payload > 0
    ensures ChainLength(len, payload) >= 1
  {
  }

  lemma StillHanded(ids: seq<PageId>, i: nat)
    requires i < |ids| && F.Distinct(ids)
    ensures ids[i] in F.Elems(ids) && ids[i] !in F.Elems(ids[..i])
    ensures F.Elems(ids[..i + 1]) == F.Elems(ids[..i]) + {ids[i]}
  {
    assert ids[..i + 1] == ids[..i] + [ids[i]];
    F.ElemsConcat(ids[..i], [ids[i]]);
    assert F.Elems([ids[i]]) == {ids[i]};
  }

  /** The chunks of a value put together again. */
  lemma {:induction false} WholeValue(pages: map<PageId, Node>, ids: seq<PageId>, value: seq<Byte>, payload: nat, k: nat)
    requires payload > 0 && |ids| == ChainLength(|value|, payload) && 1 <= k <= |ids|
    requires forall j | 0 <= j < |ids| :: ids[j] in pages && pages[ids[j]] == Overflow(NextOf(ids, j), Chunk(value, payload, j))
    ensures ChainBytes(pages, ids[..k]) == if k < |ids| then value[..Min(k * payload, |value|)] else value
  {
    hide ChainLength, ChainBytes;
    var a, b := (k - 1) * payload, k * payload;
    ChunkBounds(|value|, payload, k - 1);
    assert ChunkOf(pages, ids[k - 1]) == value[a..Min(b, |value|)];
    if k > 1 {
      WholeValue(pages, ids, value, payload, k - 1);
    } else {
      assert a == 0 && ids[..0] == [];
      assert ChainBytes(pages, []) == [] by { NoBytes(pages); }
    }
    assert ChainBytes(pages, ids[..k - 1]) == value[..a];
    NextChunk(pages, ids, k - 1);
    JoinSlices(value, a, Min(b, |value|));
    assert value[..|value|] == value;
  }

  lemma NoBytes(pages: map<PageId, Node>)
    ensures ChainBytes(pages, []) == []
  {
  }

  lemma JoinSlices(value: seq<Byte>, a: nat, b: nat)
    requires a <= b <= |value|
    ensures value[..a] + value[a..b] == value[..b]
  {
  }

  // ---- Reading ----

  /** Read a chain back, within a budget that a cycle would exhaust. */
  method ReadChain(store: PageStore, root: PageId, totalLen: nat, maxValueBytes: nat, ghost chain: seq<PageId>)
    returns (r: Result<seq<Byte>>)
    requires store.Valid()
    ensures && Linked(store.pages, chain) && root == chain[0]
            && totalLen == |ChainBytes(store.pages, chain)| <= maxValueBytes
            && |chain| == ChainLength(totalLen, Payload(store.pageSize))
            ==> r == Ok(ChainBytes(store.pages, chain))
  {
    hide ChainLength;
    if totalLen > maxValueBytes {
      return Err(Corrupt);
    }
    var payload := Payload(store.pageSize);
    ghost var good := && Linked(store.pages, chain) && root == chain[0] && totalLen == |ChainBytes(store.pages, chain)|
                      && |chain| == ChainLength(totalLen, payload);
    var out: seq<Byte>, cursor, visited := [], root, 0;
    var maxPages := totalLen / payload + 2;
    if good {
      ChainFitsBudget(totalLen, payload, totalLen);
      assert chain[..0] == [];
    }
    while cursor != 0 && visited < maxPages
      invariant 0 <= visited
      invariant good ==> && visited <= |chain| && out == ChainBytes(store.pages, chain[..visited])
                         && cursor == if visited < |chain| then chain[visited] else 0
      decreases maxPages - visited
    {
      if good {
        NextChunk(store.pages, chain, visited);
        assert chain[visited] in store.pages;
      }
      visited := visited + 1;
      var page := store.Read(cursor);
      if page.Err? {
        return Err(page.error);
      }
      if !page.value.Overflow? {
        return Err(Corrupt);
      }
      out := out + page.value.chunk;
      cursor := page.value.next;
    }
    if good {
      assert 0 !in chain;
      assert chain[..|chain|] == chain;
    }
    if |out| != totalLen {
      return Err(Corrupt);
    }
    return Ok(out);
  }

  // ---- Freeing ----

  /** Give a chain's pages back, following each link only once it was read. */
  method FreeChain(store: PageStore, root: PageId, maxValueBytes: nat, ghost chain: seq<PageId>)
    requires store.Valid() && Linked(store.pages, chain) && F.Distinct(chain) && root == chain[0]
    requires |chain| <= maxValueBytes / Payload(store.pageSize) + 4 && F.Elems(chain) !! store.committed
    modifies store`pages, store`live, store`freeList, store`handed, store`written
    ensures store.Valid() && store.live == old(store.live) - F.Elems(chain)
    ensures forall p | p in old(store.pages) && p !in chain :: p in store.pages && store.pages[p] == old(store.pages)[p]
    ensures store.handed == old(store.handed) - F.Elems(chain) && store.written == old(store.written) - F.Elems(chain)
  {
    hide F.Ids, F.Elems, F.Distinct;
    var payload := Payload(store.pageSize);
    var cap := maxValueBytes / payload + 4;
    var cursor, visited := root, 0;
    ghost var pages := store.pages;
    NoElems(chain);
    while cursor != 0 && visited < cap
      invariant 0 <= visited <= |chain| && cursor == if visited < |chain| then chain[visited] else 0
      invariant store.Valid() && store.live == old(store.live) - F.Elems(chain[..visited])
      invariant forall p | p in pages && p !in chain[..visited] :: p in store.pages && store.pages[p] == pages[p]
      invariant store.handed == old(store.handed) - F.Elems(chain[..visited])
      invariant store.written == old(store.written) - F.Elems(chain[..visited])
      decreases cap - visited
    {
      StillHanded(chain, visited);
      NotYet(chain, visited);
      var page := store.Read(cursor);
      assert page.Ok? && page.value == pages[cursor];
      visited := visited + 1;
      store.Free(cursor);
      cursor := page.value.next;
    }
    assert 0 !in chain;
    assert chain[..|chain|] == chain;
  }

  lemma NotYet(chain: seq<PageId>, i: nat)
    requires i < |chain| && F.Distinct(chain)
    ensures chain[i] !in chain[..i] && forall p :: p in chain[..i + 1] <==> p in chain[..i] || p == chain[i]
  {
    assert chain[..i + 1] == chain[..i] + [chain[i]];
  }
}
