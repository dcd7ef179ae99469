/** The store file under power loss: two meta slots, a run of data pages, what
    an fsync has made durable, and what recovery reads back. */
module StoreFile {
  import opened Wrappers
  import opened FreeListPages

  /** A meta record. Magic, version, page size and checksum are not state: a
      slot that fails them is `Torn`. */
  datatype Meta = Meta(txnId: nat, root: PageId, freeRoot: PageId, itemCount: nat,
                       valueBytes: nat, keyBytes: nat, dataPages: Option<nat>)

  datatype MetaSlot = A | B

  function OtherSlot(s: MetaSlot): MetaSlot {
    if s.A? then B else A
  }

  datatype SlotContent = Torn | Intact(meta: Meta)

  /** The file as the process sees it (`pages`, `slotA`, `slotB`) together with
      what a power loss may leave: pages in `dirty` or past `floor` are not
      durable, and a slot holds one of its `maybe` values. */
  datatype Disk = Disk(pages: seq<Page>, slotA: SlotContent, slotB: SlotContent,
                       dirty: set<PageId>, floor: nat,
                       maybeA: set<SlotContent>, maybeB: set<SlotContent>)
  {
    ghost predicate Ok(w: nat) {
      && floor <= |pages|
      && (forall i | 0 <= i < |pages| :: |pages[i]| == w)
      && slotA in maybeA && slotB in maybeB
    }

    function Slot(s: MetaSlot): SlotContent {
      if s.A? then slotA else slotB
    }

    function Maybe(s: MetaSlot): set<SlotContent> {
      if s.A? then maybeA else maybeB
    }

    /** A write to page `p`, which may be the first page past the end. */
    function WritePage(p: PageId, content: Page): Disk
      requires 1 <= p <= |pages| + 1
    {
      this.(pages := if p <= |pages| then pages[p - 1 := content] else pages + [content],
            dirty := dirty + {p})
    }

    function SetLength(n: nat): Disk
      requires n <= |pages|
    {
      this.(pages := pages[..n], floor := Min(floor, n))
    }

    /** Until the next fsync a written slot may hold its old value, the new one
        or neither. */
    function WriteSlot(s: MetaSlot, m: Meta): Disk {
      if s.A?
      then this.(slotA := Intact(m), maybeA := maybeA + {Intact(m), Torn})
      else this.(slotB := Intact(m), maybeB := maybeB + {Intact(m), Torn})
    }

    function Fsync(): Disk {
      this.(dirty := {}, floor := |pages|, maybeA := {slotA}, maybeB := {slotB})
    }
  }

  /** `after` is a file a power loss may leave of `before`: every durable page
      keeps its bytes, every other page may hold anything, the file may have
      any length from its durable one up. This admits every subset of the writes
      made since the last fsync, each possibly torn. */
  ghost predicate PowerLoss(before: Disk, after: Disk, w: nat) {
    && after.Ok(w)
    && before.floor <= |before.pages| && before.floor <= |after.pages|
    && (forall p | 1 <= p <= before.floor && p !in before.dirty :: after.pages[p - 1] == before.pages[p - 1])
    && after.slotA in before.maybeA && after.slotB in before.maybeB
    && after == after.Fsync()
  }

  // ---- Recovery ----

  /** The live meta and the slot it came from: the valid slot with the higher
      transaction id, slot A on a tie. */
  function ChooseMeta(a: SlotContent, b: SlotContent): (r: Result<(Meta, MetaSlot)>) {
    match (a, b)
    case (Torn, Torn) => Err(CorruptMetas)
    case (Intact(m), Torn) => Ok((m, A))
    case (Torn, Intact(m)) => Ok((m, B))
    case (Intact(x), Intact(y)) => if x.txnId >= y.txnId then Ok((x, A)) else Ok((y, B))
  }

  /** Free pages of a recovered store: named by the list and still in the file,
      or past the page count the meta recorded. */
  ghost function RecoveredFree(meta: Meta, entries: seq<PageId>, total: nat): (s: set<PageId>)
    ensures forall p :: p in s <==> && 1 <= p <= total
                                    && (p in entries || (meta.dataPages.Some? && p > meta.dataPages.value))
  {
    set p | p in Ids(total) && (p in entries || (meta.dataPages.Some? && p > meta.dataPages.value))
  }

  datatype Recovered = Recovered(meta: Meta, slot: MetaSlot, list: seq<PageId>, entries: seq<PageId>)

  /** What opening an existing file reads. */
  function Recover(d: Disk, w: nat): (r: Result<Recovered>)
    requires w > 2 && forall i | 0 <= i < |d.pages| :: |d.pages[i]| == w
  {
    match ChooseMeta(d.slotA, d.slotB)
    case Err(e) => Err(e)
    case Ok((meta, slot)) =>
      match Chase(d.pages, w, meta.freeRoot, {})
      case Err(e) => Err(e)
      case Ok((list, entries)) => Ok(Recovered(meta, slot, list, entries))
  }

  // ---- Commit records ----

  /** What a client committed: its own figures, and the pages it asked to keep. */
  datatype Commit = Commit(root: PageId, itemCount: nat, valueBytes: nat, keyBytes: nat, tree: map<PageId, Page>)

  ghost function CommitOf(meta: Meta, tree: map<PageId, Page>): Commit {
    Commit(meta.root, meta.itemCount, meta.valueBytes, meta.keyBytes, tree)
  }

  /** The metas agree on what is the client's: all but the transaction id and the two
      fields the store stamps. */
  predicate SameFigures(a: Meta, b: Meta) {
    a.root == b.root && a.itemCount == b.itemCount && a.valueBytes == b.valueBytes && a.keyBytes == b.keyBytes
  }

  /** A commit as the file must be able to give it back: its meta, the pages its
      root reaches with their contents, its free-list chain and the ids the
      chain names. */
  datatype Snapshot = Snapshot(meta: Meta, tree: map<PageId, Page>, list: seq<PageId>, entries: seq<PageId>)
  {
    ghost function AsCommit(): Commit {
      CommitOf(meta, tree)
    }

    /** The pages this commit still needs. */
    ghost function Needs(): set<PageId> {
      tree.Keys + Elems(list)
    }

    ghost predicate Consistent() {
      && 0 !in Needs() && 0 !in entries
      && Distinct(list)
      && tree.Keys !! Elems(list)
      && Elems(entries) !! Needs()
      && meta.freeRoot == Head(list)
      && (meta.dataPages.Some? ==> forall p | p in Needs() :: p <= meta.dataPages.value)
    }

    /** The file holds the commit's pages, byte for byte. */
    ghost predicate HeldBy(pages: seq<Page>, w: nat)
      requires w > 2
    {
      && (forall p | p in tree :: 1 <= p <= |pages| && pages[p - 1] == tree[p])
      && Chain(pages, w, list, entries)
    }

    /** The file holds them, and a power loss cannot take them away. */
    ghost predicate DurableIn(d: Disk, w: nat)
      requires w > 2
    {
      && HeldBy(d.pages, w)
      && (forall p | p in Needs() :: p <= d.floor && p !in d.dirty)
    }
  }

  /** A moment of a run: the file then, the last durable commit, and the commit
      in flight (the durable one again when none is). */
  datatype CrashPoint = CrashPoint(disk: Disk, durable: Snapshot, inFlight: Snapshot)

  /** A slot value recovery may find beside `durable`. */
  ghost predicate Harmless(v: SlotContent, durable: Snapshot, inFlight: Snapshot) {
    || v.Torn?
    || v.meta == durable.meta
    || v.meta.txnId < durable.meta.txnId
    || v.meta == inFlight.meta
  }

  /** The durable commit is pinned by one slot that no pending write touches. */
  ghost predicate Pinned(d: Disk, slot: MetaSlot, durable: Snapshot, inFlight: Snapshot) {
    && d.Maybe(slot) == {Intact(durable.meta)}
    && forall v | v in d.Maybe(OtherSlot(slot)) :: Harmless(v, durable, inFlight)
  }

  ghost predicate Anchored(c: CrashPoint, slot: MetaSlot, w: nat)
    requires w > 2
  {
    && c.disk.Ok(w)
    && c.durable.Consistent() && c.durable.DurableIn(c.disk, w)
    && c.inFlight.Consistent() && c.inFlight.DurableIn(c.disk, w)
    && (c.inFlight == c.durable || c.inFlight.meta.txnId > c.durable.meta.txnId)
    && Pinned(c.disk, slot, c.durable, c.inFlight)
  }

  /** A crash point every power loss of which recovery survives. */
  ghost predicate CrashSafe(c: CrashPoint, w: nat)
    requires w > 2
  {
    Anchored(c, A, w) || Anchored(c, B, w)
  }

  /** Every moment is crash-safe, and what it must give back was committed. */
  ghost predicate AllSafe(trace: seq<CrashPoint>, w: nat, history: set<Commit>)
    requires w > 2
  {
    forall c | c in trace :: CrashSafe(c, w) && c.durable.AsCommit() in history && c.inFlight.AsCommit() in history
  }

  /** Opening `d` gives back `s`: its meta, its chain, its pages byte for byte,
      and a free set that touches none of them. */
  ghost predicate GivesBack(d: Disk, s: Snapshot, w: nat)
    requires w > 2 && forall i | 0 <= i < |d.pages| :: |d.pages[i]| == w
  {
    && s.HeldBy(d.pages, w)
    && Recover(d, w).Ok?
    && var r := Recover(d, w).value;
    && r.meta == s.meta && d.Slot(r.slot) == Intact(s.meta)
    && r.list == s.list && r.entries == s.entries
    && RecoveredFree(r.meta, r.entries, |d.pages|) !! s.Needs()
  }

  /** Opening `d` gives back `s`, and the file is crash-safe again at once. */
  ghost predicate Restores(d: Disk, s: Snapshot, w: nat)
    requires w > 2 && forall i | 0 <= i < |d.pages| :: |d.pages[i]| == w
  {
    GivesBack(d, s, w) && Anchored(CrashPoint(d, s, s), Recover(d, w).value.slot, w)
  }

  lemma HeldIsGivenBack(d: Disk, s: Snapshot, slot: MetaSlot, w: nat)
    requires w > 2 && forall i | 0 <= i < |d.pages| :: |d.pages[i]| == w
    requires s.Consistent() && s.HeldBy(d.pages, w)
    requires ChooseMeta(d.slotA, d.slotB) == Ok((s.meta, slot))
    ensures GivesBack(d, s, w)
  {
    ChaseFollowsChain(d.pages, w, s.list, s.entries, {});
    forall p | p in s.Needs()
      ensures p !in RecoveredFree(s.meta, s.entries, |d.pages|)
    {
      assert p !in Elems(s.entries);
    }
  }

  /** A durable commit's pages survive a power loss. */
  lemma DurableSurvives(d: Disk, d': Disk, s: Snapshot, w: nat)
    requires w > 2 && PowerLoss(d, d', w) && s.Consistent() && s.DurableIn(d, w)
    ensures s.HeldBy(d'.pages, w)
  {
    forall p | p in s.list
      ensures 1 <= p <= |d.pages| && p <= |d'.pages| && d'.pages[p - 1] == d.pages[p - 1]
    {
      assert p in Elems(s.list) && p in s.Needs();
    }
    ChainFrame(d.pages, d'.pages, w, s.list, s.entries);
    forall p | p in s.tree
      ensures 1 <= p <= |d'.pages| && d'.pages[p - 1] == s.tree[p]
    {
      assert p in s.Needs();
    }
  }

  /** Crash safety: whatever a power loss leaves of a safe crash point, opening
      it gives back the last durable commit or the one in flight, whole -- and
      the reopened file is itself a safe crash point. */
  lemma CrashRecovers(c: CrashPoint, d': Disk, w: nat) returns (s: Snapshot)
    requires w > 2 && CrashSafe(c, w) && PowerLoss(c.disk, d', w)
    ensures s == c.durable || s == c.inFlight
    ensures Restores(d', s, w)
  {
    var slot := if Anchored(c, A, w) then A else B;
    DurableSurvives(c.disk, d', c.durable, w);
    DurableSurvives(c.disk, d', c.inFlight, w);
    assert d'.Slot(slot) == Intact(c.durable.meta);
    var other := d'.Slot(OtherSlot(slot));
    assert Harmless(other, c.durable, c.inFlight);
    var chosen := ChooseMeta(d'.slotA, d'.slotB).value;
    s := if other.Intact? && other.meta == c.inFlight.meta then c.inFlight else c.durable;
    HeldIsGivenBack(d', s, chosen.1, w);
    NeedsExist(s, d'.pages, w);
  }

  lemma NeedsExist(s: Snapshot, pages: seq<Page>, w: nat)
    requires w > 2 && s.HeldBy(pages, w)
    ensures forall p | p in s.Needs() :: 1 <= p <= |pages|
  {
    ChainPagesExist(pages, w, s.list, s.entries);
  }

  // ---- What each device operation keeps ----

  lemma WriteKeeps(d: Disk, p: PageId, content: Page, s: Snapshot, slot: MetaSlot, w: nat)
    requires w > 2 && 1 <= p <= |d.pages| + 1 && |content| == w
    requires Anchored(CrashPoint(d, s, s), slot, w) && p !in s.Needs()
    ensures Anchored(CrashPoint(d.WritePage(p, content), s, s), slot, w)
  {
    var d' := d.WritePage(p, content);
    NeedsExist(s, d.pages, w);
    forall q | q in s.list
      ensures 1 <= q <= |d.pages| && q <= |d'.pages| && d'.pages[q - 1] == d.pages[q - 1]
    {
      assert q in Elems(s.list) && q in s.Needs();
    }
    ChainFrame(d.pages, d'.pages, w, s.list, s.entries);
  }

  lemma FsyncKeeps(d: Disk, s: Snapshot, slot: MetaSlot, w: nat)
    requires w > 2 && Anchored(CrashPoint(d, s, s), slot, w)
    ensures Anchored(CrashPoint(d.Fsync(), s, s), slot, w)
  {
    NeedsExist(s, d.pages, w);
    var o := OtherSlot(slot);
    assert d.Slot(o) in d.Maybe(o);
  }

  lemma CutKeeps(d: Disk, n: nat, s: Snapshot, slot: MetaSlot, w: nat)
    requires w > 2 && n <= |d.pages| && Anchored(CrashPoint(d, s, s), slot, w)
    requires forall p | p in s.Needs() :: p <= n
    ensures Anchored(CrashPoint(d.SetLength(n), s, s), slot, w)
  {
    var d' := d.SetLength(n);
    NeedsExist(s, d.pages, w);
    forall q | q in s.list
      ensures 1 <= q <= |d.pages| && q <= |d'.pages| && d'.pages[q - 1] == d.pages[q - 1]
    {
      assert q in Elems(s.list) && q in s.Needs();
    }
    ChainFrame(d.pages, d'.pages, w, s.list, s.entries);
  }

  /** Writing the next meta to the other slot puts the commit in flight. */
  lemma SlotWriteKeeps(d: Disk, s: Snapshot, next: Snapshot, slot: MetaSlot, w: nat)
    requires w > 2 && Anchored(CrashPoint(d, s, s), slot, w)
    requires next.Consistent() && next.DurableIn(d, w) && next.meta.txnId > s.meta.txnId
    ensures Anchored(CrashPoint(d.WriteSlot(OtherSlot(slot), next.meta), s, next), slot, w)
  {
    var o := OtherSlot(slot);
    forall v | v in d.WriteSlot(o, next.meta).Maybe(o)
      ensures Harmless(v, s, next)
    {
      assert v in d.Maybe(o) ==> Harmless(v, s, s);
    }
  }

  /** The fsync after it makes that commit the durable one. */
  lemma SlotFsyncCommits(d: Disk, s: Snapshot, next: Snapshot, slot: MetaSlot, w: nat)
    requires w > 2 && Anchored(CrashPoint(d, s, next), slot, w)
    requires next.meta.txnId > s.meta.txnId
    requires d.Slot(OtherSlot(slot)) == Intact(next.meta)
    ensures Anchored(CrashPoint(d.Fsync(), next, next), OtherSlot(slot), w)
  {
    NeedsExist(next, d.pages, w);
    assert d.Slot(slot) in d.Maybe(slot);
  }
}
