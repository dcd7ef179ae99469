/** Reading and claiming within one consumer group: what a delivery, a re-read,
    an acknowledgement and a claim do to its pending list. */
module StreamClaims {
  import opened Wrappers
  import opened StreamValues

  // ---- Invariants of a group ----

  ghost predicate NonZero(pel: seq<Pending>) {
    forall p | p in pel :: p.id != MIN_ID
  }

  ghost predicate UpTo(pel: seq<Pending>, cursor: StreamId) {
    forall p | p in pel :: AtMost(p.id, cursor)
  }

  /** A pending list is sorted; in a group that never saw XGROUP SETID or FORCE
      it also holds no ID twice, and none above the cursor. */
  ghost predicate GroupOk(g: Group, loose: bool) {
    && SortedPel(g.pel) && NonZero(g.pel)
    && (!loose ==> StrictPel(g.pel) && UpTo(g.pel, g.lastDelivered))
  }

  // ---- New deliveries ----

  function Rows(entries: seq<StreamEntry>, consumer: string, nowMs: U64): (rows: seq<Pending>)
    ensures |rows| == |entries|
    ensures forall i | 0 <= i < |rows| :: rows[i] == Pending(entries[i].id, consumer, nowMs, 1)
  {
    seq(|entries|, i requires 0 <= i < |entries| => Pending(entries[i].id, consumer, nowMs, 1))
  }

  /** The entries above the cursor. */
  function Newer(entries: seq<StreamEntry>, cursor: StreamId): seq<StreamEntry> {
    Keep(entries, (e: StreamEntry) => Less(cursor, e.id))
  }

  /** XREADGROUP with `>`: deliver the next entries, each recorded as pending
      unless acknowledgement is waived. */
  method Deliver(entries: seq<StreamEntry>, g: Group, consumer: string, count: nat, noAck: bool, nowMs: U64)
    returns (out: seq<StreamEntry>, g': Group)
    requires Ascending(entries)
    ensures out == FirstCount(Newer(entries, g.lastDelivered), count)
    ensures g'.lastDelivered == if out == [] then g.lastDelivered else out[|out| - 1].id
    ensures g'.entriesRead == g.entriesRead + |out| && g'.name == g.name && g'.consumers == g.consumers
    ensures multiset(g'.pel) == multiset(g.pel + if noAck then [] else Rows(out, consumer, nowMs))
    ensures SortedPel(g.pel) ==> SortedPel(g'.pel)
    ensures out == [] ==> g' == g
  {
    hide SortedPel, Keep;
    var lo := UpperBound(entries, g.lastDelivered);
    assert Newer(entries, g.lastDelivered) == entries[lo..] by {
      KeepRun(entries, lo, |entries|, (e: StreamEntry) => Less(g.lastDelivered, e.id));
      assert entries[lo..|entries|] == entries[lo..];
    }
    var batch := FirstCount(entries[lo..], count);
    out, g' := RecordBatch(batch, g, consumer, noAck, nowMs);
    if out != [] {
      var sorted := SortPel(g'.pel);
      g' := g'.(pel := sorted);
    } else {
      assert g'.pel == g.pel;
    }
  }

  /** Hand out a batch, advancing the cursor and appending the pending rows. */
  method RecordBatch(batch: seq<StreamEntry>, g: Group, consumer: string, noAck: bool, nowMs: U64)
    returns (out: seq<StreamEntry>, g': Group)
    ensures out == batch
    ensures g' == Group(g.name, if batch == [] then g.lastDelivered else batch[|batch| - 1].id, g.entriesRead + |batch|,
                        g.consumers, g.pel + if noAck then [] else Rows(batch, consumer, nowMs))
  {
    out := [];
    g' := g;
    assert batch[..0] == [] && g.pel + [] == g.pel;
    for i := 0 to |batch|
      invariant out == batch[..i]
      invariant g' == Group(g.name, if i == 0 then g.lastDelivered else batch[i - 1].id, g.entriesRead + i, g.consumers,
                            g.pel + if noAck then [] else Rows(batch[..i], consumer, nowMs))
    {
      var entry := batch[i];
      assert batch[..i + 1] == batch[..i] + [entry];
      assert Rows(batch[..i + 1], consumer, nowMs) ==
             Rows(batch[..i], consumer, nowMs) + [Pending(entry.id, consumer, nowMs, 1)];
      out := out + [entry];
      g' := g'.(lastDelivered := entry.id, entriesRead := g'.entriesRead + 1);
      if !noAck {
        g' := g'.(pel := g'.pel + [Pending(entry.id, consumer, nowMs, 1)]);
      }
    }
    assert batch[..|batch|] == batch;
  }

  /** Delivered entries are above the cursor, in order, and up to the new one. */
  lemma DeliveredRange(entries: seq<StreamEntry>, cursor: StreamId, count: nat)
    requires Ascending(entries)
    ensures var out := FirstCount(Newer(entries, cursor), count);
            && Ascending(out) && (forall e | e in out :: e in entries && Less(cursor, e.id))
            && (out != [] ==> forall e | e in out :: AtMost(e.id, out[|out| - 1].id))
  {
    var f := (e: StreamEntry) => Less(cursor, e.id);
    var newer := Newer(entries, cursor);
    KeepAscending(entries, f);
    KeepMembers(entries, f);
    assert newer == Keep(entries, f);
    var out := FirstCount(newer, count);
    forall e | e in out ensures e in newer {
      var i :| 0 <= i < |out| && out[i] == e;
      assert newer[i] == e;
    }
    forall i, j | 0 <= i < j < |out| ensures Less(out[i].id, out[j].id) {
      assert out[i] == newer[i] && out[j] == newer[j];
    }
    if out != [] {
      forall e | e in out ensures AtMost(e.id, out[|out| - 1].id) {
        var i :| 0 <= i < |out| && out[i] == e;
      }
    }
  }

  lemma {:induction false} KeepAscending(entries: seq<StreamEntry>, f: StreamEntry -> bool)
    requires Ascending(entries)
    ensures Ascending(Keep(entries, f))
  {
    if entries != [] {
      KeepAscending(entries[1..], f);
      KeepMembers(entries[1..], f);
      var rest := Keep(entries[1..], f);
      forall i | 0 <= i < |rest| ensures Less(entries[0].id, rest[i].id) {
        assert rest[i] in rest;
        var j :| 0 <= j < |entries[1..]| && entries[1..][j] == rest[i];
      }
    }
  }

  /** In a strict group a delivery appends; sorting moves nothing. */
  lemma DeliverAppends(g: Group, g': Group, entries: seq<StreamEntry>, count: nat, rows: seq<Pending>, noAck: bool,
                       consumer: string, nowMs: U64)
    requires Ascending(entries) && GroupOk(g, false) && (forall e | e in entries :: e.id != MIN_ID)
    requires var out := FirstCount(Newer(entries, g.lastDelivered), count);
             && rows == (if noAck then [] else Rows(out, consumer, nowMs))
             && g'.lastDelivered == (if out == [] then g.lastDelivered else out[|out| - 1].id)
             && multiset(g'.pel) == multiset(g.pel + rows) && SortedPel(g'.pel)
    ensures GroupOk(g', false) && g'.pel == g.pel + rows
  {
    hide Keep, FirstCount, SortedPel, StrictPel, Ascending;
    var out := FirstCount(Newer(entries, g.lastDelivered), count);
    DeliveredRange(entries, g.lastDelivered, count);
    RowsAreAbove(g.pel, g.lastDelivered, out, rows, g'.lastDelivered);
    SortLeavesStrict(g.pel + rows, g'.pel);
  }

  lemma RowsAreAbove(pel: seq<Pending>, cursor: StreamId, out: seq<StreamEntry>, rows: seq<Pending>, cursor': StreamId)
    requires StrictPel(pel) && UpTo(pel, cursor) && NonZero(pel)
    requires Ascending(out) && forall e | e in out :: Less(cursor, e.id) && AtMost(e.id, cursor') && e.id != MIN_ID
    requires rows == [] || (|rows| == |out| && forall i | 0 <= i < |rows| :: rows[i].id == out[i].id)
    requires AtMost(cursor, cursor')
    ensures StrictPel(pel + rows) && UpTo(pel + rows, cursor') && NonZero(pel + rows)
  {
    forall r | r in rows ensures Less(cursor, r.id) && AtMost(r.id, cursor') && r.id != MIN_ID {
      var i :| 0 <= i < |rows| && rows[i] == r;
      assert out[i] in out;
    }
    var all := pel + rows;
    forall i, j | 0 <= i < j < |all| ensures Less(all[i].id, all[j].id) {
      if i < |pel| <= j {
        assert all[i] in pel && all[j] in rows;
      }
    }
  }

  /** In any group: a delivery leaves the pending list free of duplicates exactly
      when it was, and nothing delivered was pending already. */
  lemma DeliverDuplicates(g: Group, g': Group, rows: seq<Pending>)
    requires SortedPel(g.pel) && SortedPel(g'.pel) && multiset(g'.pel) == multiset(g.pel + rows) && StrictPel(rows)
    ensures StrictPel(g'.pel) <==>
            StrictPel(g.pel) && forall r | r in rows :: forall p | p in g.pel :: p.id != r.id
  {
    hide SortedPel, StrictPel, IdCount;
    StrictIsDuplicateFree(g.pel);
    StrictIsDuplicateFree(g'.pel);
    StrictHasNoDuplicate(rows);
    forall id
      ensures IdCount(g'.pel, id) == IdCount(g.pel, id) + IdCount(rows, id)
    {
      IdCountPermutes(g'.pel, g.pel + rows, id);
      IdCountConcat(g.pel, rows, id);
    }
    forall id
      ensures IdCount(g.pel, id) == 0 <==> forall p | p in g.pel :: p.id != id
      ensures IdCount(rows, id) == 0 <==> forall p | p in rows :: p.id != id
    {
      IdCountZero(g.pel, id);
      IdCountZero(rows, id);
    }
    if DuplicateFree(g'.pel) {
      forall r | r in rows ensures forall p | p in g.pel :: p.id != r.id {
        assert IdCount(g'.pel, r.id) <= 1;
      }
      forall id ensures IdCount(g.pel, id) <= 1 {
        assert IdCount(g'.pel, id) <= 1;
      }
    } else if StrictPel(g.pel) {
      var id :| IdCount(g'.pel, id) > 1;
      assert IdCount(g.pel, id) <= 1 && IdCount(rows, id) <= 1;
    }
  }

  // ---- Acknowledging ----

  /** The pending rows without the named IDs. */
  function Without(pel: seq<Pending>, ids: seq<StreamId>): seq<Pending> {
    Keep(pel, (p: Pending) => p.id !in ids)
  }

  /** XACK: drop the named IDs, counting the rows. */
  method Acknowledge(pel: seq<Pending>, ids: seq<StreamId>) returns (out: seq<Pending>, acked: nat)
    ensures out == Without(pel, ids) && acked == |pel| - |out|
  {
    hide Keep;
    out, acked := pel, 0;
    assert ids[..0] == [];
    KeepAll(pel, (p: Pending) => p.id !in ids[..0]);
    KeepMembers(pel, (p: Pending) => p.id !in ids[..0]);
    for i := 0 to |ids|
      invariant out == Keep(pel, (p: Pending) => p.id !in ids[..i])
      invariant |out| <= |pel| && acked == |pel| - |out|
    {
      var id := ids[i];
      var left := Keep(out, (p: Pending) => p.id != id);
      KeepMembers(out, (p: Pending) => p.id != id);
      KeepTwice(pel, ids, i);
      acked := acked + (|out| - |left|);
      out := left;
    }
    assert ids[..|ids|] == ids;
    KeepSame(pel, (p: Pending) => p.id !in ids[..|ids|], (p: Pending) => p.id !in ids);
  }

  lemma {:induction false} KeepSame<T>(s: seq<T>, f: T -> bool, g: T -> bool)
    requires forall x | x in s :: f(x) == g(x)
    ensures Keep(s, f) == Keep(s, g)
  {
    if s != [] {
      KeepSame(s[1..], f, g);
    }
  }

  lemma {:induction false} KeepKeep<T>(s: seq<T>, f: T -> bool, g: T -> bool, h: T -> bool)
    requires forall x | x in s :: h(x) == (f(x) && g(x))
    ensures Keep(Keep(s, f), g) == Keep(s, h)
  {
    if s != [] {
      KeepKeep(s[1..], f, g, h);
      if f(s[0]) {
        assert Keep(s, f) == [s[0]] + Keep(s[1..], f) && Keep(s, f)[1..] == Keep(s[1..], f);
      } else {
        assert Keep(s, f) == [] + Keep(s[1..], f) == Keep(s[1..], f);
        assert Keep(s, h) == [] + Keep(s[1..], h) == Keep(s[1..], h);
      }
    }
  }

  lemma KeepTwice(pel: seq<Pending>, ids: seq<StreamId>, i: nat)
    requires i < |ids|
    ensures Keep(Keep(pel, (p: Pending) => p.id !in ids[..i]), (p: Pending) => p.id != ids[i]) ==
            Keep(pel, (p: Pending) => p.id !in ids[..i + 1])
  {
    hide Keep;
    assert ids[..i + 1] == ids[..i] + [ids[i]];
    KeepKeep(pel, (p: Pending) => p.id !in ids[..i], (p: Pending) => p.id != ids[i], (p: Pending) => p.id !in ids[..i + 1]);
  }

  // ---- Claiming ----

  datatype Selector = ByIds(wanted: seq<StreamId>) | Scan(start: StreamId, limit: nat)

  datatype ClaimResult = ClaimResult(entries: seq<StreamEntry>, ids: seq<StreamId>, deleted: seq<StreamId>, cursor: StreamId)

  function Idle(nowMs: U64, p: Pending): nat {
    if nowMs >= p.deliveryTimeMs then nowMs as int - p.deliveryTimeMs as int else 0
  }

  /** One XCLAIM or XAUTOCLAIM. */
  datatype Claim = Claim(entries: seq<StreamEntry>, sel: Selector, consumer: string, nowMs: U64, minIdleMs: nat, justId: bool)
  {
    predicate Chosen(p: Pending) {
      && Idle(nowMs, p) >= minIdleMs
      && match sel
         case ByIds(wanted) => p.id in wanted
         case Scan(start, _) => AtMost(start, p.id)
    }

    ghost predicate Taken(p: Pending) {
      Chosen(p) && Present(entries, p.id)
    }

    ghost predicate Gone(p: Pending) {
      Chosen(p) && !Present(entries, p.id)
    }

    function Reassigned(p: Pending): Pending {
      Pending(p.id, consumer, nowMs, if justId then p.deliveryCount else p.deliveryCount + 1)
    }

    ghost function TakenIds(pel: seq<Pending>): seq<StreamId> {
      if pel == [] then []
      else TakenIds(pel[..|pel| - 1]) + if Taken(pel[|pel| - 1]) then [pel[|pel| - 1].id] else []
    }

    ghost function GoneIds(pel: seq<Pending>): seq<StreamId> {
      if pel == [] then []
      else GoneIds(pel[..|pel| - 1]) + if Gone(pel[|pel| - 1]) then [pel[|pel| - 1].id] else []
    }

    /** The rows considered, with their new owner. */
    ghost function Marked(pel: seq<Pending>): (rows: seq<Pending>)
      ensures |rows| == |pel|
      ensures forall i | 0 <= i < |rows| :: rows[i] == if Taken(pel[i]) then Reassigned(pel[i]) else pel[i]
    {
      seq(|pel|, i requires 0 <= i < |pel| => if Taken(pel[i]) then Reassigned(pel[i]) else pel[i])
    }
  }

  /** Reassign the chosen rows whose entry is there, drop those whose entry is
      gone. Rows from `stop` on were not considered: the limit was reached, and
      the cursor says where to go on. */
  method ClaimCore(c: Claim, pel: seq<Pending>) returns (out: seq<Pending>, r: ClaimResult, ghost stop: nat)
    requires Ascending(c.entries) && NonZero(pel) && (c.sel.Scan? ==> c.sel.limit > 0)
    ensures stop <= |pel| && r.ids == c.TakenIds(pel[..stop]) && r.deleted == c.GoneIds(pel[..stop])
    ensures out == Without(MarkedSoFar(c, pel, stop), r.deleted)
    ensures stop == |pel| ==> r.cursor == MIN_ID
    ensures stop < |pel| ==> && c.sel.Scan? && |r.ids| == c.sel.limit
                             && r.cursor == pel[stop].id && AtMost(c.sel.start, r.cursor)
    ensures c.sel.Scan? ==> |r.ids| <= c.sel.limit
    ensures |r.entries| == if c.justId then 0 else |r.ids|
    ensures forall i | 0 <= i < |r.entries| :: r.entries[i] in c.entries && r.entries[i].id == r.ids[i]
  {
    hide Present, Less, MarkedSoFar;
    r := ClaimResult([], [], [], MIN_ID);
    var rows := pel;
    stop := 0;
    assert pel[..0] == [] && MarkedSoFar(c, pel, 0) == pel by { NothingMarked(c, pel); }
    for i := 0 to |pel|
      invariant r.cursor == MIN_ID <==> stop == i
      invariant stop <= i
      invariant stop < i ==> && c.sel.Scan? && |r.ids| == c.sel.limit
                             && r.cursor == pel[stop].id && AtMost(c.sel.start, r.cursor)
      invariant c.sel.Scan? ==> |r.ids| <= c.sel.limit
      invariant r.ids == c.TakenIds(pel[..stop]) && r.deleted == c.GoneIds(pel[..stop])
      invariant rows == MarkedSoFar(c, pel, stop)
      invariant |r.entries| == if c.justId then 0 else |r.ids|
      invariant forall j | 0 <= j < |r.entries| :: r.entries[j] in c.entries && r.entries[j].id == r.ids[j]
    {
      var p := pel[i];
      assert p in pel;
      if c.sel.Scan? && AtMost(c.sel.start, p.id) && |r.ids| >= c.sel.limit {
        if r.cursor == MIN_ID {
          r := r.(cursor := p.id);
        }
        continue;
      }
      NextRow(c, pel, i);
      if stop == i {
        stop := i + 1;
      }
      if !c.Chosen(p) {
        continue;
      }
      var at := FindEntry(c.entries, p.id);
      if at.None? {
        r := r.(deleted := r.deleted + [p.id]);
        continue;
      }
      rows := rows[i := c.Reassigned(p)];
      if !c.justId {
        r := r.(entries := r.entries + [c.entries[at.value]]);
      }
      r := r.(ids := r.ids + [p.id]);
    }
    out := Without(rows, r.deleted);
  }

  /** The rows before `stop` marked, the others as they were. */
  ghost function MarkedSoFar(c: Claim, pel: seq<Pending>, stop: nat): (rows: seq<Pending>)
    requires stop <= |pel|
    ensures |rows| == |pel|
  {
    c.Marked(pel[..stop]) + pel[stop..]
  }

  lemma NothingMarked(c: Claim, pel: seq<Pending>)
    ensures MarkedSoFar(c, pel, 0) == pel
  {
    assert pel[..0] == [] && pel[0..] == pel;
  }

  lemma NextRow(c: Claim, pel: seq<Pending>, i: nat)
    requires i < |pel|
    ensures c.TakenIds(pel[..i + 1]) == c.TakenIds(pel[..i]) + if c.Taken(pel[i]) then [pel[i].id] else []
    ensures c.GoneIds(pel[..i + 1]) == c.GoneIds(pel[..i]) + if c.Gone(pel[i]) then [pel[i].id] else []
    ensures MarkedSoFar(c, pel, i + 1) ==
            if c.Taken(pel[i]) then MarkedSoFar(c, pel, i)[i := c.Reassigned(pel[i])] else MarkedSoFar(c, pel, i)
  {
    var a, b := MarkedSoFar(c, pel, i), MarkedSoFar(c, pel, i + 1);
    forall j | 0 <= j < |pel| && j != i ensures a[j] == b[j] {
    }
    assert a[i] == pel[i];
    if !c.Taken(pel[i]) {
      assert a == b;
    } else {
      assert b == a[i := c.Reassigned(pel[i])];
    }
    assert pel[..i + 1][..i] == pel[..i];
  }

  lemma {:induction false} GoneMembers(c: Claim, pel: seq<Pending>, id: StreamId)
    ensures id in c.GoneIds(pel) <==> exists p | p in pel :: c.Gone(p) && p.id == id
  {
    if pel != [] {
      var init, last := pel[..|pel| - 1], pel[|pel| - 1];
      GoneMembers(c, init, id);
      assert pel == init + [last];
      assert last in pel;
    }
  }

  lemma {:induction false} TakenMembers(c: Claim, pel: seq<Pending>, id: StreamId)
    ensures id in c.TakenIds(pel) <==> exists p | p in pel :: c.Taken(p) && p.id == id
  {
    if pel != [] {
      var init, last := pel[..|pel| - 1], pel[|pel| - 1];
      TakenMembers(c, init, id);
      assert pel == init + [last];
      assert last in pel;
    }
  }

  /** The row was delivered at least that long ago; a zero asks for nothing. */
  predicate IdleFor(p: Pending, nowMs: U64, minIdleMs: nat) {
    minIdleMs == 0 || p.deliveryTimeMs as int + minIdleMs <= nowMs as int
  }

  /** Which IDs a claim takes and which it finds gone, among the rows it considers:
      those asked for, idle long enough, whose entry is there or not. */
  lemma ClaimChooses(c: Claim, rows: seq<Pending>, id: StreamId)
    ensures id in c.TakenIds(rows) <==>
            && Present(c.entries, id) && (if c.sel.ByIds? then id in c.sel.wanted else AtMost(c.sel.start, id))
            && exists p | p in rows :: p.id == id && IdleFor(p, c.nowMs, c.minIdleMs)
    ensures id in c.GoneIds(rows) <==>
            && !Present(c.entries, id) && (if c.sel.ByIds? then id in c.sel.wanted else AtMost(c.sel.start, id))
            && exists p | p in rows :: p.id == id && IdleFor(p, c.nowMs, c.minIdleMs)
  {
    hide Present;
    TakenMembers(c, rows, id);
    GoneMembers(c, rows, id);
  }

  /** What a claim leaves pending: the claimed IDs with their new owner, delivered now
      and once more unless only the IDs were asked for; the deleted ones nowhere;
      every other row as it was. */
  ghost predicate HandsOver(pel: seq<Pending>, pel': seq<Pending>, r: ClaimResult, consumer: string, nowMs: U64, justId: bool) {
    && (forall q | q in pel' && q !in pel ::
          && q.id in r.ids && q.consumer == consumer && q.deliveryTimeMs == nowMs
          && exists p | p in pel :: p.id == q.id && q.deliveryCount == p.deliveryCount + if justId then 0 else 1)
    && (forall id | id in r.ids :: exists q | q in pel' :: q.id == id && q.consumer == consumer && q.deliveryTimeMs == nowMs)
    && (forall q | q in pel' :: q.id !in r.deleted)
    && (forall p | p in pel && p.id !in r.deleted :: HasId(pel', p.id))
  }

  /** Which row became which. */
  lemma MarkedRow(c: Claim, pel: seq<Pending>, stop: nat, i: nat)
    requires stop <= |pel| && i < |pel|
    ensures MarkedSoFar(c, pel, stop)[i] == if i < stop && c.Taken(pel[i]) then c.Reassigned(pel[i]) else pel[i]
  {
    if i < stop {
      assert pel[..stop][i] == pel[i];
    } else {
      assert pel[stop..][i - stop] == pel[i];
    }
  }

  /** The rows a claim leaves, one by one. */
  lemma LeftRows(c: Claim, pel: seq<Pending>, stop: nat, pel': seq<Pending>)
    requires stop <= |pel| && multiset(pel') == multiset(Without(MarkedSoFar(c, pel, stop), c.GoneIds(pel[..stop])))
    ensures forall q | q in pel' :: exists i | 0 <= i < |pel| :: MarkedSoFar(c, pel, stop)[i] == q && q.id !in c.GoneIds(pel[..stop])
    ensures forall i | 0 <= i < |pel| && pel[i].id !in c.GoneIds(pel[..stop]) :: MarkedSoFar(c, pel, stop)[i] in pel'
  {
    hide Keep, MarkedSoFar;
    var rows, gone := MarkedSoFar(c, pel, stop), c.GoneIds(pel[..stop]);
    KeepMembers(rows, (p: Pending) => p.id !in gone);
    MarkKeepsIds(c, pel, stop);
    forall q ensures q in pel' <==> q in rows && q.id !in gone {
      assert q in pel' <==> q in multiset(pel');
      assert q in Without(rows, gone) <==> q in multiset(Without(rows, gone));
    }
  }

  lemma ClaimHandsOver(c: Claim, pel: seq<Pending>, stop: nat, pel': seq<Pending>, r: ClaimResult)
    requires stop <= |pel| && r.ids == c.TakenIds(pel[..stop]) && r.deleted == c.GoneIds(pel[..stop])
    requires multiset(pel') == multiset(Without(MarkedSoFar(c, pel, stop), r.deleted))
    ensures HandsOver(pel, pel', r, c.consumer, c.nowMs, c.justId)
  {
    hide Keep, MarkedSoFar, Present, Claim.Chosen;
    LeftRows(c, pel, stop, pel');
    forall q | q in pel' && q !in pel
      ensures q.id in r.ids && q.consumer == c.consumer && q.deliveryTimeMs == c.nowMs
      ensures exists p | p in pel :: p.id == q.id && q.deliveryCount == p.deliveryCount + if c.justId then 0 else 1
    {
      var i :| 0 <= i < |pel| && MarkedSoFar(c, pel, stop)[i] == q;
      MarkedRow(c, pel, stop, i);
      assert pel[i] in pel && pel[i] in pel[..stop];
      TakenMembers(c, pel[..stop], q.id);
    }
    forall id | id in r.ids
      ensures exists q | q in pel' :: q.id == id && q.consumer == c.consumer && q.deliveryTimeMs == c.nowMs
    {
      TakenMembers(c, pel[..stop], id);
      GoneMembers(c, pel[..stop], id);
      var i :| 0 <= i < stop && c.Taken(pel[i]) && pel[i].id == id;
      MarkedRow(c, pel, stop, i);
    }
    forall p | p in pel && p.id !in r.deleted ensures HasId(pel', p.id) {
      var i :| 0 <= i < |pel| && pel[i] == p;
      MarkedRow(c, pel, stop, i);
    }
  }

  /** Marking changes no ID. */
  lemma MarkKeepsIds(c: Claim, pel: seq<Pending>, stop: nat)
    requires stop <= |pel|
    ensures forall i | 0 <= i < |pel| :: MarkedSoFar(c, pel, stop)[i].id == pel[i].id
  {
    forall i | 0 <= i < |pel| ensures MarkedSoFar(c, pel, stop)[i].id == pel[i].id {
      if i >= stop {
        assert pel[stop..][i - stop] == pel[i];
      }
    }
  }

  /** A claim keeps a group's pending list in order, duplicate-free and below the
      cursor. */
  lemma ClaimKeeps(c: Claim, g: Group, g': Group, stop: nat, deleted: seq<StreamId>, loose: bool)
    requires GroupOk(g, loose) && stop <= |g.pel| && SortedPel(g'.pel) && g'.lastDelivered == g.lastDelivered
    requires multiset(g'.pel) == multiset(Without(MarkedSoFar(c, g.pel, stop), deleted))
    ensures GroupOk(g', loose)
    ensures StrictPel(g.pel) ==> g'.pel == Without(MarkedSoFar(c, g.pel, stop), deleted) && StrictPel(g'.pel)
  {
    hide Keep, MarkedSoFar, Less;
    var rows := MarkedSoFar(c, g.pel, stop);
    var f := (p: Pending) => p.id !in deleted;
    var out := Keep(rows, f);
    MarkKeepsIds(c, g.pel, stop);
    assert SortedPel(rows) && (StrictPel(g.pel) ==> StrictPel(rows));
    KeepSorted(rows, f);
    KeepMembers(rows, f);
    if StrictPel(g.pel) {
      SortLeavesStrict(out, g'.pel);
    }
    forall p | p in g'.pel ensures exists q | q in g.pel :: q.id == p.id {
      assert p in multiset(g'.pel) && p in multiset(out);
      assert p in out && p in rows;
      var i :| 0 <= i < |rows| && rows[i] == p;
      assert g.pel[i] in g.pel;
    }
  }

  lemma {:induction false} NothingTaken(c: Claim, pel: seq<Pending>)
    requires c.TakenIds(pel) == []
    ensures c.Marked(pel) == pel
  {
    if pel != [] {
      var init := pel[..|pel| - 1];
      NothingTaken(c, init);
      forall i | 0 <= i < |pel| ensures c.Marked(pel)[i] == pel[i] {
        if i < |init| {
          assert init[i] == pel[i] && c.Marked(init)[i] == init[i];
        }
      }
    }
  }

  /** A claim that chose nothing would store what is there. */
  lemma NothingClaimed(c: Claim, pel: seq<Pending>, stop: nat)
    requires stop <= |pel| && c.TakenIds(pel[..stop]) == []
    ensures Without(MarkedSoFar(c, pel, stop), []) == pel
  {
    NothingTaken(c, pel[..stop]);
    assert pel[..stop] + pel[stop..] == pel;
    KeepAll(pel, (p: Pending) => p.id !in []);
  }

  const DEFAULT_CLAIM_COUNT := 100

  function ClaimLimit(count: nat): nat {
    if count == 0 then DEFAULT_CLAIM_COUNT else count
  }

  /** XAUTOCLAIM on one group. */
  method AutoClaim(entries: seq<StreamEntry>, g: Group, consumer: string, nowMs: U64, minIdleMs: nat,
                   start: StreamId, count: nat, justId: bool, ghost loose: bool)
    returns (g': Group, r: ClaimResult, ghost stop: nat)
    requires Ascending(entries) && GroupOk(g, loose)
    ensures GroupOk(g', loose)
    ensures g' == if r.ids == [] && r.deleted == [] then g else g.(consumers := g.consumers + {consumer}, pel := g'.pel)
    ensures HandsOver(g.pel, g'.pel, r, consumer, nowMs, justId)
    ensures |r.entries| == if justId then 0 else |r.ids|
    ensures forall i | 0 <= i < |r.entries| :: r.entries[i] in entries && r.entries[i].id == r.ids[i]
    ensures var c := Claim(entries, Scan(start, ClaimLimit(count)), consumer, nowMs, minIdleMs, justId);
            && stop <= |g.pel| && r.ids == c.TakenIds(g.pel[..stop]) && r.deleted == c.GoneIds(g.pel[..stop])
            && multiset(g'.pel) == multiset(Without(MarkedSoFar(c, g.pel, stop), r.deleted))
            && (StrictPel(g.pel) ==> g'.pel == Without(MarkedSoFar(c, g.pel, stop), r.deleted) && StrictPel(g'.pel))
    ensures |r.ids| <= ClaimLimit(count)
    ensures if stop == |g.pel| then r.cursor == MIN_ID
            else r.cursor == g.pel[stop].id && AtMost(start, r.cursor) && |r.ids| == ClaimLimit(count)
  {
    hide Keep, MarkedSoFar, SortedPel, StrictPel, NonZero, UpTo, HandsOver;
    var c := Claim(entries, Scan(start, ClaimLimit(count)), consumer, nowMs, minIdleMs, justId);
    var out;
    out, r, stop := ClaimCore(c, g.pel);
    if r.ids == [] && r.deleted == [] {
      NothingClaimed(c, g.pel, stop);
      ClaimHandsOver(c, g.pel, stop, g.pel, r);
      return g, r, stop;
    }
    var sorted := SortPel(out);
    ClaimHandsOver(c, g.pel, stop, sorted, r);
    g' := g.(consumers := g.consumers + {consumer}, pel := sorted);
    ClaimKeeps(c, g, g', stop, r.deleted, loose);
  }

  /** FORCE: make the named entries that exist pending, unless they are. */
  method ForcePending(entries: seq<StreamEntry>, pel: seq<Pending>, wanted: seq<StreamId>, consumer: string, nowMs: U64)
    returns (out: seq<Pending>)
    requires Ascending(entries) && NonZero(pel) && forall e | e in entries :: e.id != MIN_ID
    ensures SortedPel(out) && NonZero(out)
    ensures SortedPel(pel) && StrictPel(pel) ==> StrictPel(out)
    ensures forall id :: HasId(out, id) <==> HasId(pel, id) || (id in wanted && Present(entries, id))
    ensures (forall p | p in pel :: p in out) && forall q | q in out && q !in pel :: q == Pending(q.id, consumer, nowMs, 0)
  {
    hide Present;
    var rows := pel;
    if SortedPel(pel) && StrictPel(pel) {
      StrictHasNoDuplicate(pel);
    }
    for i := 0 to |wanted|
      invariant NonZero(rows) && (SortedPel(pel) && StrictPel(pel) ==> DuplicateFree(rows))
      invariant forall id :: HasId(rows, id) <==> HasId(pel, id) || (id in wanted[..i] && Present(entries, id))
      invariant pel <= rows && forall q | q in rows && q !in pel :: q == Pending(q.id, consumer, nowMs, 0)
    {
      var id := wanted[i];
      assert wanted[..i + 1] == wanted[..i] + [id];
      var inPel := HasId(rows, id);
      if inPel {
        continue;
      }
      var at := FindEntry(entries, id);
      if at.Some? {
        var row := Pending(id, consumer, nowMs, 0);
        assert entries[at.value] in entries;
        AddedRow(rows, row);
        rows := rows + [row];
      }
    }
    assert wanted[..|wanted|] == wanted;
    out := SortPel(rows);
    SortedRows(rows, out);
  }

  predicate HasId(pel: seq<Pending>, id: StreamId) {
    exists p | p in pel :: p.id == id
  }

  lemma AddedRow(rows: seq<Pending>, row: Pending)
    requires !HasId(rows, row.id)
    ensures DuplicateFree(rows) ==> DuplicateFree(rows + [row])
    ensures forall id :: HasId(rows + [row], id) <==> HasId(rows, id) || id == row.id
  {
    forall id ensures HasId(rows + [row], id) <==> HasId(rows, id) || id == row.id {
      if id == row.id {
        assert row in rows + [row];
      }
    }
    if DuplicateFree(rows) {
      forall id ensures IdCount(rows + [row], id) <= 1 {
        IdCountConcat(rows, [row], id);
        IdCountZero(rows, row.id);
        assert IdCount(rows, id) <= 1;
        assert [row][1..] == [];
      }
    }
  }

  lemma SortedRows(rows: seq<Pending>, out: seq<Pending>)
    requires SortedPel(out) && multiset(out) == multiset(rows)
    ensures DuplicateFree(rows) ==> StrictPel(out)
    ensures NonZero(rows) ==> NonZero(out)
    ensures forall p :: p in out <==> p in rows
    ensures forall id :: HasId(out, id) <==> HasId(rows, id)
  {
    forall p ensures p in out <==> p in rows {
      assert p in out <==> p in multiset(out);
      assert p in rows <==> p in multiset(rows);
    }
    if DuplicateFree(rows) {
      forall id ensures IdCount(out, id) <= 1 {
        IdCountPermutes(out, rows, id);
        assert IdCount(rows, id) <= 1;
      }
      StrictIsDuplicateFree(out);
    }
  }
}
