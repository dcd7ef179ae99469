/** XAUTOCLAIM paging: feeding the returned cursor back until it is 0-0 goes over
    the pending list exactly once. */
module StreamSweep {
  import opened StreamValues
  import opened StreamClaims

  /** One call of a sweep: when it ran, the rows it considered, what it claimed
      and what it found gone. */
  datatype Page = Page(nowMs: U64, rows: seq<Pending>, claimed: seq<StreamId>, deleted: seq<StreamId>)

  ghost function AllRows(pages: seq<Page>): seq<Pending> {
    if pages == [] then [] else AllRows(pages[..|pages| - 1]) + pages[|pages| - 1].rows
  }

  ghost function AllDeleted(pages: seq<Page>): seq<StreamId> {
    if pages == [] then [] else AllDeleted(pages[..|pages| - 1]) + pages[|pages| - 1].deleted
  }

  lemma AddPage(pages: seq<Page>, page: Page)
    ensures AllRows(pages + [page]) == AllRows(pages) + page.rows
    ensures AllDeleted(pages + [page]) == AllDeleted(pages) + page.deleted
  {
    assert (pages + [page])[..|pages|] == pages;
  }

  ghost function IdsOf(pel: seq<Pending>): (ids: seq<StreamId>)
    ensures |ids| == |pel| && forall i | 0 <= i < |ids| :: ids[i] == pel[i].id
  {
    seq(|pel|, i requires 0 <= i < |pel| => pel[i].id)
  }

  ghost predicate NoneOf(pel: seq<Pending>, ids: seq<StreamId>) {
    forall p | p in pel :: p.id !in ids
  }

  lemma WithoutConcat(a: seq<Pending>, b: seq<Pending>, gone: seq<StreamId>)
    ensures Without(a + b, gone) == Without(a, gone) + Without(b, gone)
  {
    KeepConcat(a, b, (p: Pending) => p.id !in gone);
  }

  lemma WithoutNone(a: seq<Pending>, gone: seq<StreamId>)
    requires NoneOf(a, gone)
    ensures Without(a, gone) == a
  {
    KeepAll(a, (p: Pending) => p.id !in gone);
  }

  /** Only the IDs that occur matter. */
  lemma WithoutMore(a: seq<Pending>, gone: seq<StreamId>, more: seq<StreamId>)
    requires NoneOf(a, more)
    ensures Without(a, gone + more) == Without(a, gone) && Without(a, more + gone) == Without(a, gone)
  {
    hide Keep;
    KeepSame(a, (p: Pending) => p.id !in gone + more, (p: Pending) => p.id !in gone);
    KeepSame(a, (p: Pending) => p.id !in more + gone, (p: Pending) => p.id !in gone);
  }

  /** Rows with the same IDs lose the same IDs. */
  lemma {:induction false} WithoutByIds(a: seq<Pending>, b: seq<Pending>, gone: seq<StreamId>)
    requires IdsOf(a) == IdsOf(b)
    ensures IdsOf(Without(a, gone)) == IdsOf(Without(b, gone))
    decreases |a|
  {
    assert |a| == |IdsOf(a)| == |IdsOf(b)| == |b|;
    if a != [] {
      assert IdsOf(a)[0] == IdsOf(b)[0];
      assert IdsOf(a[1..]) == IdsOf(a)[1..] && IdsOf(b[1..]) == IdsOf(b)[1..];
      WithoutByIds(a[1..], b[1..], gone);
      var x, y := Without(a[1..], gone), Without(b[1..], gone);
      if a[0].id !in gone {
        assert Without(a, gone) == [a[0]] + x && Without(b, gone) == [b[0]] + y;
        assert IdsOf([a[0]] + x) == [a[0].id] + IdsOf(x);
        assert IdsOf([b[0]] + y) == [b[0].id] + IdsOf(y);
      } else {
        assert Without(a, gone) == [] + x == x && Without(b, gone) == [] + y == y;
      }
    }
  }

  // ---- What one call does to the rows below its start, in its page, and after ----

  lemma {:induction false} ClaimConcat(c: Claim, a: seq<Pending>, b: seq<Pending>)
    ensures c.TakenIds(a + b) == c.TakenIds(a) + c.TakenIds(b)
    ensures c.GoneIds(a + b) == c.GoneIds(a) + c.GoneIds(b)
    decreases |b|
  {
    if b == [] {
      assert a + b == a;
    } else {
      var init := b[..|b| - 1];
      ClaimConcat(c, a, init);
      assert (a + b)[..|a + b| - 1] == a + init;
    }
  }

  lemma {:induction false} NoneChosen(c: Claim, a: seq<Pending>)
    requires forall p | p in a :: !c.Chosen(p)
    ensures c.TakenIds(a) == [] && c.GoneIds(a) == [] && c.Marked(a) == a
  {
    if a != [] {
      NoneChosen(c, a[..|a| - 1]);
      assert a[|a| - 1] in a;
    }
    assert forall i | 0 <= i < |a| :: a[i] in a;
  }

  /** The start does not matter to rows above it. */
  lemma {:induction false} SameAbove(c: Claim, d: Claim, a: seq<Pending>)
    requires c.sel.Scan? && d == c.(sel := d.sel) && d.sel.Scan?
    requires forall p | p in a :: AtMost(c.sel.start, p.id) && AtMost(d.sel.start, p.id)
    ensures c.TakenIds(a) == d.TakenIds(a) && c.GoneIds(a) == d.GoneIds(a)
  {
    if a != [] {
      SameAbove(c, d, a[..|a| - 1]);
      assert a[|a| - 1] in a;
    }
  }

  lemma GoneAreRows(c: Claim, a: seq<Pending>, rest: seq<Pending>)
    requires StrictPel(a + rest) || StrictPel(rest + a)
    ensures NoneOf(rest, c.GoneIds(a))
  {
    if StrictPel(a + rest) {
      StrictApart(a, rest);
    } else {
      StrictApart(rest, a);
    }
    forall p | p in rest ensures p.id !in c.GoneIds(a) {
      GoneMembers(c, a, p.id);
    }
  }

  lemma StrictApart(a: seq<Pending>, b: seq<Pending>)
    requires StrictPel(a + b)
    ensures forall p, q | p in a && q in b :: Less(p.id, q.id)
  {
    forall p, q | p in a && q in b ensures Less(p.id, q.id) {
      var i :| 0 <= i < |a| && a[i] == p;
      var j :| 0 <= j < |b| && b[j] == q;
      assert (a + b)[i] == p && (a + b)[|a| + j] == q;
    }
  }

  /** One call over `before + rest`, where `before` lies below the start: it
      considers `rest[..n]` and leaves everything else alone. */
  lemma OnePage(c: Claim, before: seq<Pending>, rest: seq<Pending>, stop: nat, n: nat, pel': seq<Pending>)
    requires c.sel.Scan? && StrictPel(before + rest) && stop == |before| + n && n <= |rest|
    requires forall p | p in before :: !AtMost(c.sel.start, p.id)
    requires pel' == Without(MarkedSoFar(c, before + rest, stop), c.GoneIds((before + rest)[..stop]))
    ensures c.TakenIds((before + rest)[..stop]) == c.TakenIds(rest[..n])
    ensures c.GoneIds((before + rest)[..stop]) == c.GoneIds(rest[..n])
    ensures pel' == before + Without(c.Marked(rest[..n]), c.GoneIds(rest[..n])) + rest[n..]
  {
    hide Keep, StrictPel, Less;
    var all := before + rest;
    assert all[..stop] == before + rest[..n] && all[stop..] == rest[n..];
    ClaimConcat(c, before, rest[..n]);
    NoneChosen(c, before);
    var gone := c.GoneIds(rest[..n]);
    assert [] + gone == gone;
    MarkedConcat(c, before, rest[..n]);
    assert MarkedSoFar(c, all, stop) == before + c.Marked(rest[..n]) + rest[n..];
    WithoutConcat(before + c.Marked(rest[..n]), rest[n..], gone);
    WithoutConcat(before, c.Marked(rest[..n]), gone);
    PageIsApart(c, before, rest, n);
    WithoutNone(before, gone);
    WithoutNone(rest[n..], gone);
  }

  lemma MarkedConcat(c: Claim, a: seq<Pending>, b: seq<Pending>)
    ensures c.Marked(a + b) == c.Marked(a) + c.Marked(b)
  {
  }

  lemma PageIsApart(c: Claim, before: seq<Pending>, rest: seq<Pending>, n: nat)
    requires StrictPel(before + rest) && n <= |rest|
    ensures NoneOf(before, c.GoneIds(rest[..n])) && NoneOf(rest[n..], c.GoneIds(rest[..n]))
  {
    var s := before + rest;
    assert before + rest[..n] == s[..|before| + n];
    assert rest[..n] + rest[n..] == s[|before|..];
    GoneAreRows(c, rest[..n], before);
    GoneAreRows(c, rest[..n], rest[n..]);
  }

  // ---- The sweep ----

  ghost predicate AllBelow(rows: seq<Pending>, id: StreamId) {
    forall p | p in rows :: Less(p.id, id)
  }

  ghost predicate AllFrom(rows: seq<Pending>, id: StreamId) {
    forall p | p in rows :: AtMost(id, p.id)
  }

  /** What one page of the sweep did. */
  ghost predicate PageDone(page: Page, c: Claim) {
    && page.claimed == c.TakenIds(page.rows) && page.deleted == c.GoneIds(page.rows)
    && c.sel.Scan? && |page.claimed| <= c.sel.limit
  }

  /** Where a sweep over `all` stands: everything before `k` is done. */
  ghost predicate SweepAt(all: seq<Pending>, lo: nat, k: nat, pel: seq<Pending>, before: seq<Pending>, pages: seq<Page>) {
    && lo <= k <= |all| && pel == before + all[k..] && StrictPel(pel)
    && AllRows(pages) == all[lo..k]
    && IdsOf(before) == IdsOf(Without(all[..k], AllDeleted(pages)))
    && NoneOf(all[k..], AllDeleted(pages))
  }

  lemma SweepPage(all: seq<Pending>, lo: nat, k: nat, pel: seq<Pending>, before: seq<Pending>, pages: seq<Page>,
                  c: Claim, n: nat, page: Page, before': seq<Pending>)
    requires StrictPel(all) && SweepAt(all, lo, k, pel, before, pages) && n <= |all| - k
    requires page.rows == all[k..k + n] && page.deleted == c.GoneIds(page.rows)
    requires before' == before + Without(c.Marked(page.rows), page.deleted)
    requires StrictPel(before' + all[k + n..])
    ensures SweepAt(all, lo, k + n, before' + all[k + n..], before', pages + [page])
  {
    hide Keep, StrictPel, Less, Without, IdsOf, AllRows, AllDeleted;
    var rows, gone, past := page.rows, page.deleted, AllDeleted(pages);
    AddPage(pages, page);
    assert all[lo..k] + rows == all[lo..k + n];
    NoneOfParts(all, k, n, past);
    StrictParts(all, k, n);
    GoneAreRows(c, rows, all[..k]);
    GoneAreRows(c, rows, all[k + n..]);
    PageIds(c, all[..k], rows, past, gone, before);
    assert all[..k + n] == all[..k] + rows;
  }

  lemma NoneOfParts(all: seq<Pending>, k: nat, n: nat, past: seq<StreamId>)
    requires k + n <= |all| && NoneOf(all[k..], past)
    ensures NoneOf(all[k..k + n], past) && NoneOf(all[k + n..], past)
  {
    assert all[k..] == all[k..k + n] + all[k + n..];
  }

  /** The IDs left by a page: those of the rows before it, and its own that are
      not gone. */
  lemma PageIds(c: Claim, done: seq<Pending>, rows: seq<Pending>, past: seq<StreamId>, gone: seq<StreamId>, before: seq<Pending>)
    requires IdsOf(before) == IdsOf(Without(done, past)) && NoneOf(rows, past) && NoneOf(done, gone)
    ensures IdsOf(before + Without(c.Marked(rows), gone)) == IdsOf(Without(done + rows, past + gone))
  {
    hide Keep, Without, IdsOf;
    WithoutConcat(done, rows, past + gone);
    WithoutMore(done, past, gone);
    WithoutMore(rows, gone, past);
    assert IdsOf(c.Marked(rows)) == IdsOf(rows) by { MarkedIds(c, rows); }
    WithoutByIds(c.Marked(rows), rows, gone);
    IdsConcat(before, Without(c.Marked(rows), gone));
    IdsConcat(Without(done, past), Without(rows, gone));
  }

  lemma MarkedIds(c: Claim, rows: seq<Pending>)
    ensures IdsOf(c.Marked(rows)) == IdsOf(rows)
  {
  }

  lemma IdsConcat(a: seq<Pending>, b: seq<Pending>)
    ensures IdsOf(a + b) == IdsOf(a) + IdsOf(b)
  {
  }

  lemma StrictParts(all: seq<Pending>, k: nat, n: nat)
    requires StrictPel(all) && k + n <= |all|
    ensures StrictPel(all[..k] + all[k..k + n]) && StrictPel(all[k..k + n] + all[k + n..])
  {
    assert all[..k] + all[k..k + n] == all[..k + n];
    assert all[k..k + n] + all[k + n..] == all[k..];
  }

  /** Which rows the call considered: it starts at `all[k]`. */
  lemma PageEnd(all: seq<Pending>, k: nat, pel: seq<Pending>, before: seq<Pending>, start: StreamId, stop: nat)
    requires k <= |all| && pel == before + all[k..] && stop <= |pel|
    requires AllBelow(before, start)
    requires stop < |pel| ==> AtMost(start, pel[stop].id)
    ensures stop >= |before|
    ensures stop < |pel| ==> k + (stop - |before|) < |all| && pel[stop] == all[k + (stop - |before|)]
  {
    assert forall i | 0 <= i < |before| :: pel[i] in before;
  }

  /** Everything below the next start: it is strictly before `all[k]`. */
  lemma BeforeIsBelow(pel: seq<Pending>, before: seq<Pending>, rest: seq<Pending>)
    requires pel == before + rest && StrictPel(pel) && rest != []
    ensures forall p | p in before :: Less(p.id, rest[0].id)
  {
    StrictApart(before, rest);
  }

  lemma FirstPage(all: seq<Pending>, start: StreamId) returns (lo: nat)
    requires StrictPel(all)
    ensures lo <= |all| && Keep(all, (p: Pending) => AtMost(start, p.id)) == all[lo..]
    ensures AllBelow(all[..lo], start) && AllFrom(all[lo..], start)
    ensures SweepAt(all, lo, lo, all, all[..lo], [])
  {
    hide Keep, SweepAt;
    lo := 0;
    while lo < |all| && Less(all[lo].id, start)
      invariant lo <= |all| && forall i | 0 <= i < lo :: Less(all[i].id, start)
    {
      lo := lo + 1;
    }
    AboveStart(all, start, lo);
    SweepBegins(all, lo);
  }

  lemma AboveStart(all: seq<Pending>, start: StreamId, lo: nat)
    requires StrictPel(all) && lo <= |all| && (forall i | 0 <= i < lo :: Less(all[i].id, start))
    requires lo < |all| ==> !Less(all[lo].id, start)
    ensures Keep(all, (p: Pending) => AtMost(start, p.id)) == all[lo..]
    ensures AllBelow(all[..lo], start) && AllFrom(all[lo..], start)
  {
    hide Keep;
    forall i | lo <= i < |all| ensures AtMost(start, all[i].id) {
      assert i > lo ==> Less(all[lo].id, all[i].id);
    }
    KeepRun(all, lo, |all|, (p: Pending) => AtMost(start, p.id));
    assert all[lo..|all|] == all[lo..];
  }

  lemma SweepBegins(all: seq<Pending>, lo: nat)
    requires StrictPel(all) && lo <= |all|
    ensures SweepAt(all, lo, lo, all, all[..lo], [])
  {
    hide Keep, Less;
    assert all[lo..lo] == [];
    assert all == all[..lo] + all[lo..];
    WithoutNone(all[..lo], []);
  }

  /** Page through the pending list from `start`, feeding the cursor back until it
      is 0-0. The sweep ends; it considers each pending row at or above `start`
      exactly once, in order; each call claims at most its limit; and the rows it
      removes are exactly those idle enough when considered whose entry is gone. */
  method Sweep(entries: seq<StreamEntry>, g: Group, consumer: string, minIdleMs: nat, start: StreamId, count: nat,
               justId: bool, clock: nat -> U64)
    returns (g': Group, calls: nat, ghost pages: seq<Page>)
    requires Ascending(entries) && GroupOk(g, true) && StrictPel(g.pel)
    ensures GroupOk(g', true) && StrictPel(g'.pel) && calls == |pages|
    ensures AllRows(pages) == Keep(g.pel, (p: Pending) => AtMost(start, p.id))
    ensures forall k | 0 <= k < |pages| :: pages[k].nowMs == clock(k) &&
              PageDone(pages[k], Claim(entries, Scan(start, ClaimLimit(count)), consumer, clock(k), minIdleMs, justId))
    ensures IdsOf(g'.pel) == IdsOf(Without(g.pel, AllDeleted(pages))) && OnlyClaims(g, g', consumer)
  {
    hide Keep, Less, StrictPel, SortedPel, Without, IdsOf, SweepAt, AllRows, AllDeleted, PageDone, Underway, GroupOk, AllFrom,
         AllBelow;
    ghost var all := g.pel;
    ghost var lo := FirstPage(all, start);
    ghost var k, before := lo, all[..lo];
    g', calls, pages := g, 0, [];
    var from := start;
    assert Underway(all, lo, g', before, k, pages, from, start) by { SweepStarts(all, lo, g, start); }
    while true
      invariant Underway(all, lo, g', before, k, pages, from, start) && k <= |all| && calls == |pages|
      invariant OnlyClaims(g, g', consumer)
      invariant forall i | 0 <= i < |pages| :: pages[i].nowMs == clock(i) &&
                  PageDone(pages[i], Claim(entries, Scan(start, ClaimLimit(count)), consumer, clock(i), minIdleMs, justId))
      decreases |all| - k
    {
      var cursor;
      ghost var page, n;
      g', cursor, page, n, before := SweepCall(entries, g', consumer, clock(calls), minIdleMs, from, count, justId,
                                               all, lo, k, before, pages, start);
      pages := pages + [page];
      calls := calls + 1;
      k := k + n;
      if cursor == MIN_ID {
        SweepEnds(all, lo, k, g'.pel, before, pages);
        return;
      }
      from := cursor;
    }
  }

  /** Claims change a group's pending rows and who its consumers are, not its cursor. */
  ghost predicate OnlyClaims(g: Group, g': Group, consumer: string) {
    && g' == g.(consumers := g'.consumers, pel := g'.pel)
    && g.consumers <= g'.consumers <= g.consumers + {consumer}
  }

  /** Where a sweep stands between two calls: done below `from`, nothing touched
      from there on. */
  ghost predicate Underway(all: seq<Pending>, lo: nat, g: Group, before: seq<Pending>, k: nat, pages: seq<Page>,
                           from: StreamId, start: StreamId)
  {
    && SweepAt(all, lo, k, g.pel, before, pages) && k <= |all| && StrictPel(g.pel) && GroupOk(g, true)
    && g.pel == before + all[k..]
    && AllBelow(before, from) && AllFrom(all[k..], from) && AllFrom(all[k..], start)
  }

  lemma SweepStarts(all: seq<Pending>, lo: nat, g: Group, start: StreamId)
    requires g.pel == all && lo <= |all| && StrictPel(all) && GroupOk(g, true)
    requires SweepAt(all, lo, lo, all, all[..lo], []) && AllBelow(all[..lo], start) && AllFrom(all[lo..], start)
    ensures Underway(all, lo, g, all[..lo], lo, [], start, start)
  {
    hide SweepAt, StrictPel, GroupOk;
    assert all == all[..lo] + all[lo..];
  }

  /** One call of the sweep. */
  method SweepCall(entries: seq<StreamEntry>, g: Group, consumer: string, nowMs: U64, minIdleMs: nat, from: StreamId,
                   count: nat, justId: bool, ghost all: seq<Pending>, ghost lo: nat, ghost k: nat, ghost before: seq<Pending>,
                   ghost pages: seq<Page>, ghost start: StreamId)
    returns (g': Group, cursor: StreamId, ghost page: Page, ghost n: nat, ghost before': seq<Pending>)
    requires Ascending(entries) && StrictPel(all) && Underway(all, lo, g, before, k, pages, from, start)
    ensures GroupOk(g', true) && StrictPel(g'.pel) && k + n <= |all| && OnlyClaims(g, g', consumer)
    ensures page.nowMs == nowMs
    ensures PageDone(page, Claim(entries, Scan(start, ClaimLimit(count)), consumer, nowMs, minIdleMs, justId))
    ensures cursor == MIN_ID ==> k + n == |all| && SweepAt(all, lo, k + n, g'.pel, before', pages + [page])
    ensures cursor != MIN_ID ==> n > 0 && Underway(all, lo, g', before', k + n, pages + [page], cursor, start)
  {
    hide Keep, Less, StrictPel, SortedPel, Without, MarkedSoFar, IdsOf, SweepAt, AllRows, AllDeleted, AllBelow, AllFrom, PageDone,
         UpTo, HandsOver;
    var r;
    ghost var stop;
    g', r, stop := ClaimPage(entries, g, consumer, nowMs, minIdleMs, from, count, justId);
    cursor := r.cursor;
    PageEnd(all, k, g.pel, before, from, stop);
    n := stop - |before|;
    page := Page(nowMs, all[k..][..n], r.ids, r.deleted);
    before' := SweepStep(entries, all, lo, k, g.pel, before, pages, consumer, minIdleMs, justId, from, start,
                         ClaimLimit(count), stop, page, r, g'.pel);
    if cursor == MIN_ID {
      CursorIsReal(g.pel, stop, cursor);
    } else {
      NextStart(all, k, k + n, g'.pel, before', start);
    }
  }

  /** What a sweep uses of a claim. */
  method ClaimPage(entries: seq<StreamEntry>, g: Group, consumer: string, nowMs: U64, minIdleMs: nat, from: StreamId,
                   count: nat, justId: bool)
    returns (g': Group, r: ClaimResult, ghost stop: nat)
    requires Ascending(entries) && GroupOk(g, true) && StrictPel(g.pel)
    ensures GroupOk(g', true) && StrictPel(g'.pel) && OnlyClaims(g, g', consumer)
    ensures stop <= |g.pel| && |r.ids| <= ClaimLimit(count)
    ensures var c := Claim(entries, Scan(from, ClaimLimit(count)), consumer, nowMs, minIdleMs, justId);
            && r.ids == c.TakenIds(g.pel[..stop]) && r.deleted == c.GoneIds(g.pel[..stop])
            && g'.pel == Without(MarkedSoFar(c, g.pel, stop), r.deleted)
    ensures if stop == |g.pel| then r.cursor == MIN_ID
            else r.cursor == g.pel[stop].id && AtMost(from, r.cursor) && |r.ids| == ClaimLimit(count)
  {
    hide Keep, Less, StrictPel, Without, MarkedSoFar, HandsOver, GroupOk;
    g', r, stop := AutoClaim(entries, g, consumer, nowMs, minIdleMs, from, count, justId, true);
  }

  lemma CursorIsReal(pel: seq<Pending>, stop: nat, cursor: StreamId)
    requires NonZero(pel) && stop <= |pel| && cursor == MIN_ID && (stop < |pel| ==> cursor == pel[stop].id)
    ensures stop == |pel|
  {
    assert forall i | 0 <= i < |pel| :: pel[i] in pel;
  }

  /** One call of the sweep, from where it stands to where it stands next. */
  lemma SweepStep(entries: seq<StreamEntry>, all: seq<Pending>, lo: nat, k: nat, pel: seq<Pending>, before: seq<Pending>,
                  pages: seq<Page>, consumer: string, minIdleMs: nat, justId: bool, from: StreamId, start: StreamId,
                  limit: nat, stop: nat, page: Page, r: ClaimResult, pel': seq<Pending>)
    returns (before': seq<Pending>)
    requires StrictPel(all) && SweepAt(all, lo, k, pel, before, pages) && k <= |all| && pel == before + all[k..]
    requires |before| <= stop <= |pel| && StrictPel(pel) && StrictPel(pel')
    requires AllBelow(before, from) && AllFrom(all[k..], from) && AllFrom(all[k..], start)
    requires var c := Claim(entries, Scan(from, limit), consumer, page.nowMs, minIdleMs, justId);
             && r.ids == c.TakenIds(pel[..stop]) && r.deleted == c.GoneIds(pel[..stop])
             && pel' == Without(MarkedSoFar(c, pel, stop), r.deleted)
    requires |r.ids| <= limit && page == Page(page.nowMs, all[k..][..stop - |before|], r.ids, r.deleted)
    ensures var n := stop - |before|;
            k + n <= |all| && SweepAt(all, lo, k + n, pel', before', pages + [page]) && pel' == before' + all[k + n..]
    ensures PageDone(page, Claim(entries, Scan(start, limit), consumer, page.nowMs, minIdleMs, justId))
    ensures r.ids != [] ==> stop > |before|
  {
    hide Keep, Less, StrictPel, Without, MarkedSoFar, IdsOf, SweepAt, AllRows, AllDeleted;
    var n := stop - |before|;
    var rest := all[k..];
    var rows := rest[..n];
    assert rows == all[k..k + n] && rest[n..] == all[k + n..];
    var c := Claim(entries, Scan(from, limit), consumer, page.nowMs, minIdleMs, justId);
    assert forall p | p in before :: !AtMost(from, p.id) by { BelowIsNotAbove(before, from); }
    OnePage(c, before, rest, stop, n, pel');
    SameAbove(c, c.(sel := Scan(start, limit)), rows);
    before' := before + Without(c.Marked(rows), r.deleted);
    assert pel' == before' + all[k + n..];
    SweepPage(all, lo, k, pel, before, pages, c, n, page, before');
  }

  lemma BelowIsNotAbove(before: seq<Pending>, from: StreamId)
    requires AllBelow(before, from)
    ensures forall p | p in before :: !AtMost(from, p.id)
  {
  }

  lemma SweepEnds(all: seq<Pending>, lo: nat, k: nat, pel: seq<Pending>, before: seq<Pending>, pages: seq<Page>)
    requires SweepAt(all, lo, k, pel, before, pages) && k == |all|
    ensures AllRows(pages) == all[lo..] && IdsOf(pel) == IdsOf(Without(all, AllDeleted(pages)))
  {
    hide Without, IdsOf;
    assert all[lo..k] == all[lo..] && all[..k] == all;
    assert pel == before;
  }

  lemma NextStart(all: seq<Pending>, j: nat, k: nat, pel: seq<Pending>, before: seq<Pending>, start: StreamId)
    requires k < |all| && pel == before + all[k..] && StrictPel(pel) && StrictPel(all)
    requires j <= k && AllFrom(all[j..], start)
    ensures AllBelow(before, all[k].id) && AllFrom(all[k..], all[k].id) && AllFrom(all[k..], start)
  {
    BeforeIsBelow(pel, before, all[k..]);
    forall p | p in all[k..] ensures AtMost(all[k].id, p.id) {
      var i :| k <= i < |all| && all[i] == p;
    }
    assert all[j..][k - j..] == all[k..];
  }
}
