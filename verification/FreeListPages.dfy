/** The free list: an ascending list of page ids in memory, and a chain of
    dedicated pages on disk. A page is a sequence of 64-bit words; a list page
    is `next`, `count`, `count` ids and zero padding. */
module FreeListPages {
  import opened Wrappers

  /** A data page id; 0 means "no page". */
  type PageId = nat

  type Page = seq<nat>

  // ---- Ascending id lists (the in-memory free list is an ordered set) ----

  ghost predicate Ascending(s: seq<PageId>) {
    forall i, j | 0 <= i < j < |s| :: s[i] < s[j]
  }

  ghost predicate Distinct(s: seq<PageId>) {
    forall i, j | 0 <= i < j < |s| :: s[i] != s[j]
  }

  ghost function Elems(s: seq<PageId>): set<PageId> {
    set x | x in s
  }

  /** Inserting into an ordered set. */
  function Insert(s: seq<PageId>, x: PageId): (r: seq<PageId>) {
    if s == [] then [x]
    else if x < s[0] then [x] + s
    else if x == s[0] then s
    else [s[0]] + Insert(s[1..], x)
  }

  lemma {:induction false} InsertMembers(s: seq<PageId>, x: PageId)
    ensures Elems(Insert(s, x)) == Elems(s) + {x}
  {
    if s != [] && x > s[0] {
      InsertMembers(s[1..], x);
      assert s == [s[0]] + s[1..];
      ElemsConcat([s[0]], s[1..]);
      ElemsConcat([s[0]], Insert(s[1..], x));
    }
  }

  lemma {:induction false} InsertAscends(s: seq<PageId>, x: PageId)
    requires Ascending(s)
    ensures Ascending(Insert(s, x))
  {
    if s != [] && x > s[0] {
      InsertAscends(s[1..], x);
      InsertMembers(s[1..], x);
      var t := Insert(s[1..], x);
      forall j | 0 <= j < |t|
        ensures s[0] < t[j]
      {
        assert t[j] in Elems(t);
      }
    }
  }

  function InsertAll(s: seq<PageId>, xs: seq<PageId>): (r: seq<PageId>)
    requires Ascending(s)
    ensures Ascending(r)
    ensures Elems(r) == Elems(s) + Elems(xs)
    decreases |xs|
  {
    if xs == [] then s
    else
      assert xs == [xs[0]] + xs[1..];
      assert Elems(xs) == {xs[0]} + Elems(xs[1..]);
      InsertAscends(s, xs[0]);
      InsertMembers(s, xs[0]);
      InsertAll(Insert(s, xs[0]), xs[1..])
  }

  lemma ElemsConcat(a: seq<PageId>, b: seq<PageId>)
    ensures Elems(a + b) == Elems(a) + Elems(b)
  {
  }

  lemma AscendingSplit(s: seq<PageId>, t: nat)
    requires Ascending(s) && t <= |s|
    ensures Ascending(s[..t]) && Ascending(s[t..])
    ensures Elems(s[..t]) !! Elems(s[t..])
    ensures Elems(s[..t]) + Elems(s[t..]) == Elems(s)
  {
    assert s == s[..t] + s[t..];
    ElemsConcat(s[..t], s[t..]);
  }

  // ---- How many pages a list needs ----

  /** Pages the list is written into come out of the `takeable` free pages
      first, and stop being entries; `nameOnly` pages must be named but may not
      be written into. */
  function ListPagesNeeded(takeable: nat, nameOnly: nat, perPage: nat): (n: nat)
    requires perPage > 0
  {
    var named := takeable + nameOnly;
    var fromTakeable := (named + perPage) / (perPage + 1);
    if fromTakeable <= takeable then fromTakeable
    else Max(fromTakeable, (nameOnly + perPage - 1) / perPage)
  }

  /** Do `n` list pages hold every id that is left to name once the list has
      taken as many of its own pages as it can from the takeable ones? */
  ghost predicate PagesSuffice(n: nat, takeable: nat, nameOnly: nat, perPage: nat) {
    takeable - Min(n, takeable) + nameOnly <= n * perPage
  }

  /** Ceiling division, stated without division. */
  lemma CeilDiv(a: nat, b: nat, q: int)
    requires b > 0 && q == (a + b - 1) / b
    ensures 0 <= q && a <= q * b && (q > 0 ==> q * b - b < a)
  {
    assert a + b - 1 == q * b + (a + b - 1) % b;
  }

  lemma MulMonotone(a: int, b: int, c: nat)
    requires a <= b
    ensures a * c <= b * c
  {
  }

  lemma Spread(a: int, b: int)
    ensures a * (b + 1) == a * b + a
    ensures (a - 1) * b == a * b - b
  {
  }

  /** The takeable pages run short only when the named ids alone need more. */
  lemma ShortfallBound(takeable: nat, nameOnly: nat, perPage: nat, a: nat, c: nat)
    requires perPage > 0
    requires a * (perPage + 1) - (perPage + 1) < takeable + nameOnly
    requires nameOnly <= c * perPage
    requires a > takeable
    ensures c >= a
  {
    if c < a {
      Spread(a, perPage + 1);
      Spread(c, perPage);
      Spread(takeable, perPage);
      MulMonotone(c, a - 1, perPage + 1);
      MulMonotone(takeable, a - 1, perPage + 1);
      if c <= takeable {
        MulMonotone(c, takeable, perPage);
      }
      assert false;
    }
  }

  lemma NotEnoughTakeable(q: nat, takeable: nat, nameOnly: nat, perPage: nat, a: nat)
    requires perPage > 0 && q < a && q <= takeable
    requires a * (perPage + 1) - (perPage + 1) < takeable + nameOnly
    ensures !PagesSuffice(q, takeable, nameOnly, perPage)
  {
    Spread(q, perPage);
    Spread(a, perPage + 1);
    MulMonotone(q, a - 1, perPage + 1);
  }

  lemma NotEnoughExtended(q: nat, takeable: nat, nameOnly: nat, perPage: nat, c: nat)
    requires perPage > 0 && q < c && q > takeable
    requires c * perPage - perPage < nameOnly
    ensures !PagesSuffice(q, takeable, nameOnly, perPage)
  {
    Spread(c, perPage);
    MulMonotone(q, c - 1, perPage);
  }

  lemma NotEnough(q: nat, takeable: nat, nameOnly: nat, perPage: nat)
    requires perPage > 0
    requires q < ListPagesNeeded(takeable, nameOnly, perPage)
    ensures !PagesSuffice(q, takeable, nameOnly, perPage)
  {
    var a := (takeable + nameOnly + perPage) / (perPage + 1);
    var c := (nameOnly + perPage - 1) / perPage;
    CeilDiv(takeable + nameOnly, perPage + 1, a);
    CeilDiv(nameOnly, perPage, c);
    if q <= takeable {
      NotEnoughTakeable(q, takeable, nameOnly, perPage, a);
    } else {
      ShortfallBound(takeable, nameOnly, perPage, a, c);
      NotEnoughExtended(q, takeable, nameOnly, perPage, c);
    }
  }

  lemma Enough(takeable: nat, nameOnly: nat, perPage: nat)
    requires perPage > 0
    ensures PagesSuffice(ListPagesNeeded(takeable, nameOnly, perPage), takeable, nameOnly, perPage)
  {
    var a := (takeable + nameOnly + perPage) / (perPage + 1);
    var c := (nameOnly + perPage - 1) / perPage;
    CeilDiv(takeable + nameOnly, perPage + 1, a);
    CeilDiv(nameOnly, perPage, c);
    Spread(a, perPage);
    if a > takeable {
      ShortfallBound(takeable, nameOnly, perPage, a, c);
    }
  }

  /** The count is the least one that holds what is left to name. */
  lemma ListPagesNeededIsLeast(takeable: nat, nameOnly: nat, perPage: nat, n: nat)
    requires perPage > 0
    ensures n == ListPagesNeeded(takeable, nameOnly, perPage) <==>
            && PagesSuffice(n, takeable, nameOnly, perPage)
            && forall q: nat | q < n :: !PagesSuffice(q, takeable, nameOnly, perPage)
  {
    var least := ListPagesNeeded(takeable, nameOnly, perPage);
    Enough(takeable, nameOnly, perPage);
    forall q: nat | q < least
      ensures !PagesSuffice(q, takeable, nameOnly, perPage)
    {
      NotEnough(q, takeable, nameOnly, perPage);
    }
  }

  /** A longer list holds what a shorter one holds, so sufficing is being at least
      the count. */
  lemma PagesSufficeFrom(takeable: nat, nameOnly: nat, perPage: nat, n: nat)
    requires perPage > 0
    ensures PagesSuffice(n, takeable, nameOnly, perPage) <==> n >= ListPagesNeeded(takeable, nameOnly, perPage)
  {
    var least := ListPagesNeeded(takeable, nameOnly, perPage);
    if n < least {
      NotEnough(n, takeable, nameOnly, perPage);
    } else {
      Enough(takeable, nameOnly, perPage);
      assert least * perPage <= n * perPage;
    }
  }

  // ---- The chain on disk ----

  function Zeros(n: nat): (z: seq<nat>)
    ensures |z| == n
  {
    seq(n, _ => 0)
  }

  /** One list page of `w` words. */
  function ListPage(w: nat, next: PageId, ids: seq<PageId>): (p: Page)
    requires |ids| + 2 <= w
    ensures |p| == w && p[0] == next && p[1] == |ids| && p[2..2 + |ids|] == ids
  {
    [next, |ids|] + ids + Zeros(w - 2 - |ids|)
  }

  function Head(list: seq<PageId>): PageId {
    if list == [] then 0 else list[0]
  }

  /** `list` is a chain of list pages in `pages` that names exactly `entries`,
      in order, each page filled before the next is begun. */
  ghost predicate Chain(pages: seq<Page>, w: nat, list: seq<PageId>, entries: seq<PageId>)
    requires w > 2
  {
    if list == [] then entries == []
    else
      var k := Min(w - 2, |entries|);
      && 1 <= list[0] <= |pages|
      && pages[list[0] - 1] == ListPage(w, Head(list[1..]), entries[..k])
      && Chain(pages, w, list[1..], entries[k..])
  }

  lemma EmptyChain(pages: seq<Page>, w: nat)
    requires w > 2
    ensures Chain(pages, w, [], [])
  {
  }

  function Ids(n: nat): (s: set<PageId>)
    ensures forall p :: p in s <==> 1 <= p <= n
  {
    if n == 0 then {} else Ids(n - 1) + {n}
  }

  /** What recovery reads off the chain that starts at `cursor`: the list pages
      and the ids they name, or a refusal. */
  function Chase(pages: seq<Page>, w: nat, cursor: PageId, visited: set<PageId>)
    : (r: Result<(seq<PageId>, seq<PageId>)>)
    requires w > 2 && forall i | 0 <= i < |pages| :: |pages[i]| == w
    requires visited <= Ids(|pages|)
    decreases Ids(|pages|) - visited
  {
    if cursor == 0 then Ok(([], []))
    else if cursor > |pages| || cursor in visited then Err(Corrupt)
    else
      var page := pages[cursor - 1];
      if page[1] > w - 2 then Err(Corrupt)
      else
        var ids := page[2..2 + page[1]];
        if 0 in ids then Err(Corrupt)
        else
          assert cursor in Ids(|pages|) - visited;
          match Chase(pages, w, page[0], visited + {cursor})
          case Err(e) => Err(e)
          case Ok((list, entries)) => Ok(([cursor] + list, ids + entries))
  }

  /** Chasing a written chain returns exactly what was written. */
  lemma {:induction false} ChaseFollowsChain(
    pages: seq<Page>, w: nat, list: seq<PageId>, entries: seq<PageId>, visited: set<PageId>)
    requires w > 2 && forall i | 0 <= i < |pages| :: |pages[i]| == w
    requires visited <= Ids(|pages|)
    requires Chain(pages, w, list, entries)
    requires Distinct(list) && Elems(list) !! visited
    requires 0 !in entries
    ensures Chase(pages, w, Head(list), visited) == Ok((list, entries))
    decreases |list|
  {
    if list != [] {
      var k := Min(w - 2, |entries|);
      assert entries == entries[..k] + entries[k..];
      assert list == [list[0]] + list[1..];
      assert Distinct(list[1..]);
      assert list[0] in Elems(list);
      ChaseFollowsChain(pages, w, list[1..], entries[k..], visited + {list[0]});
    }
  }

  lemma {:induction false} ChaseFindsNoZero(pages: seq<Page>, w: nat, cursor: PageId, visited: set<PageId>)
    requires w > 2 && forall i | 0 <= i < |pages| :: |pages[i]| == w
    requires visited <= Ids(|pages|)
    ensures Chase(pages, w, cursor, visited).Ok? ==> 0 !in Chase(pages, w, cursor, visited).value.1
    decreases Ids(|pages|) - visited
  {
    if Chase(pages, w, cursor, visited).Ok? && cursor != 0 {
      assert cursor in Ids(|pages|) - visited;
      ChaseFindsNoZero(pages, w, pages[cursor - 1][0], visited + {cursor});
    }
  }

  lemma {:induction false} ChainPagesExist(pages: seq<Page>, w: nat, list: seq<PageId>, entries: seq<PageId>)
    requires w > 2 && Chain(pages, w, list, entries)
    ensures forall p | p in list :: 1 <= p <= |pages|
    decreases |list|
  {
    if list != [] {
      assert list == [list[0]] + list[1..];
      ChainPagesExist(pages, w, list[1..], entries[Min(w - 2, |entries|)..]);
    }
  }

  /** A chain depends on its own pages only. */
  lemma {:induction false} ChainFrame(
    pages: seq<Page>, pages': seq<Page>, w: nat, list: seq<PageId>, entries: seq<PageId>)
    requires w > 2 && Chain(pages, w, list, entries)
    requires forall p | p in list :: 1 <= p <= |pages| && p <= |pages'| && pages'[p - 1] == pages[p - 1]
    ensures Chain(pages', w, list, entries)
    decreases |list|
  {
    if list != [] {
      assert list == [list[0]] + list[1..];
      assert list[0] in list;
      forall p | p in list[1..]
        ensures 1 <= p <= |pages| && p <= |pages'| && pages'[p - 1] == pages[p - 1]
      {
        assert p in list;
      }
      ChainFrame(pages, pages', w, list[1..], entries[Min(w - 2, |entries|)..]);
    }
  }
}
