/** Reading the tree: point lookup by descent, and the ordered walk with an
    explicit stack, subtree pruning and a page budget. */
module TreeReads {
  import opened Wrappers
  import opened Keys
  import opened TreeModel
  import opened TreeTxn
  import opened CowTree
  import opened PageStore
  import F = FreeListPages

  /** The pages at `root` form the ordered tree `t`. */
  ghost predicate Proper(pages: map<PageId, Node>, root: PageId, t: Tree) {
    root != 0 ==> t.id == root && Rep(pages, t) && Ordered(t, None, None)
  }

  // ---- Point lookup ----

  /** Scan a leaf, stopping at the first key past the one sought. */
  method FindInLeaf(items: seq<Entry>, key: Key) returns (r: Option<Value>)
    requires Sorted(items)
    ensures r == Find(items, key)
  {
    hide Lt, Find;
    LtIsTotalOrder();
    for i := 0 to |items|
      invariant forall e | e in items[..i] :: e.key != key
    {
      if items[i].key == key {
        RemoveHit(items, i, key);
        return Some(items[i].value);
      }
      if Lt(key, items[i].key) {
        assert forall j | i < j < |items| :: Lt(items[i].key, items[j].key);
        RemoveAbsent(items, key);
        return None;
      }
      assert items[..i + 1] == items[..i] + [items[i]];
    }
    assert items[..|items|] == items;
    RemoveAbsent(items, key);
    return None;
  }

  /** A lookup below an internal page is a lookup in the child that covers the
      key. */
  lemma Descend(pages: map<PageId, Node>, t: Tree, lo: Option<Key>, hi: Option<Key>, c: nat, key: Key)
    requires Rep(pages, t) && Ordered(t, lo, hi) && t.NodeT? && c < |t.kids|
    requires AtOrAbove(lo, key) && Below(hi, key)
    requires forall i | 0 <= i < c :: !Lt(key, t.seps[i])
    requires c < |t.seps| ==> Lt(key, t.seps[c])
    ensures var lo', hi' := LoOf(t.seps, lo, c), HiOf(t.seps, hi, c);
            && AtOrAbove(lo', key) && Below(hi', key) && Ordered(t.kids[c], lo', hi') && Rep(pages, t.kids[c])
    ensures Find(Flat(t), key) == Find(Flat(t.kids[c]), key)
  {
    hide Lt, Find;
    assert Ordered(t.kids[c], LoOf(t.seps, lo, c), HiOf(t.seps, hi, c));
    FindThroughNode(t.kids, t.seps, lo, hi, c, key);
  }

  /** `Get` answers the entry the tree holds under `key`. */
  method Get(store: PageStore, root: PageId, key: Key, ghost t: Tree) returns (r: Result<Option<Value>>)
    requires store.Valid() && Proper(store.pages, root, t)
    ensures r == Ok(Find(RootFlat(root, t), key))
  {
    hide Lt, Find, Ordered, Flat;
    if root == 0 {
      RemoveAbsent([], key);
      return Ok(None);
    }
    var cursor := root;
    ghost var at, lo: Option<Key>, hi: Option<Key> := t, None, None;
    while cursor != 0
      invariant cursor == at.id && Rep(store.pages, at) && Ordered(at, lo, hi)
      invariant AtOrAbove(lo, key) && Below(hi, key)
      invariant Find(Flat(t), key) == Find(Flat(at), key)
      decreases at
    {
      var page := store.Read(cursor);
      match page.value
      case Leaf(items) =>
        assert Flat(at) == items && Sorted(items) by { LeafContents(at, lo, hi); }
        var found := FindInLeaf(items, key);
        return Ok(found);
      case Internal(first, entries) =>
        var c := ChooseChild(entries, key);
        cursor := if c == 0 then first else entries[c - 1].child;
        Descend(store.pages, at, lo, hi, c, key);
        lo, hi := LoOf(at.seps, lo, c), HiOf(at.seps, hi, c);
        at := at.kids[c];
    }
    assert false;
  }

  lemma LeafContents(t: Tree, lo: Option<Key>, hi: Option<Key>)
    requires t.LeafT? && Ordered(t, lo, hi)
    ensures Flat(t) == t.items && Sorted(t.items)
  {
  }

  // ---- The walk: what it delivers ----

  predicate Past(startAfter: Option<Key>, key: Key) {
    startAfter.None? || Lt(startAfter.value, key)
  }

  /** The entries above the start key, in order. */
  function Beyond(s: seq<Entry>, startAfter: Option<Key>): seq<Entry> {
    if s == [] then []
    else if Past(startAfter, s[0].key) then [s[0]] + Beyond(s[1..], startAfter)
    else Beyond(s[1..], startAfter)
  }

  /** The callback: whether to go on, given everything visited so far. */
  type Visitor = seq<Entry> -> bool

  /** What a visitor gets to see of `rest` after `done`. */
  function Delivered(done: seq<Entry>, rest: seq<Entry>, more: Visitor): seq<Entry>
    decreases rest
  {
    if rest == [] then done
    else if more(done + [rest[0]]) then Delivered(done + [rest[0]], rest[1..], more)
    else done + [rest[0]]
  }

  lemma {:induction false} BeyondConcat(a: seq<Entry>, b: seq<Entry>, startAfter: Option<Key>)
    ensures Beyond(a + b, startAfter) == Beyond(a, startAfter) + Beyond(b, startAfter)
  {
    hide Past;
    if a == [] {
      assert a + b == b;
    } else {
      BeyondConcat(a[1..], b, startAfter);
      assert (a + b)[1..] == a[1..] + b && (a + b)[0] == a[0];
      assert [a[0]] + (Beyond(a[1..], startAfter) + Beyond(b, startAfter)) ==
             [a[0]] + Beyond(a[1..], startAfter) + Beyond(b, startAfter);
    }
  }

  lemma {:induction false} BeyondNothing(s: seq<Entry>, startAfter: Option<Key>)
    requires forall e | e in s :: !Past(startAfter, e.key)
    ensures Beyond(s, startAfter) == []
  {
    if s != [] {
      BeyondNothing(s[1..], startAfter);
    }
  }

  lemma {:induction false} BeyondAll(s: seq<Entry>, startAfter: Option<Key>)
    requires forall e | e in s :: Past(startAfter, e.key)
    ensures Beyond(s, startAfter) == s
  {
    if s != [] {
      BeyondAll(s[1..], startAfter);
    }
  }

  lemma {:induction false} DeliveredPrefix(done: seq<Entry>, rest: seq<Entry>, more: Visitor)
    ensures done <= Delivered(done, rest, more) <= done + rest
    ensures rest != [] ==> |done| < |Delivered(done, rest, more)|
    decreases rest
  {
    if rest != [] && more(done + [rest[0]]) {
      DeliveredPrefix(done + [rest[0]], rest[1..], more);
      assert done + rest == done + [rest[0]] + rest[1..];
    }
  }

  /** Resuming after the last key delivered goes on exactly where the walk
      stopped. */
  lemma ResumeContinues(s: seq<Entry>, startAfter: Option<Key>, more: Visitor)
    requires Sorted(s)
    ensures var seen := Delivered([], Beyond(s, startAfter), more);
            seen != [] ==> Beyond(s, startAfter) == seen + Beyond(s, Some(seen[|seen| - 1].key))
  {
    hide Beyond, Sorted, Delivered;
    var all := Beyond(s, startAfter);
    var seen := Delivered([], all, more);
    DeliveredPrefix([], all, more);
    assert seen <= all by {
      assert [] + all == all;
    }
    if seen != [] {
      BeyondSplits(s, startAfter, |seen|);
      assert all[..|seen|] == seen;
    }
  }

  /** In sorted entries the ones above a key are a tail. */
  lemma {:induction false} BeyondIsTail(s: seq<Entry>, startAfter: Option<Key>) returns (i: nat)
    requires Sorted(s)
    ensures i <= |s| && Beyond(s, startAfter) == s[i..]
    ensures forall j | 0 <= j < i :: !Past(startAfter, s[j].key)
    ensures forall j | i <= j < |s| :: Past(startAfter, s[j].key)
  {
    hide Lt;
    LtIsTotalOrder();
    if s == [] {
      i := 0;
    } else if Past(startAfter, s[0].key) {
      i := 0;
      BeyondAll(s, startAfter);
    } else {
      i := BeyondIsTail(s[1..], startAfter);
      assert s[1..][i..] == s[i + 1..];
      forall j | 0 <= j < i + 1 ensures !Past(startAfter, s[j].key) {
        assert j > 0 ==> s[j] == s[1..][j - 1];
      }
      forall j | i + 1 <= j < |s| ensures Past(startAfter, s[j].key) {
        assert s[j] == s[1..][j - 1];
      }
      i := i + 1;
    }
  }

  lemma BeyondSplits(s: seq<Entry>, startAfter: Option<Key>, n: nat)
    requires Sorted(s) && 0 < n <= |Beyond(s, startAfter)|
    ensures var all := Beyond(s, startAfter);
            all == all[..n] + Beyond(s, Some(all[n - 1].key))
  {
    hide Lt;
    LtIsTotalOrder();
    var i := BeyondIsTail(s, startAfter);
    var key := s[i + n - 1].key;
    var k := BeyondIsTail(s, Some(key));
    assert !Past(Some(key), s[i + n - 1].key);
    assert i + n < |s| ==> Past(Some(key), s[i + n].key);
    assert k == i + n;
    assert s[i..][..n] + s[i + n..] == s[i..];
  }

  // ---- The walk: its stack ----

  /** The trees still to visit, first one on top of the stack. */
  ghost function Stack(todo: seq<Tree>): seq<PageId> {
    if todo == [] then [] else Stack(todo[1..]) + [todo[0].id]
  }

  lemma {:induction false} StackConcat(a: seq<Tree>, b: seq<Tree>)
    ensures Stack(a + b) == Stack(b) + Stack(a)
  {
    if a == [] {
      assert a + b == b;
    } else {
      StackConcat(a[1..], b);
      assert (a + b)[1..] == a[1..] + b;
    }
  }

  /** Whether the child below bound `i` can hold a key above the start. */
  predicate Reachable(seps: seq<Key>, startAfter: Option<Key>, i: nat) {
    startAfter.None? || i >= |seps| || Lt(startAfter.value, seps[i])
  }

  /** The children from `j` on that are worth visiting. */
  ghost function Kept(kids: seq<Tree>, seps: seq<Key>, startAfter: Option<Key>, j: nat): seq<Tree>
    requires j <= |kids|
    decreases |kids| - j
  {
    if j == |kids| then []
    else (if Reachable(seps, startAfter, j) then [kids[j]] else []) + Kept(kids, seps, startAfter, j + 1)
  }

  /** Pruning drops no entry above the start, and adds no page. */
  lemma {:induction false} KeptSuffices(kids: seq<Tree>, seps: seq<Key>, startAfter: Option<Key>, j: nat)
    requires KidsOrdered(kids, seps, None, None) && j <= |kids|
    ensures Beyond(FlatAll(Kept(kids, seps, startAfter, j)), startAfter) == Beyond(FlatAll(kids[j..]), startAfter)
    ensures BagAll(Kept(kids, seps, startAfter, j)) <= BagAll(kids[j..])
    ensures forall k | k in Kept(kids, seps, startAfter, j) :: k in kids
    decreases |kids| - j
  {
    hide Lt, KidsOrdered, Beyond, Flat, Bag;
    if j < |kids| {
      var kid, rest := kids[j], Kept(kids, seps, startAfter, j + 1);
      KeptSuffices(kids, seps, startAfter, j + 1);
      assert kids[j..] == [kid] + kids[j + 1..];
      FlatAllConcat([kid], kids[j + 1..]);
      BagAllConcat([kid], kids[j + 1..]);
      FlatAllOne(kid);
      BeyondConcat(Flat(kid), FlatAll(kids[j + 1..]), startAfter);
      if Reachable(seps, startAfter, j) {
        FlatAllConcat([kid], rest);
        BagAllConcat([kid], rest);
        BeyondConcat(Flat(kid), FlatAll(rest), startAfter);
      } else {
        PrunedKid(kids, seps, startAfter, j);
        assert [] + rest == rest;
      }
    }
  }

  lemma PrunedKid(kids: seq<Tree>, seps: seq<Key>, startAfter: Option<Key>, j: nat)
    requires KidsOrdered(kids, seps, None, None) && j < |kids| && !Reachable(seps, startAfter, j)
    ensures Beyond(Flat(kids[j]), startAfter) == []
  {
    hide Lt;
    LtIsTotalOrder();
    assert Ordered(kids[j], LoOf(seps, None, j), HiOf(seps, None, j));
    OrderedIsSorted(kids[j], LoOf(seps, None, j), HiOf(seps, None, j));
    BeyondNothing(Flat(kids[j]), startAfter);
  }

  ghost predicate NamesKids(first: PageId, entries: seq<ChildEntry>, kids: seq<Tree>) {
    && |kids| == |entries| + 1 && first == kids[0].id
    && (forall k | k in kids :: k.id != 0)
    && (forall i | 0 <= i < |entries| :: entries[i].child == kids[i + 1].id)
  }

  /** Push the children worth visiting, last one first. */
  method PushChildren(pending: seq<PageId>, first: PageId, entries: seq<ChildEntry>, startAfter: Option<Key>,
                      ghost kids: seq<Tree>)
    returns (out: seq<PageId>)
    ensures pending <= out
    ensures NamesKids(first, entries, kids) ==>
              out == pending + Stack(Kept(kids, KeysOf(entries), startAfter, 0))
  {
    hide Lt, Kept, Stack;
    var seps := KeysOf(entries);
    ghost var named := NamesKids(first, entries, kids);
    out := pending;
    var i := |entries|;
    if named {
      NothingKept(kids, seps, startAfter);
    }
    while i > 0
      invariant 0 <= i <= |entries| && pending <= out
      invariant named ==> out == pending + Stack(Kept(kids, seps, startAfter, i + 1))
    {
      i := i - 1;
      if entries[i].child != 0 && Reachable(seps, startAfter, i + 1) {
        out := out + [entries[i].child];
      }
      if named {
        assert kids[i + 1] in kids;
        StackTop(kids, seps, startAfter, i + 1);
      }
    }
    if first != 0 && Reachable(seps, startAfter, 0) {
      out := out + [first];
    }
    if named {
      StackTop(kids, seps, startAfter, 0);
    }
  }

  lemma NothingKept(kids: seq<Tree>, seps: seq<Key>, startAfter: Option<Key>)
    ensures Stack(Kept(kids, seps, startAfter, |kids|)) == []
  {
  }

  lemma StackTop(kids: seq<Tree>, seps: seq<Key>, startAfter: Option<Key>, j: nat)
    requires j < |kids|
    ensures Stack(Kept(kids, seps, startAfter, j)) ==
            Stack(Kept(kids, seps, startAfter, j + 1)) +
            (if Reachable(seps, startAfter, j) then [kids[j].id] else [])
  {
    var rest := Kept(kids, seps, startAfter, j + 1);
    if Reachable(seps, startAfter, j) {
      assert ([kids[j]] + rest)[1..] == rest;
    } else {
      assert [] + rest == rest;
    }
  }

  /** What is left to do: whole trees on the stack, in order, and enough budget
      for every page of theirs. */
  ghost predicate Remaining(pages: map<PageId, Node>, pending: seq<PageId>, todo: seq<Tree>, budget: nat) {
    && pending == Stack(todo)
    && RepAll(pages, todo)
    && (forall k | k in todo :: Ordered(k, None, None))
    && |BagAll(todo)| <= budget
  }

  lemma {:induction false} RemainingTop(pages: map<PageId, Node>, pending: seq<PageId>, todo: seq<Tree>, budget: nat)
    requires Remaining(pages, pending, todo, budget) && pending != []
    ensures todo != [] && budget > 0
    ensures var top, n := todo[0], |pending| - 1;
            && pending[n] == top.id && pending[..n] == Stack(todo[1..])
            && Rep(pages, top) && Ordered(top, None, None)
            && |Bag(top)| + |BagAll(todo[1..])| <= budget
            && FlatAll(todo) == Flat(top) + FlatAll(todo[1..])
  {
    var top := todo[0];
    assert BagAll(todo) == Bag(top) + BagAll(todo[1..]);
    assert |Bag(top)| >= 1 by {
      assert Bag(top) == multiset{top.id} + (Bag(top) - multiset{top.id});
    }
    assert todo[0] in todo;
  }

  lemma LeafDone(pages: map<PageId, Node>, pending: seq<PageId>, todo: seq<Tree>, budget: nat)
    requires Remaining(pages, pending, todo, budget) && pending != [] && todo != [] && todo[0].LeafT?
    ensures budget > 0 && Remaining(pages, pending[..|pending| - 1], todo[1..], budget - 1)
  {
    hide Ordered, Rep;
    RemainingTop(pages, pending, todo, budget);
  }

  lemma NodeDone(pages: map<PageId, Node>, pending: seq<PageId>, todo: seq<Tree>, budget: nat, startAfter: Option<Key>)
    requires Remaining(pages, pending, todo, budget) && pending != [] && todo != [] && todo[0].NodeT?
    ensures var kept := Kept(todo[0].kids, todo[0].seps, startAfter, 0);
            && budget > 0
            && Remaining(pages, pending[..|pending| - 1] + Stack(kept), kept + todo[1..], budget - 1)
            && Beyond(FlatAll(kept + todo[1..]), startAfter) == Beyond(FlatAll(todo), startAfter)
  {
    hide Ordered, Rep, Lt, Flat, Bag, KidsOrdered, Beyond;
    RemainingTop(pages, pending, todo, budget);
    var top, rest := todo[0], todo[1..];
    var kept := Kept(top.kids, top.seps, startAfter, 0);
    NodeOrdered(top, None, None);
    KeptSuffices(top.kids, top.seps, startAfter, 0);
    assert top.kids[0..] == top.kids;
    StackConcat(kept, rest);
    FlatAllConcat(kept, rest);
    BagAllConcat(kept, rest);
    BeyondConcat(FlatAll(kept), FlatAll(rest), startAfter);
    BeyondConcat(Flat(top), FlatAll(rest), startAfter);
    assert Flat(top) == FlatAll(top.kids) by { NodeFlat(top); }
    NodeBag(top);
    BagSizes(BagAll(kept), BagAll(top.kids), top.id);
    KidsProper(pages, top);
    forall i | 0 <= i < |kept + rest| ensures Rep(pages, (kept + rest)[i]) {
      if i < |kept| {
        assert kept[i] in kept;
      }
    }
    forall k | k in kept + rest ensures Ordered(k, None, None) {
    }
  }

  lemma BagSizes(a: multiset<PageId>, b: multiset<PageId>, id: PageId)
    requires a <= b
    ensures |a| + 1 <= |multiset{id} + b|
  {
    assert b == a + (b - a);
  }

  lemma KidsProper(pages: map<PageId, Node>, t: Tree)
    requires t.NodeT? && Rep(pages, t) && Ordered(t, None, None)
    ensures forall k | k in t.kids :: Rep(pages, k) && Ordered(k, None, None) && k.id != 0
  {
    forall k | k in t.kids ensures Rep(pages, k) && Ordered(k, None, None) {
      var i :| 0 <= i < |t.kids| && t.kids[i] == k;
      assert Ordered(t.kids[i], LoOf(t.seps, None, i), HiOf(t.seps, None, i));
      Widen(k, LoOf(t.seps, None, i), HiOf(t.seps, None, i), None, None);
    }
  }

  // ---- The walk's budget ----

  lemma {:induction false} IdsSize(n: nat)
    ensures |F.Ids(n)| == n
  {
    if n > 0 {
      IdsSize(n - 1);
      assert F.Ids(n) == F.Ids(n - 1) + {n};
    } else {
      assert F.Ids(0) == {};
    }
  }

  lemma {:induction false} OnceSize(bag: multiset<PageId>, ids: set<PageId>)
    requires Once(bag) && PagesOf(bag) <= ids
    ensures |bag| <= |ids|
    decreases ids
  {
    if bag != multiset{} {
      var p :| p in bag;
      var less := bag - multiset{p};
      assert p in PagesOf(bag);
      forall q | q in PagesOf(less) ensures q in ids - {p} {
        assert q in bag && q != p;
      }
      OnceSize(less, ids - {p});
      assert bag == less + multiset{p};
    }
  }

  /** A tree's pages are all live. */
  lemma {:induction false} RepPages(pages: map<PageId, Node>, t: Tree)
    requires Rep(pages, t)
    ensures PagesOf(Bag(t)) <= pages.Keys
    decreases t, 1
  {
    if t.NodeT? {
      RepAllPages(pages, t.kids);
    }
  }

  lemma {:induction false} RepAllPages(pages: map<PageId, Node>, kids: seq<Tree>)
    requires RepAll(pages, kids)
    ensures PagesOf(BagAll(kids)) <= pages.Keys
    decreases kids, 0
  {
    if kids != [] {
      RepPages(pages, kids[0]);
      RepAllPages(pages, kids[1..]);
      forall p | p in PagesOf(BagAll(kids)) ensures p in pages.Keys {
        assert p in PagesOf(Bag(kids[0])) || p in PagesOf(BagAll(kids[1..]));
      }
    }
  }

  /** A tree that owns its pages once has no more of them than the store. */
  lemma EnoughBudget(pages: map<PageId, Node>, t: Tree, pageCount: nat)
    requires Rep(pages, t) && Once(Bag(t)) && pages.Keys <= F.Ids(pageCount)
    ensures |Bag(t)| <= pageCount
  {
    RepPages(pages, t);
    OnceSize(Bag(t), F.Ids(pageCount));
    IdsSize(pageCount);
  }

  // ---- The walk ----

  /** Visit one leaf's entries; `going` is false once the visitor stops. */
  method VisitLeaf(items: seq<Entry>, startAfter: Option<Key>, more: Visitor, done: seq<Entry>)
    returns (visited: seq<Entry>, going: bool)
    ensures forall rest :: Delivered(done, Beyond(items, startAfter) + rest, more) ==
                           if going then Delivered(visited, rest, more) else visited
  {
    hide Lt;
    visited, going := done, true;
    assert items[0..] == items;
    for i := 0 to |items|
      invariant going
      invariant forall rest :: Delivered(done, Beyond(items, startAfter) + rest, more) ==
                               Delivered(visited, Beyond(items[i..], startAfter) + rest, more)
    {
      var e := items[i];
      assert items[i..][1..] == items[i + 1..];
      ghost var tail := Beyond(items[i + 1..], startAfter);
      if !Past(startAfter, e.key) {
        continue;
      }
      assert forall rest :: ([e] + tail + rest)[1..] == tail + rest;
      visited := visited + [e];
      if !more(visited) {
        going := false;
        return;
      }
    }
    assert forall rest: seq<Entry> :: Beyond(items[|items|..], startAfter) + rest == rest;
  }

  /** On any page graph, cyclic ones included, the walk reads at most as many
      pages as the store holds. On a tree that owns its pages once it never
      answers an error, and visits exactly the entries above `startAfter`, in
      ascending order, until the visitor stops it. */
  method Walk(store: PageStore, root: PageId, startAfter: Option<Key>, more: Visitor, ghost t: Tree)
    returns (r: Result<()>, visited: seq<Entry>, pageReads: nat)
    requires store.Valid()
    ensures pageReads <= store.pageCount
    ensures Proper(store.pages, root, t) && Once(RootBag(root, t)) ==>
              r.Ok? && visited == Delivered([], Beyond(RootFlat(root, t), startAfter), more)
  {
    hide Remaining, Beyond, Delivered, FlatAll, Once, RootBag;
    var pending := if root != 0 then [root] else [];
    var budget := store.pageCount;
    pageReads, visited := 0, [];
    ghost var proper := Proper(store.pages, root, t) && Once(RootBag(root, t));
    ghost var todo := if root != 0 then [t] else [];
    ghost var want := Delivered([], Beyond(RootFlat(root, t), startAfter), more);
    if proper {
      StartOfWalk(store.pages, root, t, store.pageCount);
    }
    hide Proper, RootFlat;
    while pending != []
      invariant pageReads + budget == store.pageCount && budget >= 0
      invariant proper ==> Remaining(store.pages, pending, todo, budget)
      invariant proper ==> Delivered(visited, Beyond(FlatAll(todo), startAfter), more) == want
      decreases budget
    {
      if proper {
        TopPage(store.pages, pending, todo, budget);
      }
      var id := pending[|pending| - 1];
      if budget == 0 {
        return Err(Corrupt), visited, pageReads;
      }
      budget, pageReads := budget - 1, pageReads + 1;
      var page := store.Read(id);
      if page.Err? {
        return Err(page.error), visited, pageReads;
      }
      var going;
      going, pending, visited, todo := VisitPage(store, page.value, pending, startAfter, more, visited, todo, budget + 1, proper);
      if going.Err? {
        return Err(going.error), visited, pageReads;
      }
      if !going.value {
        return Ok(()), visited, pageReads;
      }
    }
    if proper {
      EndOfWalk(store.pages, todo, budget, visited, startAfter, more);
    }
    return Ok(()), visited, pageReads;
  }

  /** The page on top of the stack is there. */
  lemma TopPage(pages: map<PageId, Node>, pending: seq<PageId>, todo: seq<Tree>, budget: nat)
    requires Remaining(pages, pending, todo, budget) && pending != []
    ensures budget > 0 && pending[|pending| - 1] in pages
  {
    RemainingTop(pages, pending, todo, budget);
  }

  /** Deal with the page on top of the stack: visit a leaf's entries, or push an
      internal page's children. False once the visitor stops. */
  method VisitPage(store: PageStore, page: Node, pending: seq<PageId>, startAfter: Option<Key>, more: Visitor,
                   done: seq<Entry>, ghost todo: seq<Tree>, ghost budget: nat, ghost proper: bool)
    returns (going: Result<bool>, pending': seq<PageId>, visited: seq<Entry>, ghost todo': seq<Tree>)
    requires pending != []
    requires proper ==> && Remaining(store.pages, pending, todo, budget) && pending[|pending| - 1] in store.pages
                        && page == store.pages[pending[|pending| - 1]]
    ensures proper ==> going.Ok? && budget > 0
    ensures proper && going.value ==>
              && Remaining(store.pages, pending', todo', budget - 1)
              && Delivered(visited, Beyond(FlatAll(todo'), startAfter), more) ==
                 Delivered(done, Beyond(FlatAll(todo), startAfter), more)
    ensures proper && !going.value ==> visited == Delivered(done, Beyond(FlatAll(todo), startAfter), more)
  {
    hide Lt, Remaining, Ordered, Rep, Beyond, Delivered, Flat, FlatAll, Stack, Kept;
    pending', visited, todo' := pending[..|pending| - 1], done, todo;
    if proper {
      RemainingTop(store.pages, pending, todo, budget);
      RootPage(store.pages, pending[|pending| - 1], todo[0]);
    }
    match page
    case Leaf(items) =>
      var more';
      visited, more' := VisitLeaf(items, startAfter, more, done);
      if proper {
        LeafDone(store.pages, pending, todo, budget);
        LeafContents(todo[0], None, None);
        BeyondConcat(items, FlatAll(todo[1..]), startAfter);
        todo' := todo[1..];
      }
      going := Ok(more');
    case Internal(first, entries) =>
      if proper {
        NodeDone(store.pages, pending, todo, budget, startAfter);
        KidsProper(store.pages, todo[0]);
        assert KeysOf(entries) == todo[0].seps;
      }
      pending' := PushChildren(pending', first, entries, startAfter, if proper then todo[0].kids else []);
      if proper {
        todo' := Kept(todo[0].kids, todo[0].seps, startAfter, 0) + todo[1..];
      }
      going := Ok(true);
    case Overflow(_, _) =>
      going := Err(Corrupt);
  }

  lemma StartOfWalk(pages: map<PageId, Node>, root: PageId, t: Tree, pageCount: nat)
    requires Proper(pages, root, t) && Once(RootBag(root, t)) && pages.Keys <= F.Ids(pageCount)
    ensures var todo := if root != 0 then [t] else [];
            && Remaining(pages, if root != 0 then [root] else [], todo, pageCount)
            && FlatAll(todo) == RootFlat(root, t)
  {
    if root != 0 {
      EnoughBudget(pages, t, pageCount);
      FlatAllOne(t);
      assert Stack([t]) == [t.id] by {
        assert [t][1..] == [];
      }
    }
  }

  lemma EndOfWalk(pages: map<PageId, Node>, todo: seq<Tree>, budget: nat, visited: seq<Entry>, startAfter: Option<Key>,
                  more: Visitor)
    requires Remaining(pages, [], todo, budget)
    ensures Delivered(visited, Beyond(FlatAll(todo), startAfter), more) == visited
  {
    assert todo == [];
  }
}
