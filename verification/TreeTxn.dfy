/** What a tree transaction does, page by page: the page-local steps of a put and
    an erase, the sizes they produce, and the account of the pages they touch. */
module TreeTxn {
  import opened Wrappers
  import opened Keys
  import opened TreeModel
  import opened PageSizes
  import opened TreeOps
  import F = FreeListPages

  datatype PutResult = PutResult(left: PageId, split: Option<ChildEntry>, inserted: bool, replaced: Option<Value>)

  datatype EraseResult = EraseResult(left: PageId, erased: bool)

  // ---- What a transaction has done to the store ----

  /** The part of the store and the transaction that writing pages changes. */
  datatype View = View(pages: map<PageId, Node>, live: set<PageId>, handed: set<PageId>, written: set<PageId>,
                       newPages: seq<PageId>)

  ghost function Created(v: View, v': View): seq<PageId>
    requires v.newPages <= v'.newPages
  {
    v'.newPages[|v.newPages|..]
  }

  /** Fresh pages were allocated and remembered; no page that existed changed. */
  ghost predicate Grew(v: View, v': View) {
    && v.newPages <= v'.newPages
    && F.Distinct(Created(v, v'))
    && (forall p | p in Created(v, v') :: p != 0 && p !in v.live)
    && v'.live == v.live + F.Elems(Created(v, v'))
    && (forall p | p in v.pages :: p in v'.pages && v'.pages[p] == v.pages[p])
    && v'.handed + v'.written == v.handed + v.written + F.Elems(Created(v, v'))
    && v.written <= v'.written
  }

  /** ... and every one of them was written. */
  ghost predicate GrewClean(v: View, v': View) {
    Grew(v, v') && v'.handed == v.handed
  }

  lemma GrewTransitive(u: View, v: View, w: View)
    requires Grew(u, v) && Grew(v, w)
    ensures Grew(u, w) && Created(u, w) == Created(u, v) + Created(v, w)
    ensures GrewClean(u, v) && GrewClean(v, w) ==> GrewClean(u, w)
    ensures multiset(Created(u, w)) == multiset(Created(u, v)) + multiset(Created(v, w))
  {
    var a, b := Created(u, v), Created(v, w);
    assert Created(u, w) == a + b;
    F.ElemsConcat(a, b);
    forall i, j | 0 <= i < j < |a + b|
      ensures (a + b)[i] != (a + b)[j]
    {
      if i < |a| <= j {
        assert (a + b)[i] in F.Elems(a) && (a + b)[j] in b;
      }
    }
  }

  lemma GrewNothing(v: View)
    ensures GrewClean(v, v) && Created(v, v) == []
  {
    assert Created(v, v) == [];
  }

  /** One allocated page, written or not. */
  lemma GrewOne(v: View, v': View, id: PageId)
    requires id != 0 && id !in v.live && v'.live == v.live + {id} && v'.newPages == v.newPages + [id]
    requires forall p | p in v.pages :: p in v'.pages && v'.pages[p] == v.pages[p]
    requires v'.handed + v'.written == v.handed + v.written + {id} && v.written <= v'.written
    ensures Grew(v, v') && Created(v, v') == [id]
  {
    assert Created(v, v') == [id];
    assert F.Elems([id]) == {id};
  }

  lemma {:induction false} RepGrows(v: View, v': View, t: Tree)
    requires Grew(v, v') && Rep(v.pages, t)
    ensures Rep(v'.pages, t)
  {
    RepFrame(v.pages, v'.pages, t);
  }

  lemma RepAllGrows(v: View, v': View, kids: seq<Tree>)
    requires Grew(v, v') && RepAll(v.pages, kids)
    ensures RepAll(v'.pages, kids)
  {
    forall i | 0 <= i < |kids|
      ensures Rep(v'.pages, kids[i])
    {
      RepGrows(v, v', kids[i]);
    }
  }

  // ---- What a put leaves behind ----

  ghost predicate Named(g: Grown, left: PageId, split: Option<ChildEntry>) {
    match g
    case One(t) => left == t.id && split.None?
    case Two(l, sep, r) => left == l.id && split == Some(ChildEntry(sep, r.id))
  }

  /** `g` holds exactly `contents`, in order, in encoded pages. */
  ghost predicate Holds(pages: map<PageId, Node>, cap: nat, g: Grown, contents: seq<Entry>,
                        lo: Option<Key>, hi: Option<Key>)
  {
    && GrownOrdered(g, lo, hi)
    && FlatAll(g.Trees()) == contents
    && RepAll(pages, g.Trees())
    && FitsAll(g.Trees(), cap)
  }

  ghost predicate SmallGrown(g: Grown, cap: nat) {
    SmallAll(g.Trees(), cap) && (g.Two? ==> SmallKey(g.sep, cap))
  }

  // ---- Roots: a tree or nothing ----

  ghost function RootFlat(root: PageId, t: Tree): seq<Entry> {
    if root == 0 then [] else Flat(t)
  }

  ghost function RootBag(root: PageId, t: Tree): multiset<PageId> {
    if root == 0 then multiset{} else Bag(t)
  }

  ghost predicate RootOk(pages: map<PageId, Node>, cap: nat, root: PageId, t: Tree, lo: Option<Key>, hi: Option<Key>) {
    root != 0 ==> t.id == root && Rep(pages, t) && Ordered(t, lo, hi) && Fits(t, cap)
  }

  /** What a successful put did: the entries with `key` set, the value it
      displaced, and an exact account of the pages. */
  ghost predicate PutOutcome(v: View, v': View, retired: seq<PageId>, cap: nat, node: PageId, t: Tree,
                             key: Key, value: Value, lo: Option<Key>, hi: Option<Key>, r: PutResult, g: Grown)
  {
    && GrewClean(v, v')
    && Named(g, r.left, r.split)
    && Holds(v'.pages, cap, g, Upsert(RootFlat(node, t), key, value), lo, hi)
    && BagAll(g.Trees()) + multiset(retired) == RootBag(node, t) + multiset(Created(v, v'))
    && r.replaced == Find(RootFlat(node, t), key) && r.inserted == r.replaced.None?
  }

  /** What an erase did: the entries without `key`, whether it was there, and an
      exact account of the pages. */
  ghost predicate EraseOutcome(v: View, v': View, retired: seq<PageId>, cap: nat, node: PageId, t: Tree,
                               key: Key, lo: Option<Key>, hi: Option<Key>, r: EraseResult, out: Tree)
  {
    && GrewClean(v, v')
    && r.erased == Find(RootFlat(node, t), key).Some?
    && RootOk(v'.pages, cap, r.left, out, lo, hi)
    && RootFlat(r.left, out) == Remove(RootFlat(node, t), key)
    && RootBag(r.left, out) + multiset(retired) == RootBag(node, t) + multiset(Created(v, v'))
    && (!r.erased ==> r.left == node && out == t && retired == [] && v' == v)
  }

  /** Every page at most once. */
  ghost predicate Once(bag: multiset<PageId>) {
    forall p | p in bag :: bag[p] == 1
  }

  ghost function PagesOf(bag: multiset<PageId>): set<PageId> {
    set p | p in bag
  }

  /** A transaction all of whose operations succeeded: its tree is whole, and
      its pages are those of the live tree and the new ones, less the freed. */
  ghost predicate TxnGood(base: View, v: View, cap: nat, root: PageId, shape: Tree, freed: seq<PageId>, delta: int,
                          liveRoot: PageId, liveShape: Tree)
  {
    && GrewClean(base, v)
    && RootOk(v.pages, cap, root, shape, None, None)
    && RootBag(root, shape) + multiset(freed) == RootBag(liveRoot, liveShape) + multiset(v.newPages)
    && delta == |RootFlat(root, shape)| - |RootFlat(liveRoot, liveShape)|
  }

  // ---- Page-local steps ----

  /** The leaf's entries without `key`. */
  method RemoveFromLeaf(existing: seq<Entry>, key: Key) returns (items: seq<Entry>, erased: bool)
    ensures items == Remove(existing, key) && erased == Find(existing, key).Some?
  {
    hide Lt, Remove, Find;
    items, erased := [], false;
    for i := 0 to |existing|
      invariant !erased ==> items == existing[..i] && (forall e | e in items :: e.key != key)
      invariant erased ==> items + existing[i..] == Remove(existing, key) && Find(existing, key).Some?
    {
      var e := existing[i];
      ghost var rest := existing[i + 1..];
      assert existing[i..] == [e] + rest;
      if !erased && e.key == key {
        RemoveHit(existing, i, key);
        erased := true;
      } else {
        assert items + ([e] + rest) == (items + [e]) + rest;
        items := items + [e];
      }
    }
    assert existing[..|existing|] == existing && existing[|existing|..] == [];
    assert items + [] == items;
    if !erased {
      RemoveAbsent(existing, key);
    }
  }

  lemma {:induction false} RemoveHit(s: seq<Entry>, i: nat, key: Key)
    requires i < |s| && s[i].key == key && forall e | e in s[..i] :: e.key != key
    ensures Remove(s, key) == s[..i] + s[i + 1..] && Find(s, key) == Some(s[i].value)
  {
    if i > 0 {
      assert s[0] in s[..i];
      forall e | e in s[1..][..i - 1] ensures e.key != key {
        assert e in s[..i];
      }
      RemoveHit(s[1..], i - 1, key);
      assert s[..i] == [s[0]] + s[1..][..i - 1];
      assert s[1..][i..] == s[i + 1..];
    }
  }


  /** The leaf's entries with `key` set, found by one forward pass. */
  method InsertIntoLeaf(existing: seq<Entry>, key: Key, value: Value)
    returns (items: seq<Entry>, inserted: bool, replaced: Option<Value>)
    requires Sorted(existing)
    ensures items == Upsert(existing, key, value)
    ensures replaced == Find(existing, key) && inserted == replaced.None?
  {
    hide Lt, Upsert, Find;
    LtIsTotalOrder();
    items, inserted, replaced := [], false, None;
    for i := 0 to |existing|
      invariant !inserted && replaced.None? ==>
                  items == existing[..i] && (forall j | 0 <= j < i :: Lt(existing[j].key, key))
      invariant inserted || replaced.Some? ==>
                  && !(inserted && replaced.Some?)
                  && items + existing[i..] == Upsert(existing, key, value) && replaced == Find(existing, key)
    {
      var e := existing[i];
      ghost var rest := existing[i + 1..];
      assert existing[i..] == [e] + rest;
      if replaced.None? && !inserted && e.key == key {
        LeafHit(existing, i, key, value);
        replaced := Some(e.value);
        items := items + [Entry(key, value)];
      } else if replaced.None? && !inserted && Lt(key, e.key) {
        LeafMiss(existing, i, key, value);
        items := items + [Entry(key, value)];
        inserted := true;
        items := items + [e];
        assert items + rest == existing[..i] + [Entry(key, value)] + ([e] + rest);
      } else {
        assert items + ([e] + rest) == (items + [e]) + rest;
        items := items + [e];
      }
    }
    assert existing[..|existing|] == existing && existing[|existing|..] == [];
    if replaced.None? && !inserted {
      LeafMiss(existing, |existing|, key, value);
      items := items + [Entry(key, value)];
      inserted := true;
    }
    assert items + [] == items;
  }

  /** Upsert at the point the pass has reached, the key being there. */
  lemma {:induction false} LeafHit(s: seq<Entry>, i: nat, key: Key, value: Value)
    requires i < |s| && s[i].key == key
    requires forall j | 0 <= j < i :: Lt(s[j].key, key)
    ensures Upsert(s, key, value) == s[..i] + [Entry(key, value)] + s[i + 1..]
    ensures Find(s, key) == Some(s[i].value)
  {
    hide Lt;
    LtIsTotalOrder();
    if i > 0 {
      LeafHit(s[1..], i - 1, key, value);
      assert s[..i] == [s[0]] + s[1..][..i - 1];
      assert s[1..][i..] == s[i + 1..];
    }
  }

  /** ... and not being there. */
  lemma {:induction false} LeafMiss(s: seq<Entry>, i: nat, key: Key, value: Value)
    requires Sorted(s) && i <= |s|
    requires forall j | 0 <= j < i :: Lt(s[j].key, key)
    requires i < |s| ==> Lt(key, s[i].key)
    ensures Upsert(s, key, value) == s[..i] + [Entry(key, value)] + s[i..]
    ensures Find(s, key) == None
  {
    hide Lt;
    LtIsTotalOrder();
    if i > 0 {
      LeafMiss(s[1..], i - 1, key, value);
      assert s[..i] == [s[0]] + s[1..][..i - 1];
      assert s[1..][i - 1..] == s[i..];
    } else {
      RemoveAbsent(s, key);
    }
  }

  /** Which child covers `key`: 0 for the first child, else the last entry whose
      separator is at or below it. */
  method ChooseChild(entries: seq<ChildEntry>, key: Key) returns (c: nat)
    ensures c <= |entries|
    ensures forall i | 0 <= i < c :: !Lt(key, entries[i].key)
    ensures c < |entries| ==> Lt(key, entries[c].key)
  {
    c := 0;
    while c < |entries| && !Lt(key, entries[c].key)
      invariant c <= |entries|
      invariant forall i | 0 <= i < c :: !Lt(key, entries[i].key)
    {
      c := c + 1;
    }
  }

  /** Walk forward until the next entry would overflow the page. */
  method FindSplit(sizes: seq<nat>, cap: nat) returns (i: nat)
    ensures i <= |sizes|
    ensures 1 <= i < |sizes| ==> IsSplitIndex(sizes, cap, i)
    ensures i == 0 || i == |sizes| ==> forall j | 1 <= j < |sizes| :: Sum(sizes[..j]) + sizes[j] <= cap
  {
    i := 0;
    var leftBytes := 0;
    assert sizes[..0] == [];
    while i < |sizes|
      invariant i <= |sizes| && leftBytes == Sum(sizes[..i])
      invariant forall j | 1 <= j < i :: Sum(sizes[..j]) + sizes[j] <= cap
    {
      if leftBytes + sizes[i] > cap && i > 0 {
        return;
      }
      SumNext(sizes, i);
      leftBytes := leftBytes + sizes[i];
      i := i + 1;
    }
  }

  // ---- Sizes of what is written ----

  ghost predicate SmallItems(items: seq<Entry>, cap: nat) {
    forall e | e in items :: SmallKey(e.key, cap)
  }

  ghost predicate SmallKeys(seps: seq<Key>, cap: nat) {
    forall k | k in seps :: SmallKey(k, cap)
  }

  /** What `WriteLeaf` can write: entries that fit one page, or that the split
      point divides into two halves that fit. */
  ghost predicate LeafWrites(items: seq<Entry>, cap: nat) {
    LeafEncodes(items, cap) || exists i: nat :: SplitsAt(items, cap, i)
  }

  ghost predicate SplitsAt(items: seq<Entry>, cap: nat, i: nat) {
    IsSplitIndex(ItemSizes(items), cap, i) && LeafEncodes(items[..i], cap) && LeafEncodes(items[i..], cap)
  }

  lemma OnePageWrites(items: seq<Entry>, cap: nat)
    requires Sum(ItemSizes(items)) <= cap
    ensures LeafWrites(items, cap) <==> LeafEncodes(items, cap)
  {
    forall i: nat | SplitsAt(items, cap, i) ensures false {
      SumSplit(ItemSizes(items), i + 1);
      SumNext(ItemSizes(items), i);
    }
  }

  /** The forward walk finds the one split point there can be. */
  lemma TwoPagesWrite(items: seq<Entry>, cap: nat, i: nat)
    requires Sum(ItemSizes(items)) > cap && i <= |items|
    requires 1 <= i < |items| ==> IsSplitIndex(ItemSizes(items), cap, i)
    requires i == 0 || i == |items| ==>
               forall j | 1 <= j < |items| :: Sum(ItemSizes(items)[..j]) + ItemSizes(items)[j] <= cap
    ensures LeafWrites(items, cap) <==>
            1 <= i < |items| && LeafEncodes(items[..i], cap) && LeafEncodes(items[i..], cap)
  {
    hide Sum;
    forall j: nat | SplitsAt(items, cap, j) ensures j == i && 1 <= i < |items| {
    }
    if 1 <= i < |items| && LeafEncodes(items[..i], cap) && LeafEncodes(items[i..], cap) {
      assert SplitsAt(items, cap, i);
    }
  }

  // ---- What becomes of a page that is written ----

  /** A write is refused, fits one page, or splits a key off. */
  datatype Shape = Unwritable | Stays | SplitsOff(sep: Key)

  ghost function LeafShape(items: seq<Entry>, cap: nat): Shape {
    if LeafEncodes(items, cap) then Stays
    else if exists i: nat :: SplitsAt(items, cap, i) then
      var i: nat :| SplitsAt(items, cap, i);
      SplitsOff(items[i].key)
    else Unwritable
  }

  ghost predicate SepsSplitAt(seps: seq<Key>, cap: nat, i: nat) {
    IsSplitIndex(SepSizes(seps), cap, i) && InternalEncodes(seps[..i], cap) && InternalEncodes(seps[i + 1..], cap)
  }

  ghost function InternalShape(seps: seq<Key>, cap: nat): Shape {
    if InternalEncodes(seps, cap) then Stays
    else if exists i: nat :: SepsSplitAt(seps, cap, i) then
      var i: nat :| SepsSplitAt(seps, cap, i);
      SplitsOff(seps[i])
    else Unwritable
  }

  ghost function GrownShape(g: Grown): Shape {
    if g.One? then Stays else SplitsOff(g.sep)
  }

  /** A write answers as the shape says. */
  ghost predicate Answers(r: Result<PutResult>, g: Grown, shape: Shape) {
    if r.Ok? then GrownShape(g) == shape else shape.Unwritable?
  }

  lemma OneLeafShape(items: seq<Entry>, cap: nat)
    requires Sum(ItemSizes(items)) <= cap
    ensures LeafShape(items, cap) == if LeafEncodes(items, cap) then Stays else Unwritable
  {
    hide Sum, LeafEncodes;
    OnePageWrites(items, cap);
  }

  lemma TwoLeafShape(items: seq<Entry>, cap: nat, i: nat)
    requires Sum(ItemSizes(items)) > cap && i <= |items|
    requires 1 <= i < |items| ==> IsSplitIndex(ItemSizes(items), cap, i)
    requires i == 0 || i == |items| ==>
               forall j | 1 <= j < |items| :: Sum(ItemSizes(items)[..j]) + ItemSizes(items)[j] <= cap
    ensures LeafShape(items, cap) ==
            if 1 <= i < |items| && LeafEncodes(items[..i], cap) && LeafEncodes(items[i..], cap) then SplitsOff(items[i].key)
            else Unwritable
  {
    hide Sum;
    forall j: nat | SplitsAt(items, cap, j) ensures j == i && 1 <= i < |items| {
    }
    if 1 <= i < |items| && LeafEncodes(items[..i], cap) && LeafEncodes(items[i..], cap) {
      assert SplitsAt(items, cap, i);
    }
  }

  lemma OneInternalShape(seps: seq<Key>, cap: nat)
    requires Sum(SepSizes(seps)) <= cap
    ensures InternalShape(seps, cap) == if InternalEncodes(seps, cap) then Stays else Unwritable
  {
    forall i: nat | SepsSplitAt(seps, cap, i) ensures false {
      SumSplit(SepSizes(seps), i + 1);
      SumNext(SepSizes(seps), i);
    }
  }

  lemma TwoInternalShape(seps: seq<Key>, cap: nat, i: nat)
    requires Sum(SepSizes(seps)) > cap && i <= |seps|
    requires 1 <= i < |seps| ==> IsSplitIndex(SepSizes(seps), cap, i)
    requires i == 0 || i == |seps| ==>
               forall j | 1 <= j < |seps| :: Sum(SepSizes(seps)[..j]) + SepSizes(seps)[j] <= cap
    ensures InternalShape(seps, cap) ==
            if 1 <= i < |seps| && InternalEncodes(seps[..i], cap) && InternalEncodes(seps[i + 1..], cap)
            then SplitsOff(seps[i]) else Unwritable
  {
    hide Sum;
    forall j: nat | SepsSplitAt(seps, cap, j) ensures j == i && 1 <= i < |seps| {
    }
    if 1 <= i < |seps| && InternalEncodes(seps[..i], cap) && InternalEncodes(seps[i + 1..], cap) {
      assert SepsSplitAt(seps, cap, i);
    }
  }

  /** What becomes of a put, page by page up its path. */
  ghost function PutShape(node: PageId, t: Tree, key: Key, value: Value, cap: nat): Shape
    decreases t
  {
    if node == 0 then LeafShape(Upsert([], key, value), cap)
    else match t
      case LeafT(_, items) => LeafShape(Upsert(items, key, value), cap)
      case NodeT(_, kids, seps) =>
        var c := ChildFor(seps, key);
        if c >= |kids| then Unwritable
        else RebuiltShape(seps, c, PutShape(kids[c].id, kids[c], key, value, cap), cap)
  }

  ghost function RebuiltShape(seps: seq<Key>, c: nat, sub: Shape, cap: nat): Shape
    requires c <= |seps|
  {
    match sub
    case Unwritable => Unwritable
    case Stays => InternalShape(seps, cap)
    case SplitsOff(sep) => InternalShape(seps[..c] + [sep] + seps[c..], cap)
  }

  /** Whether a put is written: every page of its path can be, and so can the new
      root above one that split. */
  ghost predicate PutWrites(node: PageId, t: Tree, key: Key, value: Value, cap: nat) {
    var shape := PutShape(node, t, key, value, cap);
    !shape.Unwritable? && (shape.SplitsOff? ==> InternalShape([shape.sep], cap).Stays?)
  }

  /** The recursion's answer and the root above it decide. */
  lemma WritesAsAnswered(r: Result<PutResult>, g: Grown, node: PageId, t: Tree, key: Key, value: Value, cap: nat)
    requires Answers(r, g, PutShape(node, t, key, value, cap))
    ensures PutWrites(node, t, key, value, cap) <==> r.Ok? && (g.Two? ==> InternalShape([g.sep], cap).Stays?)
  {
    hide PutShape, InternalShape;
  }

  /** The same keys, with values as long. */
  ghost predicate SameSizes(a: seq<Entry>, b: seq<Entry>) {
    |a| == |b| && forall i | 0 <= i < |a| :: a[i].key == b[i].key && |a[i].value| == |b[i].value|
  }

  lemma SameEncodes(a: seq<Entry>, b: seq<Entry>, cap: nat)
    requires SameSizes(a, b) && LeafEncodes(a, cap)
    ensures LeafEncodes(b, cap)
  {
    hide Sum;
    assert ItemSizes(a) == ItemSizes(b);
    forall e | e in b ensures |e.key| <= MAX_KEY_LENGTH && |e.value| <= MAX_VALUE_LENGTH {
      var i :| 0 <= i < |b| && b[i] == e;
      assert a[i] in a;
    }
  }

  lemma SameSplits(a: seq<Entry>, b: seq<Entry>, cap: nat, i: nat)
    requires SameSizes(a, b) && SplitsAt(a, cap, i)
    ensures SplitsAt(b, cap, i)
  {
    hide Sum, LeafEncodes;
    assert ItemSizes(a) == ItemSizes(b);
    SameEncodes(a[..i], b[..i], cap);
    SameEncodes(a[i..], b[i..], cap);
  }

  lemma OneSplit(items: seq<Entry>, cap: nat, i: nat)
    requires SplitsAt(items, cap, i) && !LeafEncodes(items, cap)
    ensures i < |items| && LeafShape(items, cap) == SplitsOff(items[i].key)
  {
    hide Sum, LeafEncodes;
  }

  lemma SameLeafShape(a: seq<Entry>, b: seq<Entry>, cap: nat)
    requires SameSizes(a, b)
    ensures LeafShape(a, cap) == LeafShape(b, cap)
  {
    hide LeafEncodes, SplitsAt;
    if LeafEncodes(a, cap) {
      SameEncodes(a, b, cap);
    } else if LeafEncodes(b, cap) {
      SameEncodes(b, a, cap);
    } else if i: nat :| SplitsAt(a, cap, i) {
      SameSplits(a, b, cap, i);
      OneSplit(a, cap, i);
      OneSplit(b, cap, i);
    } else if i: nat :| SplitsAt(b, cap, i) {
      SameSplits(b, a, cap, i);
    }
  }

  lemma {:induction false} UpsertSameSizes(items: seq<Entry>, key: Key, v: Value, w: Value)
    requires |v| == |w|
    ensures SameSizes(Upsert(items, key, v), Upsert(items, key, w))
  {
    hide Lt;
    if items != [] {
      UpsertSameSizes(items[1..], key, v, w);
    }
  }

  /** Whether a put is written depends on its value's length alone. */
  lemma {:induction false} PutShapeBySize(node: PageId, t: Tree, key: Key, v: Value, w: Value, cap: nat)
    requires |v| == |w|
    ensures PutShape(node, t, key, v, cap) == PutShape(node, t, key, w, cap)
    decreases t
  {
    hide LeafShape, Upsert, RebuiltShape, SameSizes;
    if node == 0 {
      UpsertSameSizes([], key, v, w);
      SameLeafShape(Upsert([], key, v), Upsert([], key, w), cap);
    } else if t.LeafT? {
      UpsertSameSizes(t.items, key, v, w);
      SameLeafShape(Upsert(t.items, key, v), Upsert(t.items, key, w), cap);
    } else {
      var c := ChildFor(t.seps, key);
      if c < |t.kids| {
        PutShapeBySize(t.kids[c].id, t.kids[c], key, v, w, cap);
      }
    }
  }

  lemma NothingRebuilt(seps: seq<Key>, c: nat, cap: nat)
    requires c <= |seps|
    ensures RebuiltShape(seps, c, Unwritable, cap) == Unwritable
  {
  }

  /** The page around a child that grew. */
  lemma SplicedShape(seps: seq<Key>, c: nat, g: Grown, cap: nat)
    requires c <= |seps|
    ensures InternalShape(SplicedSeps(seps, c, g.Seps()), cap) == RebuiltShape(seps, c, GrownShape(g), cap)
  {
    hide InternalShape;
    if g.One? {
      assert SplicedSeps(seps, c, []) == seps;
    }
  }

  lemma LargeHasNoShape(items: seq<Entry>, key: Key, value: Value, cap: nat)
    requires LeafEntryBytes(|key|, |value|) > cap
    ensures LeafShape(Upsert(items, key, value), cap).Unwritable?
  {
    hide LeafEncodes, SplitsAt;
    UpsertHolds(items, key, value);
    LargeIsRefused(Upsert(items, key, value), Entry(key, value), cap);
  }

  /** A pair larger than a page is refused wherever it would land. */
  lemma {:induction false} LargeIsNotWritten(node: PageId, t: Tree, key: Key, value: Value, cap: nat)
    requires LeafEntryBytes(|key|, |value|) > cap
    ensures PutShape(node, t, key, value, cap).Unwritable?
    decreases t
  {
    hide LeafShape, InternalShape, Upsert;
    if node == 0 {
      LargeHasNoShape([], key, value, cap);
    } else if t.LeafT? {
      LargeHasNoShape(t.items, key, value, cap);
    } else {
      var c := ChildFor(t.seps, key);
      if c < |t.kids| {
        LargeIsNotWritten(t.kids[c].id, t.kids[c], key, value, cap);
      }
    }
  }

  /** One level of it. */
  lemma NodePutShape(t: Tree, c: nat, key: Key, value: Value, cap: nat)
    requires t.NodeT? && c <= |t.seps| && |t.kids| == |t.seps| + 1 && t.id != 0
    requires forall i | 0 <= i < c :: !Lt(key, t.seps[i])
    requires c < |t.seps| ==> Lt(key, t.seps[c])
    ensures PutShape(t.id, t, key, value, cap) ==
            RebuiltShape(t.seps, c, PutShape(t.kids[c].id, t.kids[c], key, value, cap), cap)
  {
    hide RebuiltShape;
    ChosenChild(t.seps, key, c);
  }

  /** No page, and no half of one, holds a pair larger than a page. */
  lemma LargeIsRefused(items: seq<Entry>, e: Entry, cap: nat)
    requires e in items && ItemBytes(e) > cap
    ensures !LeafWrites(items, cap)
  {
    if LeafEncodes(items, cap) {
      HeldEntryFits(items, e, cap);
    } else if i: nat :| SplitsAt(items, cap, i) {
      assert items == items[..i] + items[i..];
      if e in items[..i] {
        HeldEntryFits(items[..i], e, cap);
      } else {
        HeldEntryFits(items[i..], e, cap);
      }
    }
  }

  lemma HeldEntryFits(items: seq<Entry>, e: Entry, cap: nat)
    requires e in items && Sum(ItemSizes(items)) <= cap
    ensures ItemBytes(e) <= cap
  {
    var j :| 0 <= j < |items| && items[j] == e;
    SumWithout(ItemSizes(items), j);
  }

  // ---- The leaf a put lands in ----

  ghost function ChildFor(seps: seq<Key>, key: Key): (c: nat)
    ensures c <= |seps|
    ensures forall i | 0 <= i < c :: !Lt(key, seps[i])
    ensures c < |seps| ==> Lt(key, seps[c])
  {
    if seps == [] || Lt(key, seps[0]) then 0 else 1 + ChildFor(seps[1..], key)
  }

  lemma {:induction false} ChosenChild(seps: seq<Key>, key: Key, c: nat)
    requires c <= |seps| && (forall i | 0 <= i < c :: !Lt(key, seps[i])) && (c < |seps| ==> Lt(key, seps[c]))
    ensures ChildFor(seps, key) == c
  {
    hide Lt;
  }

  /** The entries of the leaf that covers `key`. */
  ghost function Covering(t: Tree, key: Key): seq<Entry>
    decreases t
  {
    match t
    case LeafT(_, items) => items
    case NodeT(_, kids, seps) =>
      if ChildFor(seps, key) < |kids| then Covering(kids[ChildFor(seps, key)], key) else []
  }

  /** Whether a put of this pair can be written: a question about one leaf. */
  ghost predicate Accepts(node: PageId, t: Tree, key: Key, value: Value, cap: nat) {
    LeafWrites(Upsert(if node == 0 then [] else Covering(t, key), key, value), cap)
  }

  /** Small entries that overflow a leaf by at most one of them. */
  ghost predicate SmallLoad(items: seq<Entry>, cap: nat) {
    && (forall e | e in items :: SmallItem(e, cap))
    && CountsFit(cap) && 2 * Sum(ItemSizes(items)) <= 3 * cap
  }

  ghost predicate SmallSeps(seps: seq<Key>, cap: nat) {
    && SmallKeys(seps, cap)
    && CountsFit(cap) && Sum(SepSizes(seps)) <= 2 * cap
  }

  /** Which leaves a set of entries is written to, and that they fit. */
  lemma LeafHalves(items: seq<Entry>, cap: nat, i: nat)
    requires IsSplitIndex(ItemSizes(items), cap, i) && SmallLoad(items, cap)
    ensures LeafEncodes(items[..i], cap) && LeafEncodes(items[i..], cap)
    ensures SmallKey(items[i].key, cap)
  {
    var sizes := ItemSizes(items);
    forall j | 0 <= j < |sizes| ensures 2 * sizes[j] <= cap {
      assert items[j] in items;
    }
    LeafHalvesFit(sizes, cap, i);
    ItemSizesSlice(items, i);
    LeafCount(items[..i], cap);
    LeafCount(items[i..], cap);
    assert items[i] in items;
    assert forall e | e in items[..i] :: e in items;
    assert forall e | e in items[i..] :: e in items;
  }

  lemma SmallLeafEncodes(items: seq<Entry>, cap: nat)
    requires SmallLoad(items, cap) && Sum(ItemSizes(items)) <= cap
    ensures LeafEncodes(items, cap)
  {
    LeafCount(items, cap);
  }

  lemma InternalHalves(seps: seq<Key>, cap: nat, i: nat)
    requires IsSplitIndex(SepSizes(seps), cap, i) && SmallSeps(seps, cap)
    ensures InternalEncodes(seps[..i], cap) && InternalEncodes(seps[i + 1..], cap)
    ensures SmallKey(seps[i], cap)
  {
    var sizes := SepSizes(seps);
    forall j | 0 <= j < |sizes| ensures sizes[j] <= cap {
      assert seps[j] in seps;
    }
    InternalHalvesFit(sizes, cap, i);
    var right := seps[i + 1..];
    SepSizesSlice(seps, i);
    SepSizesSlice(seps, i + 1);
    InternalCount(seps[..i], cap);
    InternalCount(right, cap);
    assert seps[i] in seps;
    assert forall k | k in seps[..i] :: k in seps;
    forall k | k in right ensures k in seps {
      var j :| 0 <= j < |right| && right[j] == k;
      assert seps[i + 1 + j] == k;
    }
  }

  lemma SmallInternalEncodes(seps: seq<Key>, cap: nat)
    requires SmallSeps(seps, cap) && Sum(SepSizes(seps)) <= cap
    ensures InternalEncodes(seps, cap)
  {
    InternalCount(seps, cap);
  }

  /** `first` and `entries` point at `kids`, separated by `seps`. */
  ghost predicate Points(first: PageId, entries: seq<ChildEntry>, kids: seq<Tree>, seps: seq<Key>) {
    && |kids| == |seps| + 1 == |entries| + 1
    && first == kids[0].id
    && forall i | 0 <= i < |entries| :: entries[i] == ChildEntry(seps[i], kids[i + 1].id)
  }

  // ---- Transactions ----

  lemma LeafRep(pages: map<PageId, Node>, id: PageId, items: seq<Entry>)
    requires id != 0 && id in pages && pages[id] == Leaf(items)
    ensures Rep(pages, LeafT(id, items))
  {
  }

  lemma EncodedFits(items: seq<Entry>, cap: nat)
    requires LeafEncodes(items, cap)
    ensures Sum(ItemSizes(items)) <= cap
  {
  }

  lemma SmallLoadSplits(items: seq<Entry>, cap: nat, i: nat)
    requires SmallLoad(items, cap) && |items| > 0 && Sum(ItemSizes(items)) > cap
    requires i <= |items| && (1 <= i < |items| ==> IsSplitIndex(ItemSizes(items), cap, i))
    requires i == 0 || i == |items| ==>
               forall j | 1 <= j < |items| :: Sum(ItemSizes(items)[..j]) + ItemSizes(items)[j] <= cap
    ensures 1 <= i < |items| && LeafEncodes(items[..i], cap) && LeafEncodes(items[i..], cap)
  {
    assert items[0] in items;
    assert 1 <= i < |items| by {
      if i == 0 || i == |items| {
        NoSplitMeansOnePage(ItemSizes(items), cap);
      }
    }
    LeafHalves(items, cap, i);
  }

  lemma SmallHalves(items: seq<Entry>, cap: nat, i: nat, a: PageId, b: PageId)
    requires SmallItems(items, cap) && i < |items|
    ensures SmallGrown(Two(LeafT(a, items[..i]), items[i].key, LeafT(b, items[i..])), cap)
  {
    assert items[i] in items;
    assert forall e | e in items[..i] :: e in items;
    assert forall e | e in items[i..] :: e in items;
  }

  lemma OneLeaf(pages: map<PageId, Node>, cap: nat, id: PageId, items: seq<Entry>, lo: Option<Key>, hi: Option<Key>)
    requires Sorted(items) && InRange(items, lo, hi) && LeafEncodes(items, cap)
    requires id != 0 && id in pages && pages[id] == Leaf(items)
    ensures Holds(pages, cap, One(LeafT(id, items)), items, lo, hi)
    ensures BagAll(One(LeafT(id, items)).Trees()) == multiset([id])
    ensures SmallItems(items, cap) ==> SmallGrown(One(LeafT(id, items)), cap)
  {
    var t := LeafT(id, items);
    OneOrdered(t, lo, hi);
    FlatAllOne(t);
  }

  lemma TwoLeaves(pages: map<PageId, Node>, cap: nat, items: seq<Entry>, i: nat, a: PageId, b: PageId,
                  lo: Option<Key>, hi: Option<Key>)
    requires Sorted(items) && InRange(items, lo, hi) && 1 <= i < |items|
    requires LeafEncodes(items[..i], cap) && LeafEncodes(items[i..], cap)
    requires Rep(pages, LeafT(a, items[..i])) && Rep(pages, LeafT(b, items[i..]))
    ensures var g := Two(LeafT(a, items[..i]), items[i].key, LeafT(b, items[i..]));
            Holds(pages, cap, g, items, lo, hi) && BagAll(g.Trees()) == multiset([a] + [b])
  {
    hide Lt, Sum, LeafEncodes, Sorted, InRange, GrownOrdered, Rep, FlatAll, BagAll;
    LeafSplit(items, i, a, b, lo, hi);
    PairBag(a, b);
  }

  lemma PairBag(a: PageId, b: PageId)
    ensures multiset([a] + [b]) == multiset{a, b}
  {
  }

  lemma InternalEncodedFits(seps: seq<Key>, cap: nat)
    requires InternalEncodes(seps, cap)
    ensures Sum(SepSizes(seps)) <= cap
  {
  }

  lemma SmallSepsSplit(seps: seq<Key>, cap: nat, i: nat)
    requires SmallSeps(seps, cap) && Sum(SepSizes(seps)) > cap
    requires i <= |seps| && (1 <= i < |seps| ==> IsSplitIndex(SepSizes(seps), cap, i))
    requires i == 0 || i == |seps| ==>
               forall j | 1 <= j < |seps| :: Sum(SepSizes(seps)[..j]) + SepSizes(seps)[j] <= cap
    ensures 1 <= i < |seps| && InternalEncodes(seps[..i], cap) && InternalEncodes(seps[i + 1..], cap)
  {
    assert |seps| > 0;
    assert seps[0] in seps;
    assert 1 <= i < |seps| by {
      if i == 0 || i == |seps| {
        NoSplitMeansOnePage(SepSizes(seps), cap);
      }
    }
    InternalHalves(seps, cap, i);
  }

  lemma RepSlice(pages: map<PageId, Node>, kids: seq<Tree>, i: nat, j: nat)
    requires RepAll(pages, kids) && i <= j <= |kids|
    ensures RepAll(pages, kids[i..j])
  {
  }

  lemma InternalRep(pages: map<PageId, Node>, id: PageId, first: PageId, entries: seq<ChildEntry>,
                    kids: seq<Tree>, seps: seq<Key>)
    requires id != 0 && id in pages && pages[id] == Internal(first, entries)
    requires Points(first, entries, kids, seps) && RepAll(pages, kids)
    ensures Rep(pages, NodeT(id, kids, seps))
  {
  }

  lemma OneInternal(pages: map<PageId, Node>, cap: nat, id: PageId, first: PageId, entries: seq<ChildEntry>,
                    kids: seq<Tree>, seps: seq<Key>, lo: Option<Key>, hi: Option<Key>)
    requires KidsOrdered(kids, seps, lo, hi) && InternalEncodes(seps, cap) && FitsAll(kids, cap)
    requires id != 0 && id in pages && pages[id] == Internal(first, entries)
    requires Points(first, entries, kids, seps) && RepAll(pages, kids)
    ensures var g := One(NodeT(id, kids, seps));
            && Holds(pages, cap, g, FlatAll(kids), lo, hi)
            && BagAll(g.Trees()) == multiset([id]) + BagAll(kids)
            && (SmallKeys(seps, cap) && SmallAll(kids, cap) ==> SmallGrown(g, cap))
  {
    var t := NodeT(id, kids, seps);
    OneOrdered(t, lo, hi);
    FlatAllOne(t);
    InternalRep(pages, id, first, entries, kids, seps);
  }

  lemma TwoInternalReps(v: View, v1: View, v2: View, first: PageId, entries: seq<ChildEntry>, kids: seq<Tree>, seps: seq<Key>,
                        i: nat, a: PageId, b: PageId)
    requires Grew(v, v1) && Grew(v1, v2) && Grew(v, v2)
    requires Points(first, entries, kids, seps) && RepAll(v.pages, kids) && i < |seps|
    requires a != 0 && a in v1.pages && v1.pages[a] == Internal(first, entries[..i])
    requires b != 0 && b in v2.pages && v2.pages[b] == Internal(entries[i].child, entries[i + 1..])
    ensures Rep(v2.pages, NodeT(a, kids[..i + 1], seps[..i]))
    ensures Rep(v2.pages, NodeT(b, kids[i + 1..], seps[i + 1..]))
  {
    hide Grew, Rep, RepAll;
    RepAllGrows(v, v1, kids);
    RepAllGrows(v, v2, kids);
    RepSlice(v1.pages, kids, 0, i + 1);
    RepSlice(v2.pages, kids, i + 1, |kids|);
    assert kids[0..i + 1] == kids[..i + 1] && kids[i + 1..|kids|] == kids[i + 1..];
    InternalRep(v1.pages, a, first, entries[..i], kids[..i + 1], seps[..i]);
    InternalRep(v2.pages, b, entries[i].child, entries[i + 1..], kids[i + 1..], seps[i + 1..]);
    RepGrows(v1, v2, NodeT(a, kids[..i + 1], seps[..i]));
  }

  lemma TwoInternals(pages: map<PageId, Node>, cap: nat, kids: seq<Tree>, seps: seq<Key>, i: nat, a: PageId, b: PageId,
                     lo: Option<Key>, hi: Option<Key>)
    requires KidsOrdered(kids, seps, lo, hi) && i < |seps| && FitsAll(kids, cap)
    requires InternalEncodes(seps[..i], cap) && InternalEncodes(seps[i + 1..], cap)
    requires Rep(pages, NodeT(a, kids[..i + 1], seps[..i]))
    requires Rep(pages, NodeT(b, kids[i + 1..], seps[i + 1..]))
    ensures var g := Two(NodeT(a, kids[..i + 1], seps[..i]), seps[i], NodeT(b, kids[i + 1..], seps[i + 1..]));
            && Holds(pages, cap, g, FlatAll(kids), lo, hi)
            && BagAll(g.Trees()) == multiset([a] + [b]) + BagAll(kids)
            && (SmallKeys(seps, cap) && SmallAll(kids, cap) ==> SmallGrown(g, cap))
  {
    hide Rep, InternalEncodes, KidsOrdered;
    KidsShape(kids, seps, lo, hi);
    InternalSplit(kids, seps, i, a, b, lo, hi);
    assert multiset([a] + [b]) == multiset{a, b};
    var l, r := NodeT(a, kids[..i + 1], seps[..i]), NodeT(b, kids[i + 1..], seps[i + 1..]);
    assert Fits(l, cap) && Fits(r, cap);
    if SmallKeys(seps, cap) && SmallAll(kids, cap) {
      assert seps[i] in seps;
      forall k | k in r.seps ensures k in seps {
        var j :| 0 <= j < |r.seps| && r.seps[j] == k;
        assert seps[i + 1 + j] == k;
      }
      assert Small(l, cap) && Small(r, cap);
    }
  }

  // ---- The put, page by page ----

  lemma {:induction false} UpsertHolds(s: seq<Entry>, key: Key, value: Value)
    ensures Entry(key, value) in Upsert(s, key, value)
  {
    if s != [] && s[0].key != key && !Lt(key, s[0].key) {
      UpsertHolds(s[1..], key, value);
    }
  }

  lemma LargeIsNotAccepted(node: PageId, t: Tree, key: Key, value: Value, cap: nat)
    requires LeafEntryBytes(|key|, |value|) > cap
    ensures !Accepts(node, t, key, value, cap)
  {
    var s := if node == 0 then [] else Covering(t, key);
    UpsertHolds(s, key, value);
    LargeIsRefused(Upsert(s, key, value), Entry(key, value), cap);
  }

  lemma ChildAccepts(t: Tree, c: nat, key: Key, value: Value, cap: nat)
    requires t.NodeT? && c <= |t.seps| && |t.kids| == |t.seps| + 1 && t.id != 0 && t.kids[c].id != 0
    requires forall i | 0 <= i < c :: !Lt(key, t.seps[i])
    requires c < |t.seps| ==> Lt(key, t.seps[c])
    ensures Accepts(t.id, t, key, value, cap) == Accepts(t.kids[c].id, t.kids[c], key, value, cap)
  {
    ChosenChild(t.seps, key, c);
  }

  lemma RootPage(pages: map<PageId, Node>, node: PageId, t: Tree)
    requires node != 0 && t.id == node && Rep(pages, t)
    ensures node in pages
    ensures t.LeafT? ==> pages[node] == Leaf(t.items) && t == LeafT(node, t.items)
    ensures t.NodeT? ==> pages[node].Internal? && Points(pages[node].first, pages[node].entries, t.kids, t.seps)
  {
  }

  /** The child the search chooses is a proper subtree that covers the key. */
  lemma ChildIsOk(pages: map<PageId, Node>, cap: nat, t: Tree, lo: Option<Key>, hi: Option<Key>, c: nat, key: Key)
    requires t.NodeT? && Rep(pages, t) && Ordered(t, lo, hi) && Fits(t, cap) && c <= |t.seps|
    requires AtOrAbove(lo, key) && Below(hi, key)
    requires forall i | 0 <= i < c :: !Lt(key, t.seps[i])
    requires c < |t.seps| ==> Lt(key, t.seps[c])
    ensures c < |t.kids| && t.kids[c].id != 0
    ensures RootOk(pages, cap, t.kids[c].id, t.kids[c], LoOf(t.seps, lo, c), HiOf(t.seps, hi, c))
    ensures AtOrAbove(LoOf(t.seps, lo, c), key) && Below(HiOf(t.seps, hi, c), key)
    ensures Small(t, cap) ==> Small(t.kids[c], cap)
  {
  }

  lemma FirstOutcome(v: View, v': View, cap: nat, t: Tree, key: Key, value: Value, lo: Option<Key>, hi: Option<Key>,
                     r: PutResult, g: Grown)
    requires GrewClean(v, v') && Named(g, r.left, r.split) && r.inserted && r.replaced.None?
    requires Holds(v'.pages, cap, g, [Entry(key, value)], lo, hi)
    requires BagAll(g.Trees()) == multiset(Created(v, v'))
    ensures PutOutcome(v, v', [], cap, 0, t, key, value, lo, hi, r, g)
  {
    hide Lt, Grew, Holds, BagAll, Created;
    var none: seq<PageId> := [];
    assert multiset(none) == multiset{};
    assert Upsert([], key, value) == [Entry(key, value)];
  }

  lemma UpsertInRange(items: seq<Entry>, key: Key, value: Value, lo: Option<Key>, hi: Option<Key>)
    requires Sorted(items) && InRange(items, lo, hi) && AtOrAbove(lo, key) && Below(hi, key)
    ensures var u := Upsert(items, key, value); |u| > 0 && Sorted(u) && InRange(u, lo, hi)
  {
    UpsertIsUpdate(items, key, value);
  }

  lemma SmallItemsAfterPut(items: seq<Entry>, key: Key, value: Value, cap: nat)
    requires Sorted(items) && SmallKey(key, cap) && forall e | e in items :: SmallKey(e.key, cap)
    ensures SmallItems(Upsert(items, key, value), cap)
  {
    UpsertIsUpdate(items, key, value);
  }

  /** Entries of at most half a page never keep a leaf from being written. */
  lemma HalfPagesWrite(items: seq<Entry>, key: Key, value: Value, cap: nat)
    requires Sorted(items) && Sum(ItemSizes(items)) <= cap && CountsFit(cap)
    requires (forall e | e in items :: SmallItem(e, cap)) && SmallItem(Entry(key, value), cap)
    ensures LeafWrites(Upsert(items, key, value), cap)
  {
    hide Lt, Upsert, Sum, SmallItem, CountsFit;
    var u := Upsert(items, key, value);
    UpsertIsUpdate(items, key, value);
    UpsertSize(items, key, value);
    UpsertHolds(items, key, value);
    assert 2 * ItemBytes(Entry(key, value)) <= cap by { HalfPage(Entry(key, value), cap); }
    if Sum(ItemSizes(u)) <= cap {
      SmallLeafEncodes(u, cap);
    } else {
      var i := SplitExists(u, cap);
      SmallLoadSplits(u, cap, i);
      assert SplitsAt(u, cap, i);
    }
  }

  lemma {:induction false} CoveringLeaf(t: Tree, lo: Option<Key>, hi: Option<Key>, key: Key, cap: nat)
    requires Ordered(t, lo, hi) && Fits(t, cap)
    ensures Sorted(Covering(t, key)) && Sum(ItemSizes(Covering(t, key))) <= cap
    ensures forall e | e in Covering(t, key) :: e in Flat(t)
    decreases t
  {
    hide Sum, Lt;
    if t.NodeT? {
      var c := ChildFor(t.seps, key);
      assert Ordered(t.kids[c], LoOf(t.seps, lo, c), HiOf(t.seps, hi, c));
      CoveringLeaf(t.kids[c], LoOf(t.seps, lo, c), HiOf(t.seps, hi, c), key, cap);
      AroundKid(t.kids, c);
    }
  }

  lemma {:induction false} UpsertShrinks(items: seq<Entry>, key: Key, value: Value)
    requires Sorted(items) && Find(items, key).Some? && |value| <= |Find(items, key).value|
    ensures Sum(ItemSizes(Upsert(items, key, value))) <= Sum(ItemSizes(items))
  {
    hide Lt;
    LtIsTotalOrder();
    var rest, e := items[1..], items[0];
    assert ItemSizes(items)[1..] == ItemSizes(rest);
    if e.key == key {
      assert ItemSizes([Entry(key, value)] + rest)[1..] == ItemSizes(rest);
    } else if Lt(key, e.key) {
      RemoveAbsent(items, key);
    } else {
      UpsertShrinks(rest, key, value);
      assert ItemSizes([e] + Upsert(rest, key, value))[1..] == ItemSizes(Upsert(rest, key, value));
    }
  }

  lemma LeafTakesLess(items: seq<Entry>, key: Key, value: Value, cap: nat)
    requires Sorted(items) && LeafEncodes(items, cap) && Find(items, key).Some? && |value| <= |Find(items, key).value|
    ensures LeafEncodes(Upsert(items, key, value), cap)
  {
    hide Lt, Sum, Upsert, ToMap, Find;
    UpsertShrinks(items, key, value);
    UpsertIsUpdate(items, key, value);
    FindIsLookup(items, key);
    FoundIsThere(items, key);
  }

  lemma {:induction false} FoundIsThere(items: seq<Entry>, key: Key)
    requires Find(items, key).Some?
    ensures Entry(key, Find(items, key).value) in items
  {
    if items[0].key != key {
      FoundIsThere(items[1..], key);
    }
  }

  /** Putting a value no longer than the one it replaces splits nothing, so it is
      always written. */
  lemma {:induction false} RewriteStays(pages: map<PageId, Node>, t: Tree, lo: Option<Key>, hi: Option<Key>,
                                        key: Key, value: Value, cap: nat)
    requires t.id != 0 && RootOk(pages, cap, t.id, t, lo, hi) && AtOrAbove(lo, key) && Below(hi, key)
    requires Find(Flat(t), key).Some? && |value| <= |Find(Flat(t), key).value|
    ensures PutShape(t.id, t, key, value, cap) == Stays
    decreases t
  {
    hide Sum, Lt, Upsert, Find, LeafEncodes, InternalEncodes, PutShape;
    if t.LeafT? {
      LeafTakesLess(t.items, key, value, cap);
      LeafPutShape(t, key, value, cap);
    } else {
      var c := ChildFor(t.seps, key);
      ChildIsOk(pages, cap, t, lo, hi, c, key);
      NodePutShape(t, c, key, value, cap);
      KidContext(t.kids, t.seps, lo, hi, c, key);
      AroundKid(t.kids, c);
      FindInContext(FlatAll(t.kids[..c]), Flat(t.kids[c]), FlatAll(t.kids[c + 1..]), key);
      RewriteStays(pages, t.kids[c], LoOf(t.seps, lo, c), HiOf(t.seps, hi, c), key, value, cap);
    }
  }

  lemma LeafPutShape(t: Tree, key: Key, value: Value, cap: nat)
    requires t.LeafT? && t.id != 0
    ensures PutShape(t.id, t, key, value, cap) == LeafShape(Upsert(t.items, key, value), cap)
  {
  }

  /** In a tree whose entries are all at most half a page, every put of another
      such pair is written. */
  lemma HalfPagesAccepted(pages: map<PageId, Node>, root: PageId, t: Tree, key: Key, value: Value, cap: nat)
    requires RootOk(pages, cap, root, t, None, None) && CountsFit(cap)
    requires (forall e | e in RootFlat(root, t) :: SmallItem(e, cap)) && SmallItem(Entry(key, value), cap)
    ensures Accepts(root, t, key, value, cap)
  {
    hide Sum, Lt, Upsert, LeafWrites, SmallItem, CountsFit, Covering;
    if root == 0 {
      assert Sum(ItemSizes([])) == 0 by { SumNothing(); }
      HalfPagesWrite([], key, value, cap);
    } else {
      CoveringLeaf(t, None, None, key, cap);
      HalfPagesWrite(Covering(t, key), key, value, cap);
    }
  }

  lemma SumNothing()
    ensures Sum(ItemSizes([])) == 0
  {
  }

  lemma HalfPage(e: Entry, cap: nat)
    requires SmallItem(e, cap)
    ensures 2 * ItemBytes(e) <= cap
  {
  }

  /** Where the forward walk stops. */
  lemma {:induction false} SplitExists(items: seq<Entry>, cap: nat) returns (i: nat)
    ensures i <= |items|
    ensures 1 <= i < |items| ==> IsSplitIndex(ItemSizes(items), cap, i)
    ensures i == 0 || i == |items| ==>
              forall j | 1 <= j < |items| :: Sum(ItemSizes(items)[..j]) + ItemSizes(items)[j] <= cap
  {
    i := 1;
    if items == [] {
      i := 0;
      return;
    }
    while i < |items| && Sum(ItemSizes(items)[..i]) + ItemSizes(items)[i] <= cap
      invariant 1 <= i <= |items|
      invariant forall j | 1 <= j < i :: Sum(ItemSizes(items)[..j]) + ItemSizes(items)[j] <= cap
    {
      i := i + 1;
    }
  }

  lemma SmallAfterPut(t: Tree, cap: nat, c: nat, g: Grown)
    requires t.NodeT? && c <= |t.seps| && |t.kids| == |t.seps| + 1
    requires InternalEncodes(t.seps, cap) && Small(t, cap) && SmallGrown(g, cap) && CountsFit(cap)
    ensures SmallSeps(SplicedSeps(t.seps, c, g.Seps()), cap) && SmallKeys(SplicedSeps(t.seps, c, g.Seps()), cap)
    ensures SmallAll(Spliced(t.kids, c, g.Trees()), cap)
  {
    var seps := SplicedSeps(t.seps, c, g.Seps());
    if g.Two? {
      SepInsertSize(t.seps, c, g.sep);
    } else {
      assert seps == t.seps;
    }
    var kids := Spliced(t.kids, c, g.Trees());
    forall i | 0 <= i < |kids| ensures Small(kids[i], cap) {
      SplicedMember(t.kids, c, g.Trees(), i);
    }
  }

  lemma SplicedMember(kids: seq<Tree>, c: nat, mid: seq<Tree>, i: nat)
    requires c < |kids| && i < |Spliced(kids, c, mid)|
    ensures var x := Spliced(kids, c, mid)[i];
            (exists j :: 0 <= j < |kids| && j != c && kids[j] == x) || (exists j :: 0 <= j < |mid| && mid[j] == x)
  {
    if i < c {
      assert kids[i] == Spliced(kids, c, mid)[i];
    } else if i < c + |mid| {
      assert mid[i - c] == Spliced(kids, c, mid)[i];
    } else {
      assert kids[c + 1 + i - c - |mid|] == Spliced(kids, c, mid)[i];
    }
  }

  lemma SplicedPages(v: View, v1: View, cap: nat, kids: seq<Tree>, c: nat, mid: seq<Tree>)
    requires c < |kids| && Grew(v, v1) && RepAll(v.pages, kids) && FitsAll(kids, cap)
    requires RepAll(v1.pages, mid) && FitsAll(mid, cap)
    ensures RepAll(v1.pages, Spliced(kids, c, mid)) && FitsAll(Spliced(kids, c, mid), cap)
  {
    RepAllGrows(v, v1, kids);
    var out := Spliced(kids, c, mid);
    forall i | 0 <= i < |out| ensures Rep(v1.pages, out[i]) && Fits(out[i], cap) {
      SplicedMember(kids, c, mid, i);
    }
  }

  lemma ReplacedPoints(first: PageId, entries: seq<ChildEntry>, kids: seq<Tree>, seps: seq<Key>, c: nat, t: Tree)
    requires Points(first, entries, kids, seps) && c <= |entries|
    ensures Points(if c == 0 then t.id else first,
                   if c == 0 then entries else entries[c - 1 := ChildEntry(entries[c - 1].key, t.id)],
                   kids[c := t], seps)
    ensures |kids| == |seps| + 1 == |entries| + 1
  {
  }

  lemma SplicedIsReplaced(kids: seq<Tree>, seps: seq<Key>, c: nat, l: Tree, r: Tree)
    requires c < |kids| == |seps| + 1
    ensures Spliced(kids, c, [l]) == kids[c := l] && SplicedSeps(seps, c, []) == seps
    ensures Spliced(kids, c, [l, r]) == kids[c := l][..c + 1] + [r] + kids[c := l][c + 1..]
  {
  }

  lemma InsertedPoints(first: PageId, entries: seq<ChildEntry>, kids: seq<Tree>, seps: seq<Key>, c: nat, sep: Key, t: Tree)
    requires Points(first, entries, kids, seps) && c <= |entries|
    ensures Points(first, entries[..c] + [ChildEntry(sep, t.id)] + entries[c..], kids[..c + 1] + [t] + kids[c + 1..],
                   seps[..c] + [sep] + seps[c..])
  {
  }

  lemma SplicedPoints(first: PageId, entries: seq<ChildEntry>, kids: seq<Tree>, seps: seq<Key>, c: nat,
                      g: Grown, left: PageId, split: Option<ChildEntry>, newFirst: PageId, rebuilt: seq<ChildEntry>)
    requires Points(first, entries, kids, seps) && c <= |entries| && Named(g, left, split)
    requires newFirst == if c == 0 then left else first
    requires var e := if c == 0 then entries else entries[c - 1 := ChildEntry(entries[c - 1].key, left)];
             rebuilt == if split.None? then e else e[..c] + [split.value] + e[c..]
    ensures Points(newFirst, rebuilt, Spliced(kids, c, g.Trees()), SplicedSeps(seps, c, g.Seps()))
  {
    hide Points, Spliced;
    match g
    case One(t) =>
      ReplacedPoints(first, entries, kids, seps, c, t);
      SplicedIsReplaced(kids, seps, c, t, t);
    case Two(l, sep, r) =>
      ReplacedPoints(first, entries, kids, seps, c, l);
      SplicedIsReplaced(kids, seps, c, l, r);
      var e := if c == 0 then entries else entries[c - 1 := ChildEntry(entries[c - 1].key, left)];
      InsertedPoints(newFirst, e, kids[c := l], seps, c, sep, r);
  }

  lemma PutRebuilds(v: View, v1: View, retired: seq<PageId>, cap: nat, node: PageId, first: PageId, entries: seq<ChildEntry>,
                    t: Tree, lo: Option<Key>, hi: Option<Key>, c: nat, key: Key, value: Value,
                    sub: PutResult, sg: Grown, newFirst: PageId, rebuilt: seq<ChildEntry>)
    requires t.NodeT? && Points(first, entries, t.kids, t.seps) && c <= |entries|
    requires node != 0 && RootOk(v.pages, cap, node, t, lo, hi)
    requires AtOrAbove(LoOf(t.seps, lo, c), key) && Below(HiOf(t.seps, hi, c), key)
    requires Grew(v, v1)
    requires PutOutcome(v, v1, retired, cap, t.kids[c].id, t.kids[c], key, value,
                        LoOf(t.seps, lo, c), HiOf(t.seps, hi, c), sub, sg)
    requires newFirst == if c == 0 then sub.left else first
    requires var e := if c == 0 then entries else entries[c - 1 := ChildEntry(entries[c - 1].key, sub.left)];
             rebuilt == if sub.split.None? then e else e[..c] + [sub.split.value] + e[c..]
    ensures var kids, seps := Spliced(t.kids, c, sg.Trees()), SplicedSeps(t.seps, c, sg.Seps());
            && Points(newFirst, rebuilt, kids, seps) && KidsOrdered(kids, seps, lo, hi)
            && RepAll(v1.pages, kids) && FitsAll(kids, cap) && InternalEncodes(t.seps, cap)
            && GrewClean(v, v1)
  {
    hide Lt, Upsert, Find, Grew, InternalEncodes, Created;
    ChildNonNull(v.pages, t, c);
    assert FlatAll(sg.Trees()) == Upsert(Flat(t.kids[c]), key, value);
    PutThroughNode(t.kids, t.seps, lo, hi, c, key, value, sg);
    SplicedPages(v, v1, cap, t.kids, c, sg.Trees());
    SplicedPoints(first, entries, t.kids, t.seps, c, sg, sub.left, sub.split, newFirst, rebuilt);
  }

  /** The page account, one level up. */
  lemma AccountStep(g: multiset<PageId>, r: multiset<PageId>, kid: multiset<PageId>, made: multiset<PageId>,
                    spliced: multiset<PageId>, kids: multiset<PageId>, out: multiset<PageId>, made2: multiset<PageId>,
                    node: multiset<PageId>)
    requires g + r == kid + made
    requires spliced + kid == kids + g
    requires out == made2 + spliced
    ensures out + (r + node) == (node + kids) + (made + made2)
  {
    assert forall p :: spliced[p] + r[p] == kids[p] + made[p] by {
      forall p ensures spliced[p] + r[p] == kids[p] + made[p] {
        assert (g + r)[p] == (kid + made)[p];
        assert (spliced + kid)[p] == (kids + g)[p];
      }
    }
  }

  lemma PutNodeOutcome(v: View, v1: View, v2: View, retired: seq<PageId>, cap: nat, node: PageId,
                       t: Tree, lo: Option<Key>, hi: Option<Key>, c: nat, key: Key, value: Value,
                       sub: PutResult, sg: Grown, r: PutResult, g: Grown)
    requires t.NodeT? && |t.kids| == |t.seps| + 1 && c <= |t.seps|
    requires node != 0 && RootOk(v.pages, cap, node, t, lo, hi)
    requires AtOrAbove(LoOf(t.seps, lo, c), key) && Below(HiOf(t.seps, hi, c), key)
    requires PutOutcome(v, v1, retired, cap, t.kids[c].id, t.kids[c], key, value,
                        LoOf(t.seps, lo, c), HiOf(t.seps, hi, c), sub, sg)
    requires GrewClean(v1, v2) && GrewClean(v, v2)
    requires multiset(Created(v, v2)) == multiset(Created(v, v1)) + multiset(Created(v1, v2))
    requires Named(g, r.left, r.split)
    requires Holds(v2.pages, cap, g, FlatAll(Spliced(t.kids, c, sg.Trees())), lo, hi)
    requires BagAll(g.Trees()) == multiset(Created(v1, v2)) + BagAll(Spliced(t.kids, c, sg.Trees()))
    requires r.inserted == sub.inserted && r.replaced == sub.replaced
    ensures PutOutcome(v, v2, retired + [node], cap, node, t, key, value, lo, hi, r, g)
  {
    hide Lt, Upsert, Find, Grew, InternalEncodes, Created, Holds, Fits, Rep;
    NewPagesGrow(v, v1);
    NewPagesGrow(v1, v2);
    assert t.kids[c].id != 0 by { ChildNonNull(v.pages, t, c); }
    assert FlatAll(sg.Trees()) == Upsert(Flat(t.kids[c]), key, value) && GrownOrdered(sg, LoOf(t.seps, lo, c), HiOf(t.seps, hi, c))
      by { HoldsMeans(v1.pages, cap, sg, Upsert(Flat(t.kids[c]), key, value), LoOf(t.seps, lo, c), HiOf(t.seps, hi, c)); }
    PutThroughNode(t.kids, t.seps, lo, hi, c, key, value, sg);
    AccountStep(BagAll(sg.Trees()), multiset(retired), Bag(t.kids[c]), multiset(Created(v, v1)),
                BagAll(Spliced(t.kids, c, sg.Trees())), BagAll(t.kids), BagAll(g.Trees()), multiset(Created(v1, v2)),
                multiset{node});
    assert multiset(retired + [node]) == multiset(retired) + multiset{node};
  }

  lemma NewPagesGrow(v: View, v': View)
    requires Grew(v, v')
    ensures v.newPages <= v'.newPages
  {
  }

  lemma ChildNonNull(pages: map<PageId, Node>, t: Tree, c: nat)
    requires t.NodeT? && Rep(pages, t) && c < |t.kids|
    ensures t.kids[c].id != 0
  {
  }

  lemma HoldsMeans(pages: map<PageId, Node>, cap: nat, g: Grown, contents: seq<Entry>, lo: Option<Key>, hi: Option<Key>)
    requires Holds(pages, cap, g, contents, lo, hi)
    ensures FlatAll(g.Trees()) == contents && GrownOrdered(g, lo, hi)
  {
  }

  // ---- The erase, page by page ----

  lemma NothingErased(v: View, cap: nat, node: PageId, t: Tree, key: Key, lo: Option<Key>, hi: Option<Key>)
    requires RootOk(v.pages, cap, node, t, lo, hi)
    requires Find(RootFlat(node, t), key).None?
    ensures EraseOutcome(v, v, [], cap, node, t, key, lo, hi, EraseResult(node, false), t)
  {
    hide Lt, Rep, Ordered, Fits;
    GrewNothing(v);
    NotFoundRemoves(RootFlat(node, t), key);
    var none: seq<PageId> := [];
    assert multiset(none) == multiset{};
  }

  lemma {:induction false} NotFoundRemoves(s: seq<Entry>, key: Key)
    requires Find(s, key).None?
    ensures Remove(s, key) == s
  {
    if s != [] {
      NotFoundRemoves(s[1..], key);
    }
  }

  lemma LeafAfterErase(t: Tree, key: Key, cap: nat, lo: Option<Key>, hi: Option<Key>)
    requires t.LeafT? && Ordered(t, lo, hi) && Fits(t, cap)
    ensures var items := Remove(t.items, key);
            && Sorted(items) && InRange(items, lo, hi) && LeafEncodes(items, cap)
            && (Small(t, cap) ==> SmallItems(items, cap))
  {
    RemoveIsDeletion(t.items, key);
    RemoveSize(t.items, key);
  }

  lemma LeafEmptied(v: View, cap: nat, node: PageId, t: Tree, key: Key, lo: Option<Key>, hi: Option<Key>)
    requires node != 0 && t.LeafT? && t.id == node && Find(t.items, key).Some? && Remove(t.items, key) == []
    ensures EraseOutcome(v, v, [node], cap, node, t, key, lo, hi, EraseResult(0, true), t)
  {
    hide Lt;
    GrewNothing(v);
    var none: seq<PageId> := [];
    assert multiset(none) == multiset{} && multiset([node]) == multiset{node};
  }

  lemma LeafErased(v: View, v': View, cap: nat, node: PageId, t: Tree, key: Key, lo: Option<Key>, hi: Option<Key>,
                   r: PutResult, g: Grown)
    requires node != 0 && t.LeafT? && t.id == node && Find(t.items, key).Some?
    requires GrewClean(v, v') && g.One? && Named(g, r.left, r.split)
    requires Holds(v'.pages, cap, g, Remove(t.items, key), lo, hi)
    requires BagAll(g.Trees()) == multiset(Created(v, v'))
    ensures EraseOutcome(v, v', [node], cap, node, t, key, lo, hi, EraseResult(r.left, true), g.t)
    ensures SmallGrown(g, cap) ==> Small(g.t, cap)
  {
    hide Lt, Grew, Created;
    GrownOne(v'.pages, cap, g, Remove(t.items, key), lo, hi);
    SmallOne(g, cap);
    assert multiset([node]) == multiset{node};
  }

  lemma SmallOne(g: Grown, cap: nat)
    requires g.One?
    ensures SmallGrown(g, cap) ==> Small(g.t, cap)
  {
    assert g.Trees()[0] == g.t;
  }

  /** A single grown tree, as a root. */
  lemma GrownOne(pages: map<PageId, Node>, cap: nat, g: Grown, contents: seq<Entry>, lo: Option<Key>, hi: Option<Key>)
    requires g.One? && Holds(pages, cap, g, contents, lo, hi)
    ensures g.t.id != 0 && RootOk(pages, cap, g.t.id, g.t, lo, hi)
    ensures Flat(g.t) == contents && Bag(g.t) == BagAll(g.Trees())
  {
    FlatAllOne(g.t);
    var kids: seq<Tree>, seps: seq<Key> := [g.t], [];
    assert Ordered(kids[0], LoOf(seps, lo, 0), HiOf(seps, hi, 0));
    assert Rep(pages, kids[0]) && Fits(kids[0], cap);
  }

  lemma ChildHadNothing(v: View, v1: View, retired: seq<PageId>, cap: nat, node: PageId, t: Tree, c: nat, key: Key,
                        lo: Option<Key>, hi: Option<Key>, sub: EraseResult, sout: Tree)
    requires node != 0 && RootOk(v.pages, cap, node, t, lo, hi) && t.NodeT? && c < |t.kids| && |t.kids| == |t.seps| + 1
    requires AtOrAbove(LoOf(t.seps, lo, c), key) && Below(HiOf(t.seps, hi, c), key)
    requires t.kids[c].id != 0 && !sub.erased
    requires EraseOutcome(v, v1, retired, cap, t.kids[c].id, t.kids[c], key, LoOf(t.seps, lo, c), HiOf(t.seps, hi, c), sub, sout)
    ensures EraseOutcome(v, v1, retired, cap, node, t, key, lo, hi, EraseResult(node, false), t)
  {
    hide Lt, Find, Remove, Rep, Fits;
    FindThroughNode(t.kids, t.seps, lo, hi, c, key);
    NothingErased(v, cap, node, t, key, lo, hi);
  }

  lemma FindThroughNode(kids: seq<Tree>, seps: seq<Key>, lo: Option<Key>, hi: Option<Key>, c: nat, key: Key)
    requires KidsOrdered(kids, seps, lo, hi) && c < |kids|
    requires AtOrAbove(LoOf(seps, lo, c), key) && Below(HiOf(seps, hi, c), key)
    ensures Find(FlatAll(kids), key) == Find(Flat(kids[c]), key)
  {
    hide Lt, KidsOrdered, Find;
    KidContext(kids, seps, lo, hi, c, key);
    AroundKid(kids, c);
    FindInContext(FlatAll(kids[..c]), Flat(kids[c]), FlatAll(kids[c + 1..]), key);
  }

  /** The child's replacement: nothing when it became empty. */
  ghost function Remaining(left: PageId, sout: Tree): seq<Tree> {
    if left == 0 then [] else [sout]
  }

  ghost function KidsAfterErase(kids: seq<Tree>, c: nat, left: PageId, sout: Tree): seq<Tree>
    requires c < |kids|
  {
    Spliced(kids, c, Remaining(left, sout))
  }

  ghost function SepsAfterErase(seps: seq<Key>, c: nat, left: PageId): seq<Key>
    requires c <= |seps| && (left == 0 ==> |seps| > 0)
  {
    if left == 0 then DroppedSeps(seps, c) else seps
  }

  /** The child's part of the outcome, as children. */
  lemma SubErased(v: View, v1: View, retired: seq<PageId>, cap: nat, kid: Tree, key: Key, lo: Option<Key>, hi: Option<Key>,
                  sub: EraseResult, sout: Tree)
    requires kid.id != 0 && sub.erased && EraseOutcome(v, v1, retired, cap, kid.id, kid, key, lo, hi, sub, sout)
    ensures GrewClean(v, v1) && v.newPages <= v1.newPages
    ensures FlatAll(Remaining(sub.left, sout)) == Remove(Flat(kid), key)
    ensures RepAll(v1.pages, Remaining(sub.left, sout)) && FitsAll(Remaining(sub.left, sout), cap)
    ensures sub.left != 0 ==> KidsOrdered([sout], [], lo, hi) && sout.id == sub.left
    ensures BagAll(Remaining(sub.left, sout)) + multiset(retired) == Bag(kid) + multiset(Created(v, v1))
    ensures Find(Flat(kid), key).Some?
  {
    hide Lt, Remove, Find, Rep, Fits;
    if sub.left != 0 {
      FlatAllOne(sout);
      OneOrdered(sout, lo, hi);
    }
  }

  lemma ErasedPoints(first: PageId, entries: seq<ChildEntry>, kids: seq<Tree>, seps: seq<Key>, c: nat,
                     left: PageId, sout: Tree, newFirst: PageId, rebuilt: seq<ChildEntry>)
    requires Points(first, entries, kids, seps) && c <= |entries| && (left != 0 ==> sout.id == left)
    requires left == 0 ==> |entries| > 0
    requires left == 0 && c == 0 ==> newFirst == entries[0].child && rebuilt == entries[1..]
    requires left == 0 && c > 0 ==> newFirst == first && rebuilt == entries[..c - 1] + entries[c..]
    requires left != 0 && c == 0 ==> newFirst == left && rebuilt == entries
    requires left != 0 && c > 0 ==>
               newFirst == first && rebuilt == entries[c - 1 := ChildEntry(entries[c - 1].key, left)]
    ensures Points(newFirst, rebuilt, KidsAfterErase(kids, c, left, sout), SepsAfterErase(seps, c, left))
  {
    var out, outSeps := KidsAfterErase(kids, c, left, sout), SepsAfterErase(seps, c, left);
    forall i | 0 <= i < |rebuilt| ensures rebuilt[i] == ChildEntry(outSeps[i], out[i + 1].id) {
    }
  }

  lemma EraseRebuilds(v: View, v1: View, retired: seq<PageId>, cap: nat, node: PageId, first: PageId, entries: seq<ChildEntry>,
                      t: Tree, lo: Option<Key>, hi: Option<Key>, c: nat, key: Key,
                      sub: EraseResult, sout: Tree, newFirst: PageId, rebuilt: seq<ChildEntry>)
    requires node != 0 && RootOk(v.pages, cap, node, t, lo, hi)
    requires t.NodeT? && Points(first, entries, t.kids, t.seps) && c <= |entries| && sub.erased
    requires AtOrAbove(LoOf(t.seps, lo, c), key) && Below(HiOf(t.seps, hi, c), key)
    requires EraseOutcome(v, v1, retired, cap, t.kids[c].id, t.kids[c], key,
                          LoOf(t.seps, lo, c), HiOf(t.seps, hi, c), sub, sout)
    requires sub.left == 0 ==> |entries| > 0
    requires sub.left == 0 && c == 0 ==> newFirst == entries[0].child && rebuilt == entries[1..]
    requires sub.left == 0 && c > 0 ==> newFirst == first && rebuilt == entries[..c - 1] + entries[c..]
    requires sub.left != 0 && c == 0 ==> newFirst == sub.left && rebuilt == entries
    requires sub.left != 0 && c > 0 ==>
               newFirst == first && rebuilt == entries[c - 1 := ChildEntry(entries[c - 1].key, sub.left)]
    ensures var kids, seps := KidsAfterErase(t.kids, c, sub.left, sout), SepsAfterErase(t.seps, c, sub.left);
            && Points(newFirst, rebuilt, kids, seps) && KidsOrdered(kids, seps, lo, hi)
            && RepAll(v1.pages, kids) && FitsAll(kids, cap) && InternalEncodes(seps, cap)
            && Grew(v, v1)
  {
    hide Lt, Remove, Find, Grew, InternalEncodes, Created, EraseOutcome, KidsOrdered, BagAll, FlatAll, Flat, Bag;
    ChildNonNull(v.pages, t, c);
    SubErased(v, v1, retired, cap, t.kids[c], key, LoOf(t.seps, lo, c), HiOf(t.seps, hi, c), sub, sout);
    SplicedPages(v, v1, cap, t.kids, c, Remaining(sub.left, sout));
    ErasedPoints(first, entries, t.kids, t.seps, c, sub.left, sout, newFirst, rebuilt);
    if sub.left == 0 {
      DropOrdered(t.kids, t.seps, lo, hi, c);
      DroppedEncodes(t.seps, c, cap);
    } else {
      SpliceOrdered(t.kids, t.seps, lo, hi, c, [sout], []);
      assert SplicedSeps(t.seps, c, []) == t.seps;
    }
  }

  lemma DroppedEncodes(seps: seq<Key>, c: nat, cap: nat)
    requires InternalEncodes(seps, cap) && c <= |seps| && |seps| > 0
    ensures InternalEncodes(DroppedSeps(seps, c), cap)
    ensures forall k | k in DroppedSeps(seps, c) :: k in seps
  {
    var i := if c == 0 then 0 else c - 1;
    SepDropSize(seps, i);
    assert DroppedSeps(seps, c) == seps[..i] + seps[i + 1..];
  }

  lemma SmallAfterErase(t: Tree, cap: nat, c: nat, left: PageId, sout: Tree)
    requires t.NodeT? && c <= |t.seps| && |t.kids| == |t.seps| + 1 && (left == 0 ==> |t.seps| > 0)
    requires Small(t, cap) && (left != 0 ==> Small(sout, cap))
    ensures SmallAll(KidsAfterErase(t.kids, c, left, sout), cap)
    ensures SmallKeys(SepsAfterErase(t.seps, c, left), cap)
  {
    var kids := KidsAfterErase(t.kids, c, left, sout);
    forall i | 0 <= i < |kids| ensures Small(kids[i], cap) {
      SplicedMember(t.kids, c, Remaining(left, sout), i);
    }
  }

  lemma NodeEmptied(v: View, v1: View, retired: seq<PageId>, cap: nat, node: PageId, t: Tree, key: Key,
                    lo: Option<Key>, hi: Option<Key>, sub: EraseResult, sout: Tree)
    requires node != 0 && RootOk(v.pages, cap, node, t, lo, hi) && t.NodeT? && |t.kids| == 1 && t.seps == []
    requires sub.erased && sub.left == 0
    requires EraseOutcome(v, v1, retired, cap, t.kids[0].id, t.kids[0], key, LoOf(t.seps, lo, 0), HiOf(t.seps, hi, 0), sub, sout)
    ensures EraseOutcome(v, v1, retired + [node], cap, node, t, key, lo, hi, EraseResult(0, true), t)
  {
    hide Lt, Find, Remove, Rep, Fits, Grew, Created, Ordered;
    ChildNonNull(v.pages, t, 0);
    SubErased(v, v1, retired, cap, t.kids[0], key, LoOf(t.seps, lo, 0), HiOf(t.seps, hi, 0), sub, sout);
    assert t.kids == [t.kids[0]];
    FlatAllOne(t.kids[0]);
    assert Remaining(sub.left, sout) == [];
    assert Flat(t) == Flat(t.kids[0]);
    assert Bag(t) == multiset{node} + Bag(t.kids[0]);
    assert multiset(retired) == Bag(t.kids[0]) + multiset(Created(v, v1));
    assert RootFlat(0, t) == Remove(RootFlat(node, t), key);
    assert multiset(retired + [node]) == multiset(retired) + multiset{node};
  }

  /** Contents and account of an internal page that lost `key`. */
  lemma NodeWithout(v: View, v1: View, retired: seq<PageId>, cap: nat, node: PageId, t: Tree,
                    lo: Option<Key>, hi: Option<Key>, c: nat, key: Key, sub: EraseResult, sout: Tree)
    requires node != 0 && RootOk(v.pages, cap, node, t, lo, hi)
    requires t.NodeT? && c < |t.kids| && |t.kids| == |t.seps| + 1 && sub.erased
    requires AtOrAbove(LoOf(t.seps, lo, c), key) && Below(HiOf(t.seps, hi, c), key)
    requires EraseOutcome(v, v1, retired, cap, t.kids[c].id, t.kids[c], key,
                          LoOf(t.seps, lo, c), HiOf(t.seps, hi, c), sub, sout)
    ensures GrewClean(v, v1) && v.newPages <= v1.newPages
    ensures var kids := KidsAfterErase(t.kids, c, sub.left, sout);
            && FlatAll(kids) == Remove(Flat(t), key) && Find(Flat(t), key).Some?
            && BagAll(kids) + Bag(t.kids[c]) == BagAll(t.kids) + BagAll(Remaining(sub.left, sout))
            && BagAll(Remaining(sub.left, sout)) + multiset(retired) == Bag(t.kids[c]) + multiset(Created(v, v1))
  {
    hide Lt, Find, Remove, Fits, Grew, Created, Ordered, KidsOrdered, EraseOutcome, Rep;
    assert KidsOrdered(t.kids, t.seps, lo, hi) by { NodeOrdered(t, lo, hi); }
    ChildNonNull(v.pages, t, c);
    SubErased(v, v1, retired, cap, t.kids[c], key, LoOf(t.seps, lo, c), HiOf(t.seps, hi, c), sub, sout);
    EraseThroughNode(t.kids, t.seps, lo, hi, c, key, Remaining(sub.left, sout));
  }

  lemma NodeOrdered(t: Tree, lo: Option<Key>, hi: Option<Key>)
    requires t.NodeT? && Ordered(t, lo, hi)
    ensures KidsOrdered(t.kids, t.seps, lo, hi)
  {
  }

  lemma LevelCollapses(v: View, v1: View, retired: seq<PageId>, cap: nat, node: PageId, t: Tree,
                       lo: Option<Key>, hi: Option<Key>, c: nat, key: Key, sub: EraseResult, sout: Tree, newFirst: PageId)
    requires node != 0 && RootOk(v.pages, cap, node, t, lo, hi)
    requires t.NodeT? && c < |t.kids| && |t.kids| == |t.seps| + 1 && sub.erased && (sub.left == 0 ==> |t.seps| > 0)
    requires AtOrAbove(LoOf(t.seps, lo, c), key) && Below(HiOf(t.seps, hi, c), key)
    requires EraseOutcome(v, v1, retired, cap, t.kids[c].id, t.kids[c], key,
                          LoOf(t.seps, lo, c), HiOf(t.seps, hi, c), sub, sout)
    requires var kids, seps := KidsAfterErase(t.kids, c, sub.left, sout), SepsAfterErase(t.seps, c, sub.left);
             && |kids| == 1 && seps == [] && newFirst == kids[0].id
             && KidsOrdered(kids, seps, lo, hi) && RepAll(v1.pages, kids) && FitsAll(kids, cap)
    ensures EraseOutcome(v, v1, retired + [node], cap, node, t, key, lo, hi, EraseResult(newFirst, true),
                         KidsAfterErase(t.kids, c, sub.left, sout)[0])
  {
    hide Lt, Find, Remove, Fits, Grew, Created, Flat, FlatAll, Bag, BagAll, KidsOrdered, RepAll, FitsAll, Rep, Ordered,
         KidsAfterErase, SepsAfterErase, EraseOutcome, Remaining;
    var kids, seps := KidsAfterErase(t.kids, c, sub.left, sout), SepsAfterErase(t.seps, c, sub.left);
    NodeWithout(v, v1, retired, cap, node, t, lo, hi, c, key, sub, sout);
    NodeBag(t);
    NodeFlat(t);
    OnlyKid(v1.pages, cap, kids, lo, hi);
    var none: multiset<PageId> := multiset{};
    AccountStep(BagAll(Remaining(sub.left, sout)), multiset(retired), Bag(t.kids[c]), multiset(Created(v, v1)),
                BagAll(kids), BagAll(t.kids), BagAll(kids), none, multiset{node});
    Collapsed(v, v1, retired, cap, node, t, key, lo, hi, kids[0]);
  }

  /** The one child a level has left takes its place. */
  lemma OnlyKid(pages: map<PageId, Node>, cap: nat, kids: seq<Tree>, lo: Option<Key>, hi: Option<Key>)
    requires |kids| == 1 && KidsOrdered(kids, [], lo, hi) && RepAll(pages, kids) && FitsAll(kids, cap)
    ensures FlatAll(kids) == Flat(kids[0]) && BagAll(kids) == Bag(kids[0]) && kids[0].id != 0
    ensures RootOk(pages, cap, kids[0].id, kids[0], lo, hi)
  {
    var none: seq<Key> := [];
    assert kids == [kids[0]];
    FlatAllOne(kids[0]);
    assert Ordered(kids[0], LoOf(none, lo, 0), HiOf(none, hi, 0)) && Rep(pages, kids[0]);
  }

  lemma Collapsed(v: View, v1: View, retired: seq<PageId>, cap: nat, node: PageId, t: Tree, key: Key,
                  lo: Option<Key>, hi: Option<Key>, kid: Tree)
    requires node != 0 && GrewClean(v, v1) && kid.id != 0 && RootOk(v1.pages, cap, kid.id, kid, lo, hi)
    requires Flat(kid) == Remove(Flat(t), key) && Find(Flat(t), key).Some?
    requires Bag(kid) + (multiset(retired) + multiset{node}) == Bag(t) + multiset(Created(v, v1))
    ensures EraseOutcome(v, v1, retired + [node], cap, node, t, key, lo, hi, EraseResult(kid.id, true), kid)
  {
    hide Lt, Find, Remove, Grew, Created, Flat, Bag, RootOk;
    assert multiset(retired + [node]) == multiset(retired) + multiset{node};
  }

  lemma NodeFlat(t: Tree)
    requires t.NodeT?
    ensures Flat(t) == FlatAll(t.kids)
  {
  }

  lemma NodeBag(t: Tree)
    requires t.NodeT?
    ensures Bag(t) == multiset{t.id} + BagAll(t.kids)
  {
  }

  lemma NodeErased(v: View, v1: View, v2: View, retired: seq<PageId>, cap: nat, node: PageId, t: Tree,
                   lo: Option<Key>, hi: Option<Key>, c: nat, key: Key, sub: EraseResult, sout: Tree,
                   r: PutResult, g: Grown)
    requires node != 0 && RootOk(v.pages, cap, node, t, lo, hi)
    requires t.NodeT? && c < |t.kids| && |t.kids| == |t.seps| + 1 && sub.erased
    requires AtOrAbove(LoOf(t.seps, lo, c), key) && Below(HiOf(t.seps, hi, c), key)
    requires EraseOutcome(v, v1, retired, cap, t.kids[c].id, t.kids[c], key,
                          LoOf(t.seps, lo, c), HiOf(t.seps, hi, c), sub, sout)
    requires GrewClean(v1, v2) && g.One? && Named(g, r.left, r.split)
    requires Holds(v2.pages, cap, g, FlatAll(KidsAfterErase(t.kids, c, sub.left, sout)), lo, hi)
    requires BagAll(g.Trees()) == multiset(Created(v1, v2)) + BagAll(KidsAfterErase(t.kids, c, sub.left, sout))
    ensures EraseOutcome(v, v2, retired + [node], cap, node, t, key, lo, hi, EraseResult(r.left, true), g.t)
  {
    hide Lt, Find, Remove, Fits, Grew, Created, Flat, Bag, Holds, Rep, Ordered;
    var kids := KidsAfterErase(t.kids, c, sub.left, sout);
    NodeWithout(v, v1, retired, cap, node, t, lo, hi, c, key, sub, sout);
    GrewTransitive(v, v1, v2);
    NewPagesGrow(v1, v2);
    GrownOne(v2.pages, cap, g, FlatAll(kids), lo, hi);
    AccountStep(BagAll(Remaining(sub.left, sout)), multiset(retired), Bag(t.kids[c]), multiset(Created(v, v1)),
                BagAll(kids), BagAll(t.kids), BagAll(g.Trees()), multiset(Created(v1, v2)), multiset{node});
    assert multiset(retired + [node]) == multiset(retired) + multiset{node};
    NodeBag(t);
  }

  // ---- Transactions ----

  /** The live tree is untouched by pages written beside it. */
  lemma LiveSurvives(base: View, v: View, v': View, cap: nat, root: PageId, shape: Tree)
    requires Grew(base, v) && Grew(v, v') && RootOk(v.pages, cap, root, shape, None, None)
    ensures Grew(base, v') && RootOk(v'.pages, cap, root, shape, None, None)
  {
    hide Grew, Rep, Ordered, Fits;
    GrewTransitive(base, v, v');
    if root != 0 {
      RepGrows(v, v', shape);
    }
  }

  lemma GoodRoot(base: View, v: View, cap: nat, root: PageId, shape: Tree, freed: seq<PageId>, delta: int,
                 liveRoot: PageId, liveShape: Tree)
    requires TxnGood(base, v, cap, root, shape, freed, delta, liveRoot, liveShape)
    ensures RootOk(v.pages, cap, root, shape, None, None)
    ensures delta == |RootFlat(root, shape)| - |RootFlat(liveRoot, liveShape)| && Grew(base, v)
  {
  }

  lemma PutHolds(v: View, v': View, retired: seq<PageId>, cap: nat, node: PageId, t: Tree, key: Key, value: Value,
                 r: PutResult, g: Grown)
    requires PutOutcome(v, v', retired, cap, node, t, key, value, None, None, r, g)
    ensures GrewClean(v, v') && Named(g, r.left, r.split)
    ensures Holds(v'.pages, cap, g, Upsert(RootFlat(node, t), key, value), None, None)
    ensures r.replaced == Find(RootFlat(node, t), key)
  {
  }

  lemma HoldsKids(pages: map<PageId, Node>, cap: nat, g: Grown, contents: seq<Entry>, lo: Option<Key>, hi: Option<Key>)
    requires Holds(pages, cap, g, contents, lo, hi)
    ensures KidsOrdered(g.Trees(), g.Seps(), lo, hi) && RepAll(pages, g.Trees()) && FitsAll(g.Trees(), cap)
    ensures FlatAll(g.Trees()) == contents
  {
  }

  lemma SmallRoot(g: Grown, cap: nat)
    requires g.Two? && SmallGrown(g, cap) && CountsFit(cap)
    ensures SmallSeps(g.Seps(), cap) && SmallKeys(g.Seps(), cap) && SmallAll(g.Trees(), cap)
  {
    assert SepSizes([g.sep]) == [InternalEntryBytes(|g.sep|)];
    assert Sum([InternalEntryBytes(|g.sep|)]) == InternalEntryBytes(|g.sep|);
  }

  lemma BagChain(now: multiset<PageId>, r: multiset<PageId>, was: multiset<PageId>, made: multiset<PageId>,
                 out: multiset<PageId>, made2: multiset<PageId>, freed: multiset<PageId>, live: multiset<PageId>,
                 news: multiset<PageId>)
    requires now + r == was + made
    requires out == now + made2
    requires was + freed == live + news
    ensures out + (freed + r) == live + (news + (made + made2))
  {
    forall p ensures (out + (freed + r))[p] == (live + (news + (made + made2)))[p] {
      assert (now + r)[p] == (was + made)[p];
      assert (was + freed)[p] == (live + news)[p];
    }
  }

  lemma NewPagesBag(v: View, v': View)
    requires Grew(v, v')
    ensures v.newPages <= v'.newPages && multiset(v'.newPages) == multiset(v.newPages) + multiset(Created(v, v'))
  {
    assert v'.newPages == v.newPages + Created(v, v');
  }

  lemma RootSorted(pages: map<PageId, Node>, cap: nat, root: PageId, shape: Tree)
    requires RootOk(pages, cap, root, shape, None, None)
    ensures Sorted(RootFlat(root, shape))
  {
    if root != 0 {
      OrderedIsSorted(shape, None, None);
    }
  }

  lemma TxnPut(base: View, v0: View, v1: View, v2: View, cap: nat, root: PageId, shape: Tree,
               freed: seq<PageId>, retired: seq<PageId>, delta: int, liveRoot: PageId, liveShape: Tree,
               key: Key, value: Value, sub: PutResult, g: Grown, out: Tree)
    requires TxnGood(base, v0, cap, root, shape, freed, delta, liveRoot, liveShape)
    requires PutOutcome(v0, v1, retired, cap, root, shape, key, value, None, None, sub, g)
    requires GrewClean(v1, v2) && out.id != 0 && RootOk(v2.pages, cap, out.id, out, None, None)
    requires Flat(out) == Upsert(RootFlat(root, shape), key, value)
    requires v1.newPages <= v2.newPages && Bag(out) == BagAll(g.Trees()) + multiset(Created(v1, v2))
    ensures TxnGood(base, v2, cap, out.id, out, freed + retired, delta + if sub.inserted then 1 else 0, liveRoot, liveShape)
  {
    hide Lt, Upsert, Find, Grew, Rep, Ordered, Fits, Flat, Bag, Created, Holds, BagAll;
    GrewTransitive(base, v0, v1);
    GrewTransitive(base, v1, v2);
    NewPagesBag(v0, v1);
    NewPagesBag(v1, v2);
    RootSorted(v0.pages, cap, root, shape);
    UpsertIsUpdate(RootFlat(root, shape), key, value);
    BagChain(BagAll(g.Trees()), multiset(retired), RootBag(root, shape), multiset(Created(v0, v1)),
             Bag(out), multiset(Created(v1, v2)), multiset(freed), RootBag(liveRoot, liveShape), multiset(v0.newPages));
    assert multiset(freed + retired) == multiset(freed) + multiset(retired);
  }

  lemma TxnErase(base: View, v0: View, v1: View, cap: nat, root: PageId, shape: Tree,
                 freed: seq<PageId>, retired: seq<PageId>, delta: int, liveRoot: PageId, liveShape: Tree,
                 key: Key, sub: EraseResult, out: Tree)
    requires TxnGood(base, v0, cap, root, shape, freed, delta, liveRoot, liveShape)
    requires EraseOutcome(v0, v1, retired, cap, root, shape, key, None, None, sub, out)
    ensures TxnGood(base, v1, cap, sub.left, out, freed + retired, delta - if sub.erased then 1 else 0, liveRoot, liveShape)
    ensures RootFlat(sub.left, out) == Remove(RootFlat(root, shape), key) && Grew(v0, v1)
    ensures sub.erased == Find(RootFlat(root, shape), key).Some?
  {
    hide Lt, Remove, Find, Grew, RootOk, Flat, RootBag, Created;
    GrewTransitive(base, v0, v1);
    NewPagesBag(v0, v1);
    RootSorted(v0.pages, cap, root, shape);
    RemoveIsDeletion(RootFlat(root, shape), key);
    var none: multiset<PageId> := multiset{};
    BagChain(RootBag(sub.left, out), multiset(retired), RootBag(root, shape), multiset(Created(v0, v1)),
             RootBag(sub.left, out), none, multiset(freed), RootBag(liveRoot, liveShape), multiset(v0.newPages));
    assert multiset(freed + retired) == multiset(freed) + multiset(retired);
    assert multiset(Created(v0, v1)) + none == multiset(Created(v0, v1));
  }

  lemma {:induction false} DistinctBag(s: seq<PageId>, p: PageId)
    requires F.Distinct(s)
    ensures multiset(s)[p] == if p in s then 1 else 0
  {
    if s != [] {
      DistinctBag(s[1..], p);
      assert s == [s[0]] + s[1..];
      assert multiset(s) == multiset{s[0]} + multiset(s[1..]);
    }
  }

  lemma {:induction false} BagDistinct(s: seq<PageId>)
    requires forall p | p in multiset(s) :: multiset(s)[p] == 1
    ensures F.Distinct(s)
  {
    if s != [] {
      assert s == [s[0]] + s[1..];
      assert multiset(s) == multiset{s[0]} + multiset(s[1..]);
      forall p | p in multiset(s[1..]) ensures multiset(s[1..])[p] == 1 {
        assert p in multiset(s);
      }
      BagDistinct(s[1..]);
      assert s[0] in multiset(s);
      assert s[0] !in multiset(s[1..]);
      assert forall j | 0 <= j < |s[1..]| :: s[1..][j] in multiset(s[1..]);
    }
  }

  /** The page account as sets: the new tree reaches what the old one reached and
      the new pages, less the freed ones, and no page is freed twice. */
  lemma Conservation(now: multiset<PageId>, freed: seq<PageId>, was: multiset<PageId>, made: seq<PageId>)
    requires now + multiset(freed) == was + multiset(made)
    requires Once(was) && F.Distinct(made) && PagesOf(was) !! F.Elems(made)
    ensures PagesOf(now) == PagesOf(was) + F.Elems(made) - F.Elems(freed)
    ensures F.Elems(freed) <= PagesOf(was) + F.Elems(made)
    ensures Once(now) && F.Distinct(freed)
  {
    forall p
      ensures now[p] + multiset(freed)[p] == if p in PagesOf(was) + F.Elems(made) then 1 else 0
    {
      assert (now + multiset(freed))[p] == (was + multiset(made))[p];
      DistinctBag(made, p);
    }
    BagDistinct(freed);
    forall p
      ensures p in freed <==> p in multiset(freed)
    {
    }
  }

  /** What a good transaction owns when it commits. */
  lemma TxnPages(base: View, v: View, cap: nat, root: PageId, shape: Tree, freed: seq<PageId>, delta: int,
                 liveRoot: PageId, liveShape: Tree)
    requires TxnGood(base, v, cap, root, shape, freed, delta, liveRoot, liveShape)
    requires base.newPages == [] && Once(RootBag(liveRoot, liveShape))
    requires PagesOf(RootBag(liveRoot, liveShape)) <= base.live && base.handed <= base.live && v.handed !! v.written
    ensures F.Distinct(v.newPages) && F.Elems(v.newPages) !! base.live && F.Elems(v.newPages) <= v.written
    ensures v.live == base.live + F.Elems(v.newPages)
    ensures v.handed + v.written == base.handed + base.written + F.Elems(v.newPages)
    ensures forall p | p in base.pages :: p in v.pages && v.pages[p] == base.pages[p]
    ensures PagesOf(RootBag(root, shape)) ==
            PagesOf(RootBag(liveRoot, liveShape)) + F.Elems(v.newPages) - F.Elems(freed)
    ensures F.Elems(freed) <= PagesOf(RootBag(liveRoot, liveShape)) + F.Elems(v.newPages)
    ensures Once(RootBag(root, shape)) && F.Distinct(freed)
  {
    assert Created(base, v) == v.newPages;
    Conservation(RootBag(root, shape), freed, RootBag(liveRoot, liveShape), v.newPages);
  }

  /** The pages a commit names are committed or written, and it frees none. */
  lemma ValuesApart(was: set<PageId>, values: set<PageId>, newValues: set<PageId>, base: View, v: View,
                    tree: set<PageId>, freed: set<PageId>)
    requires Grew(base, v) && was + values <= base.live && base.written <= base.live
    requires was !! values && (was + values) !! v.written && newValues <= values + base.written
    requires F.Elems(v.newPages) !! base.live && F.Elems(v.newPages) <= v.written
    requires tree == was + F.Elems(v.newPages) - freed && freed <= was + F.Elems(v.newPages)
    ensures newValues !! tree && tree + newValues <= was + values + v.written && freed !! tree + newValues
  {
  }

  lemma RootKept(pages: map<PageId, Node>, pages': map<PageId, Node>, cap: nat, root: PageId, shape: Tree, gone: seq<PageId>)
    requires RootOk(pages, cap, root, shape, None, None)
    requires PagesOf(RootBag(root, shape)) !! F.Elems(gone)
    requires forall p | p in pages && p !in gone :: p in pages' && pages'[p] == pages[p]
    ensures RootOk(pages', cap, root, shape, None, None)
  {
    if root != 0 {
      forall p | p in Bag(shape) && p in pages ensures p in pages' && pages'[p] == pages[p] {
        assert p in PagesOf(RootBag(root, shape));
      }
      RepFrame(pages, pages', shape);
    }
  }
}
