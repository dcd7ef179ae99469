/** The shape of the copy-on-write B+tree: pages, the tree they form, the entries
    it holds in order, and the pages it owns. The tree is not balanced; what every
    operation keeps is that a child holds only keys between its separators. */
module TreeModel {
  import opened Wrappers
  import opened Keys

  type PageId = nat

  datatype ChildEntry = ChildEntry(key: Key, child: PageId)

  function KeysOf(entries: seq<ChildEntry>): (ks: seq<Key>)
    ensures |ks| == |entries| && forall i | 0 <= i < |ks| :: ks[i] == entries[i].key
  {
    seq(|entries|, i requires 0 <= i < |entries| => entries[i].key)
  }

  /** A decoded data page. `first` covers the keys below `entries[0].key`,
      `entries[i].child` those from `entries[i].key` up to the next separator.
      An overflow page belongs to a value, not to the tree. */
  datatype Node =
    | Leaf(items: seq<Entry>)
    | Internal(first: PageId, entries: seq<ChildEntry>)
    | Overflow(next: PageId, chunk: seq<Byte>)

  /** The tree a root page spans. Child `i` sits between separators `i - 1` and
      `i`. */
  datatype Tree =
    | LeafT(id: PageId, items: seq<Entry>)
    | NodeT(id: PageId, kids: seq<Tree>, seps: seq<Key>)

  // ---- Contents ----

  ghost function Flat(t: Tree): seq<Entry>
    decreases t, 1
  {
    match t
    case LeafT(_, items) => items
    case NodeT(_, kids, _) => FlatAll(kids)
  }

  ghost function FlatAll(kids: seq<Tree>): seq<Entry>
    decreases kids, 0
  {
    if kids == [] then [] else Flat(kids[0]) + FlatAll(kids[1..])
  }

  // ---- Pages owned ----

  ghost function Bag(t: Tree): multiset<PageId>
    decreases t, 1
  {
    match t
    case LeafT(id, _) => multiset{id}
    case NodeT(id, kids, _) => multiset{id} + BagAll(kids)
  }

  ghost function BagAll(kids: seq<Tree>): multiset<PageId>
    decreases kids, 0
  {
    if kids == [] then multiset{} else Bag(kids[0]) + BagAll(kids[1..])
  }

  lemma {:induction false} FlatAllConcat(a: seq<Tree>, b: seq<Tree>)
    ensures FlatAll(a + b) == FlatAll(a) + FlatAll(b)
    decreases |a|
  {
    if a == [] {
      assert a + b == b;
    } else {
      FlatAllConcat(a[1..], b);
      assert (a + b)[1..] == a[1..] + b;
    }
  }

  lemma BagCons(kid: Tree, rest: seq<Tree>)
    ensures BagAll([kid] + rest) == Bag(kid) + BagAll(rest)
  {
    assert ([kid] + rest)[1..] == rest;
  }

  lemma FirstAndRest(a: seq<Tree>, b: seq<Tree>)
    requires a != []
    ensures [a[0]] + (a[1..] + b) == a + b && [a[0]] + a[1..] == a
  {
  }

  lemma {:induction false} BagAllConcat(a: seq<Tree>, b: seq<Tree>)
    ensures BagAll(a + b) == BagAll(a) + BagAll(b)
    decreases |a|
  {
    if a == [] {
      assert a + b == b;
    } else {
      BagAllConcat(a[1..], b);
      BagCons(a[0], a[1..]);
      BagCons(a[0], a[1..] + b);
      hide Bag, BagAll;
      FirstAndRest(a, b);
      BagAssociates(Bag(a[0]), BagAll(a[1..]), BagAll(b));
    }
  }

  lemma BagAssociates(a: multiset<PageId>, b: multiset<PageId>, c: multiset<PageId>)
    ensures a + (b + c) == a + b + c
  {
  }

  lemma SeqAssociates(a: seq<Entry>, b: seq<Entry>, c: seq<Entry>)
    ensures a + (b + c) == a + b + c
  {
  }

  lemma FlatAllOne(t: Tree)
    ensures FlatAll([t]) == Flat(t) && BagAll([t]) == Bag(t)
  {
    assert [t][1..] == [];
  }

  /** The children with child `c` singled out. */
  lemma AroundKid(kids: seq<Tree>, c: nat)
    requires c < |kids|
    ensures FlatAll(kids) == FlatAll(kids[..c]) + Flat(kids[c]) + FlatAll(kids[c + 1..])
    ensures BagAll(kids) == BagAll(kids[..c]) + Bag(kids[c]) + BagAll(kids[c + 1..])
  {
    hide Flat, FlatAll, Bag, BagAll;
    var before, after := kids[..c], kids[c + 1..];
    SingledOut(kids, c);
    AroundParts(before, kids[c], after);
  }

  lemma SingledOut(kids: seq<Tree>, c: nat)
    requires c < |kids|
    ensures kids[..c] + ([kids[c]] + kids[c + 1..]) == kids
  {
  }

  lemma AroundParts(before: seq<Tree>, kid: Tree, after: seq<Tree>)
    ensures FlatAll(before + ([kid] + after)) == FlatAll(before) + Flat(kid) + FlatAll(after)
    ensures BagAll(before + ([kid] + after)) == BagAll(before) + Bag(kid) + BagAll(after)
  {
    hide Flat, FlatAll, Bag, BagAll;
    FlatAllOne(kid);
    FlatAround(before, kid, after);
    BagAround(before, kid, after);
  }

  lemma FlatAround(before: seq<Tree>, kid: Tree, after: seq<Tree>)
    requires FlatAll([kid]) == Flat(kid)
    ensures FlatAll(before + ([kid] + after)) == FlatAll(before) + Flat(kid) + FlatAll(after)
  {
    hide Flat, FlatAll;
    FlatAllConcat(before, [kid] + after);
    FlatAllConcat([kid], after);
    SeqAssociates(FlatAll(before), Flat(kid), FlatAll(after));
  }

  lemma BagAround(before: seq<Tree>, kid: Tree, after: seq<Tree>)
    requires BagAll([kid]) == Bag(kid)
    ensures BagAll(before + ([kid] + after)) == BagAll(before) + Bag(kid) + BagAll(after)
  {
    hide Bag, BagAll;
    BagAllConcat(before, [kid] + after);
    BagAllConcat([kid], after);
    BagAssociates(BagAll(before), Bag(kid), BagAll(after));
  }

  /** Putting `mid` where child `c` was. */
  lemma ReplaceKid(kids: seq<Tree>, c: nat, mid: seq<Tree>)
    requires c < |kids|
    ensures FlatAll(kids[..c] + mid + kids[c + 1..]) == FlatAll(kids[..c]) + FlatAll(mid) + FlatAll(kids[c + 1..])
    ensures BagAll(kids[..c] + mid + kids[c + 1..]) + Bag(kids[c]) == BagAll(kids) + BagAll(mid)
  {
    hide Flat, FlatAll, Bag, BagAll;
    FlatAllConcat(kids[..c] + mid, kids[c + 1..]);
    FlatAllConcat(kids[..c], mid);
    BagAllConcat(kids[..c] + mid, kids[c + 1..]);
    BagAllConcat(kids[..c], mid);
    AroundKid(kids, c);
  }

  // ---- Separator bounds ----

  function LoOf(seps: seq<Key>, lo: Option<Key>, i: nat): Option<Key>
    requires i <= |seps|
  {
    if i == 0 then lo else Some(seps[i - 1])
  }

  function HiOf(seps: seq<Key>, hi: Option<Key>, i: nat): Option<Key>
    requires i <= |seps|
  {
    if i == |seps| then hi else Some(seps[i])
  }

  ghost predicate SepsOk(seps: seq<Key>, lo: Option<Key>, hi: Option<Key>) {
    && (forall i, j | 0 <= i < j < |seps| :: Lt(seps[i], seps[j]))
    && (forall i | 0 <= i < |seps| :: Above(lo, seps[i]) && Below(hi, seps[i]))
  }

  /** Every key of `t` lies between `lo` and `hi`, and so on down. */
  ghost predicate Ordered(t: Tree, lo: Option<Key>, hi: Option<Key>)
    decreases t, 1
  {
    match t
    case LeafT(_, items) => Sorted(items) && InRange(items, lo, hi)
    case NodeT(_, kids, seps) => KidsOrdered(kids, seps, lo, hi)
  }

  ghost predicate KidsOrdered(kids: seq<Tree>, seps: seq<Key>, lo: Option<Key>, hi: Option<Key>)
    decreases kids, 0
  {
    && |kids| == |seps| + 1
    && SepsOk(seps, lo, hi)
    && forall i | 0 <= i < |kids| :: Ordered(kids[i], LoOf(seps, lo, i), HiOf(seps, hi, i))
  }

  /** Widening the bounds keeps a tree ordered. */
  lemma {:induction false} Widen(t: Tree, lo: Option<Key>, hi: Option<Key>, lo': Option<Key>, hi': Option<Key>)
    requires Ordered(t, lo, hi)
    requires lo' == lo || lo'.None? || (lo.Some? && Lt(lo'.value, lo.value))
    requires hi' == hi || hi'.None? || (hi.Some? && Lt(hi.value, hi'.value))
    ensures Ordered(t, lo', hi')
    decreases t
  {
    hide Lt;
    LtIsTotalOrder();
    match t
    case LeafT(_, items) =>
    case NodeT(_, kids, seps) =>
      forall i | 0 <= i < |kids|
        ensures Ordered(kids[i], LoOf(seps, lo', i), HiOf(seps, hi', i))
      {
        assert Ordered(kids[i], LoOf(seps, lo, i), HiOf(seps, hi, i));
        Widen(kids[i], LoOf(seps, lo, i), HiOf(seps, hi, i), LoOf(seps, lo', i), HiOf(seps, hi', i));
      }
  }

  /** Splitting children and separators at a separator. */
  lemma SplitOrdered(kids: seq<Tree>, seps: seq<Key>, lo: Option<Key>, hi: Option<Key>, i: nat)
    requires KidsOrdered(kids, seps, lo, hi) && i < |seps|
    ensures KidsOrdered(kids[..i + 1], seps[..i], lo, Some(seps[i]))
    ensures KidsOrdered(kids[i + 1..], seps[i + 1..], Some(seps[i]), hi)
    ensures Above(lo, seps[i]) && Below(hi, seps[i])
  {
    hide Lt;
    var lk, ls := kids[..i + 1], seps[..i];
    forall j | 0 <= j < |lk|
      ensures Ordered(lk[j], LoOf(ls, lo, j), HiOf(ls, Some(seps[i]), j))
    {
      assert Ordered(kids[j], LoOf(seps, lo, j), HiOf(seps, hi, j));
    }
    var rk, rs := kids[i + 1..], seps[i + 1..];
    forall j | 0 <= j < |rk|
      ensures Ordered(rk[j], LoOf(rs, Some(seps[i]), j), HiOf(rs, hi, j))
    {
      assert Ordered(kids[i + 1 + j], LoOf(seps, lo, i + 1 + j), HiOf(seps, hi, i + 1 + j));
    }
  }

  /** Joining them again. */
  lemma JoinOrdered(lk: seq<Tree>, ls: seq<Key>, rk: seq<Tree>, rs: seq<Key>, sep: Key,
                    lo: Option<Key>, hi: Option<Key>)
    requires KidsOrdered(lk, ls, lo, Some(sep)) && KidsOrdered(rk, rs, Some(sep), hi)
    requires Above(lo, sep) && Below(hi, sep)
    ensures KidsOrdered(lk + rk, ls + [sep] + rs, lo, hi)
  {
    hide Lt;
    LtIsTotalOrder();
    var kids, seps := lk + rk, ls + [sep] + rs;
    forall i | 0 <= i < |seps|
      ensures Above(lo, seps[i]) && Below(hi, seps[i])
    {
      if i > |ls| {
        assert seps[i] == rs[i - |ls| - 1];
      }
    }
    forall i, j | 0 <= i < j < |seps|
      ensures Lt(seps[i], seps[j])
    {
      if i < |ls| {
        assert Lt(seps[i], sep);
      }
      if j > |ls| {
        assert seps[j] == rs[j - |ls| - 1];
        assert Lt(sep, seps[j]);
      }
      if i > |ls| {
        assert seps[i] == rs[i - |ls| - 1];
      }
    }
    forall i | 0 <= i < |kids|
      ensures Ordered(kids[i], LoOf(seps, lo, i), HiOf(seps, hi, i))
    {
      if i < |lk| {
        assert Ordered(lk[i], LoOf(ls, lo, i), HiOf(ls, Some(sep), i));
      } else {
        var j := i - |lk|;
        assert Ordered(rk[j], LoOf(rs, Some(sep), j), HiOf(rs, hi, j));
        assert j > 0 ==> seps[i - 1] == rs[j - 1];
        assert j < |rs| ==> seps[i] == rs[j];
      }
    }
  }

  lemma OneOrdered(t: Tree, lo: Option<Key>, hi: Option<Key>)
    requires Ordered(t, lo, hi)
    ensures KidsOrdered([t], [], lo, hi)
  {
    var kids: seq<Tree>, seps: seq<Key> := [t], [];
    assert forall i | 0 <= i < |kids| :: Ordered(kids[i], LoOf(seps, lo, i), HiOf(seps, hi, i));
  }

  /** An ordered tree's entries are sorted and within its bounds. */
  lemma {:induction false} OrderedIsSorted(t: Tree, lo: Option<Key>, hi: Option<Key>)
    requires Ordered(t, lo, hi)
    ensures Sorted(Flat(t)) && InRange(Flat(t), lo, hi)
    decreases t, 1
  {
    if t.NodeT? {
      KidsOrderedIsSorted(t.kids, t.seps, lo, hi);
    }
  }

  lemma {:induction false} KidsOrderedIsSorted(kids: seq<Tree>, seps: seq<Key>, lo: Option<Key>, hi: Option<Key>)
    requires KidsOrdered(kids, seps, lo, hi)
    ensures Sorted(FlatAll(kids)) && InRange(FlatAll(kids), lo, hi)
    decreases kids, 0
  {
    assert Ordered(kids[0], LoOf(seps, lo, 0), HiOf(seps, hi, 0));
    OrderedIsSorted(kids[0], LoOf(seps, lo, 0), HiOf(seps, hi, 0));
    if |kids| == 1 {
      assert kids[1..] == [] && FlatAll(kids) == Flat(kids[0]) + [];
      assert Flat(kids[0]) + [] == Flat(kids[0]);
    } else {
      SplitOrdered(kids, seps, lo, hi, 0);
      assert kids[0 + 1..] == kids[1..];
      KidsOrderedIsSorted(kids[1..], seps[1..], Some(seps[0]), hi);
      JoinSorted(Flat(kids[0]), FlatAll(kids[1..]), seps[0], lo, hi);
    }
  }

  lemma JoinSorted(a: seq<Entry>, b: seq<Entry>, sep: Key, lo: Option<Key>, hi: Option<Key>)
    requires Sorted(a) && InRange(a, lo, Some(sep))
    requires Sorted(b) && InRange(b, Some(sep), hi)
    requires Above(lo, sep) && Below(hi, sep)
    ensures Sorted(a + b) && InRange(a + b, lo, hi)
  {
    hide Lt;
    LtIsTotalOrder();
    SortedConcat(a, b);
  }

  /** Around the child that covers `key`, everything is before or after it. */
  lemma KidContext(kids: seq<Tree>, seps: seq<Key>, lo: Option<Key>, hi: Option<Key>, c: nat, key: Key)
    requires KidsOrdered(kids, seps, lo, hi) && c < |kids|
    requires AtOrAbove(LoOf(seps, lo, c), key) && Below(HiOf(seps, hi, c), key)
    ensures Before(FlatAll(kids[..c]), key) && After(FlatAll(kids[c + 1..]), key)
  {
    hide Lt;
    LtIsTotalOrder();
    if c > 0 {
      SplitOrdered(kids, seps, lo, hi, c - 1);
      assert kids[..c - 1 + 1] == kids[..c];
      KidsOrderedIsSorted(kids[..c], seps[..c - 1], lo, Some(seps[c - 1]));
    } else {
      assert kids[..c] == [];
    }
    if c < |seps| {
      SplitOrdered(kids, seps, lo, hi, c);
      KidsOrderedIsSorted(kids[c + 1..], seps[c + 1..], Some(seps[c]), hi);
    } else {
      assert kids[c + 1..] == [];
    }
  }

  // ---- Pages that represent a tree ----

  ghost predicate Matches(n: Node, t: Tree) {
    match t
    case LeafT(_, items) => n == Leaf(items)
    case NodeT(_, kids, seps) =>
      && n.Internal? && |kids| == |seps| + 1 && |n.entries| == |seps|
      && n.first == kids[0].id
      && forall i | 0 <= i < |seps| :: n.entries[i] == ChildEntry(seps[i], kids[i + 1].id)
  }

  ghost predicate Rep(pages: map<PageId, Node>, t: Tree)
    decreases t
  {
    && t.id != 0 && t.id in pages && Matches(pages[t.id], t)
    && (t.NodeT? ==> forall i | 0 <= i < |t.kids| :: Rep(pages, t.kids[i]))
  }

  ghost predicate RepAll(pages: map<PageId, Node>, kids: seq<Tree>) {
    forall i | 0 <= i < |kids| :: Rep(pages, kids[i])
  }

  lemma {:induction false} KidBag(kids: seq<Tree>, i: nat)
    requires i < |kids|
    ensures Bag(kids[i]) <= BagAll(kids)
  {
    AroundKid(kids, i);
  }

  /** A tree depends on its own pages only. */
  lemma {:induction false} RepFrame(pages: map<PageId, Node>, pages': map<PageId, Node>, t: Tree)
    requires Rep(pages, t)
    requires forall p | p in Bag(t) && p in pages :: p in pages' && pages'[p] == pages[p]
    ensures Rep(pages', t)
    decreases t
  {
    assert t.id in Bag(t);
    if t.NodeT? {
      forall i | 0 <= i < |t.kids|
        ensures Rep(pages', t.kids[i])
      {
        KidBag(t.kids, i);
        RepFrame(pages, pages', t.kids[i]);
      }
    }
  }
}
