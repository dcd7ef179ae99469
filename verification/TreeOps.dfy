/** What rebuilding one page of the tree keeps: order, contents and ownership,
    when a child is replaced, split or dropped. */
module TreeOps {
  import opened Wrappers
  import opened Keys
  import opened TreeModel

  lemma WidenKids(kids: seq<Tree>, seps: seq<Key>, lo: Option<Key>, hi: Option<Key>, lo': Option<Key>, hi': Option<Key>)
    requires KidsOrdered(kids, seps, lo, hi)
    requires lo' == lo || lo'.None? || (lo.Some? && Lt(lo'.value, lo.value))
    requires hi' == hi || hi'.None? || (hi.Some? && Lt(hi.value, hi'.value))
    ensures KidsOrdered(kids, seps, lo', hi')
  {
    Widen(NodeT(0, kids, seps), lo, hi, lo', hi');
  }

  /** The children that replace child `c`, and the separators between them. */
  ghost function Spliced(kids: seq<Tree>, c: nat, mid: seq<Tree>): seq<Tree>
    requires c < |kids|
  {
    kids[..c] + mid + kids[c + 1..]
  }

  ghost function SplicedSeps(seps: seq<Key>, c: nat, mid: seq<Key>): seq<Key>
    requires c <= |seps|
  {
    seps[..c] + mid + seps[c..]
  }

  lemma SpliceOrdered(kids: seq<Tree>, seps: seq<Key>, lo: Option<Key>, hi: Option<Key>, c: nat,
                      mid: seq<Tree>, midSeps: seq<Key>)
    requires KidsOrdered(kids, seps, lo, hi) && c < |kids|
    requires KidsOrdered(mid, midSeps, LoOf(seps, lo, c), HiOf(seps, hi, c))
    ensures KidsOrdered(Spliced(kids, c, mid), SplicedSeps(seps, c, midSeps), lo, hi)
  {
    hide Lt, KidsOrdered;
    assert |kids| == |seps| + 1 by { KidsShape(kids, seps, lo, hi); }
    // Put the right-hand neighbours back.
    var rightKids, rightSeps := mid, midSeps;
    if c < |seps| {
      SplitOrdered(kids, seps, lo, hi, c);
      if c > 0 {
        assert Above(Some(seps[c - 1]), seps[c]) by { SepsAscend(kids, seps, lo, hi, c - 1, c); }
      }
      JoinOrdered(mid, midSeps, kids[c + 1..], seps[c + 1..], seps[c], LoOf(seps, lo, c), hi);
      rightKids, rightSeps := mid + kids[c + 1..], midSeps + [seps[c]] + seps[c + 1..];
    }
    assert rightKids == mid + kids[c + 1..];
    assert rightSeps == midSeps + seps[c..];
    assert KidsOrdered(rightKids, rightSeps, LoOf(seps, lo, c), hi);
    // And the left-hand ones.
    if c == 0 {
      assert Spliced(kids, c, mid) == rightKids && SplicedSeps(seps, c, midSeps) == rightSeps;
    } else {
      SplitOrdered(kids, seps, lo, hi, c - 1);
      assert kids[..c - 1 + 1] == kids[..c];
      JoinOrdered(kids[..c], seps[..c - 1], rightKids, rightSeps, seps[c - 1], lo, hi);
      assert Spliced(kids, c, mid) == kids[..c] + rightKids;
      assert SplicedSeps(seps, c, midSeps) == seps[..c - 1] + [seps[c - 1]] + rightSeps;
    }
  }

  lemma KidsShape(kids: seq<Tree>, seps: seq<Key>, lo: Option<Key>, hi: Option<Key>)
    requires KidsOrdered(kids, seps, lo, hi)
    ensures |kids| == |seps| + 1
  {
  }

  lemma SepsAscend(kids: seq<Tree>, seps: seq<Key>, lo: Option<Key>, hi: Option<Key>, i: nat, j: nat)
    requires KidsOrdered(kids, seps, lo, hi) && i < j < |seps|
    ensures Lt(seps[i], seps[j])
  {
  }

  // ---- Put ----

  /** What a put did to a subtree: one tree, or two with a separator. */
  datatype Grown = One(t: Tree) | Two(left: Tree, sep: Key, right: Tree)
  {
    ghost function Trees(): seq<Tree> {
      if One? then [t] else [left, right]
    }

    ghost function Seps(): seq<Key> {
      if One? then [] else [sep]
    }
  }

  ghost predicate GrownOrdered(g: Grown, lo: Option<Key>, hi: Option<Key>) {
    KidsOrdered(g.Trees(), g.Seps(), lo, hi)
  }

  lemma TwoOrdered(left: Tree, sep: Key, right: Tree, lo: Option<Key>, hi: Option<Key>)
    requires Ordered(left, lo, Some(sep)) && Ordered(right, Some(sep), hi)
    requires Above(lo, sep) && Below(hi, sep)
    ensures GrownOrdered(Two(left, sep, right), lo, hi)
  {
    OneOrdered(left, lo, Some(sep));
    OneOrdered(right, Some(sep), hi);
    JoinOrdered([left], [], [right], [], sep, lo, hi);
    assert [left] + [right] == [left, right];
    assert [] + [sep] + [] == [sep];
  }

  /** Rebuilding an internal page around a child that took `key` performs the
      put on the whole page. */
  lemma PutThroughNode(kids: seq<Tree>, seps: seq<Key>, lo: Option<Key>, hi: Option<Key>, c: nat,
                       key: Key, value: Value, g: Grown)
    requires KidsOrdered(kids, seps, lo, hi) && c < |kids|
    requires AtOrAbove(LoOf(seps, lo, c), key) && Below(HiOf(seps, hi, c), key)
    requires GrownOrdered(g, LoOf(seps, lo, c), HiOf(seps, hi, c))
    requires FlatAll(g.Trees()) == Upsert(Flat(kids[c]), key, value)
    ensures KidsOrdered(Spliced(kids, c, g.Trees()), SplicedSeps(seps, c, g.Seps()), lo, hi)
    ensures FlatAll(Spliced(kids, c, g.Trees())) == Upsert(FlatAll(kids), key, value)
    ensures Find(FlatAll(kids), key) == Find(Flat(kids[c]), key)
    ensures BagAll(Spliced(kids, c, g.Trees())) + Bag(kids[c]) == BagAll(kids) + BagAll(g.Trees())
  {
    hide Lt, KidsOrdered, Upsert, Find;
    SpliceOrdered(kids, seps, lo, hi, c, g.Trees(), g.Seps());
    KidContext(kids, seps, lo, hi, c, key);
    AroundKid(kids, c);
    ReplaceKid(kids, c, g.Trees());
    UpsertInContext(FlatAll(kids[..c]), Flat(kids[c]), FlatAll(kids[c + 1..]), key, value);
    FindInContext(FlatAll(kids[..c]), Flat(kids[c]), FlatAll(kids[c + 1..]), key);
  }

  // ---- Erase ----

  /** The separators left when child `c` goes. */
  ghost function DroppedSeps(seps: seq<Key>, c: nat): seq<Key>
    requires c <= |seps| && |seps| > 0
  {
    if c == 0 then seps[1..] else seps[..c - 1] + seps[c..]
  }

  lemma DropOrdered(kids: seq<Tree>, seps: seq<Key>, lo: Option<Key>, hi: Option<Key>, c: nat)
    requires KidsOrdered(kids, seps, lo, hi) && c < |kids| && |seps| > 0
    ensures KidsOrdered(Spliced(kids, c, []), DroppedSeps(seps, c), lo, hi)
  {
    hide Lt, KidsOrdered;
    KidsShape(kids, seps, lo, hi);
    if c == 0 {
      SplitOrdered(kids, seps, lo, hi, 0);
      assert Spliced(kids, c, []) == kids[0 + 1..];
      WidenKids(kids[0 + 1..], seps[0 + 1..], Some(seps[0]), hi, lo, hi);
    } else {
      SplitOrdered(kids, seps, lo, hi, c - 1);
      assert kids[..c - 1 + 1] == kids[..c];
      if c == |seps| {
        WidenKids(kids[..c], seps[..c - 1], lo, Some(seps[c - 1]), lo, hi);
        assert Spliced(kids, c, []) == kids[..c] && DroppedSeps(seps, c) == seps[..c - 1];
      } else {
        SepsAscend(kids, seps, lo, hi, c - 1, c);
        WidenKids(kids[..c], seps[..c - 1], lo, Some(seps[c - 1]), lo, Some(seps[c]));
        SplitOrdered(kids, seps, lo, hi, c);
        JoinOrdered(kids[..c], seps[..c - 1], kids[c + 1..], seps[c + 1..], seps[c], lo, hi);
        assert Spliced(kids, c, []) == kids[..c] + kids[c + 1..];
        assert DroppedSeps(seps, c) == seps[..c - 1] + [seps[c]] + seps[c + 1..];
      }
    }
  }

  /** Contents and pages of an internal page whose child `c` lost `key`, and
      became `left` (nothing, when the child became empty). */
  lemma EraseThroughNode(kids: seq<Tree>, seps: seq<Key>, lo: Option<Key>, hi: Option<Key>, c: nat,
                         key: Key, left: seq<Tree>)
    requires KidsOrdered(kids, seps, lo, hi) && c < |kids|
    requires AtOrAbove(LoOf(seps, lo, c), key) && Below(HiOf(seps, hi, c), key)
    requires FlatAll(left) == Remove(Flat(kids[c]), key)
    ensures FlatAll(Spliced(kids, c, left)) == Remove(FlatAll(kids), key)
    ensures Find(FlatAll(kids), key) == Find(Flat(kids[c]), key)
    ensures BagAll(Spliced(kids, c, left)) + Bag(kids[c]) == BagAll(kids) + BagAll(left)
  {
    hide Lt, KidsOrdered, Remove, Find;
    KidContext(kids, seps, lo, hi, c, key);
    AroundKid(kids, c);
    ReplaceKid(kids, c, left);
    RemoveInContext(FlatAll(kids[..c]), Flat(kids[c]), FlatAll(kids[c + 1..]), key);
    FindInContext(FlatAll(kids[..c]), Flat(kids[c]), FlatAll(kids[c + 1..]), key);
  }

  // ---- Splitting ----

  /** An overfull leaf cut in two. */
  lemma LeafSplit(items: seq<Entry>, i: nat, a: PageId, b: PageId, lo: Option<Key>, hi: Option<Key>)
    requires Sorted(items) && InRange(items, lo, hi) && 1 <= i < |items|
    ensures var g := Two(LeafT(a, items[..i]), items[i].key, LeafT(b, items[i..]));
            && GrownOrdered(g, lo, hi)
            && FlatAll(g.Trees()) == items && BagAll(g.Trees()) == multiset{a, b}
  {
    hide Lt;
    LtIsTotalOrder();
    var l, r, sep := LeafT(a, items[..i]), LeafT(b, items[i..]), items[i].key;
    assert items[0] in items && items[i] in items;
    assert Lt(items[0].key, sep);
    forall e | e in items[..i] ensures Lt(e.key, sep) {
    }
    forall e | e in items[i..] ensures e.key == sep || Lt(sep, e.key) {
    }
    TwoOrdered(l, sep, r, lo, hi);
    assert items == items[..i] + items[i..];
    TwoTrees(l, r);
  }

  lemma TwoTrees(l: Tree, r: Tree)
    ensures FlatAll([l, r]) == Flat(l) + Flat(r) && BagAll([l, r]) == Bag(l) + Bag(r)
  {
    assert [l, r] == [l] + [r];
    FlatAllConcat([l], [r]);
    BagAllConcat([l], [r]);
    FlatAllOne(l);
    FlatAllOne(r);
  }

  /** An overfull internal page cut in two; separator `i` moves up. */
  lemma InternalSplit(kids: seq<Tree>, seps: seq<Key>, i: nat, a: PageId, b: PageId, lo: Option<Key>, hi: Option<Key>)
    requires KidsOrdered(kids, seps, lo, hi) && i < |seps|
    ensures var g := Two(NodeT(a, kids[..i + 1], seps[..i]), seps[i], NodeT(b, kids[i + 1..], seps[i + 1..]));
            && GrownOrdered(g, lo, hi)
            && FlatAll(g.Trees()) == FlatAll(kids)
            && BagAll(g.Trees()) == multiset{a, b} + BagAll(kids)
  {
    hide Lt, KidsOrdered;
    KidsShape(kids, seps, lo, hi);
    var l, r := NodeT(a, kids[..i + 1], seps[..i]), NodeT(b, kids[i + 1..], seps[i + 1..]);
    SplitOrdered(kids, seps, lo, hi, i);
    TwoOrdered(l, seps[i], r, lo, hi);
    assert kids == kids[..i + 1] + kids[i + 1..];
    FlatAllConcat(kids[..i + 1], kids[i + 1..]);
    BagAllConcat(kids[..i + 1], kids[i + 1..]);
    TwoTrees(l, r);
    var ka, kb := BagAll(kids[..i + 1]), BagAll(kids[i + 1..]);
    assert (multiset{a} + ka) + (multiset{b} + kb) == multiset{a, b} + (ka + kb);
  }
}
