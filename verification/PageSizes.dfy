/** On-page byte costs, what a page can encode, and where an overfull page is
    split. */
module PageSizes {
  import opened Keys
  import opened TreeModel

  const PAGE_HEADER_SIZE := 16
  const MAX_KEY_LENGTH := 0xFFFF
  const MAX_VALUE_LENGTH := 64 * 1024 * 1024
  const MAX_ENTRIES_PER_PAGE := 0xFFFF

  function LeafEntryBytes(keyLen: nat, valueLen: nat): nat {
    2 + 4 + keyLen + valueLen
  }

  function InternalEntryBytes(keyLen: nat): nat {
    8 + 2 + keyLen
  }

  function PagePayloadCapacity(pageSize: nat): nat
    requires pageSize >= PAGE_HEADER_SIZE
  {
    pageSize - PAGE_HEADER_SIZE
  }

  function ItemBytes(e: Entry): nat {
    LeafEntryBytes(|e.key|, |e.value|)
  }

  function ItemSizes(items: seq<Entry>): (s: seq<nat>)
    ensures |s| == |items|
  {
    seq(|items|, i requires 0 <= i < |items| => ItemBytes(items[i]))
  }

  function SepSizes(seps: seq<Key>): (s: seq<nat>)
    ensures |s| == |seps|
  {
    seq(|seps|, i requires 0 <= i < |seps| => InternalEntryBytes(|seps[i]|))
  }

  function Sum(s: seq<nat>): nat {
    if s == [] then 0 else s[0] + Sum(s[1..])
  }

  lemma {:induction false} SumConcat(a: seq<nat>, b: seq<nat>)
    ensures Sum(a + b) == Sum(a) + Sum(b)
  {
    if a == [] {
      assert a + b == b;
    } else {
      SumConcat(a[1..], b);
      assert (a + b)[1..] == a[1..] + b;
    }
  }

  lemma SumSplit(s: seq<nat>, i: nat)
    requires i <= |s|
    ensures Sum(s) == Sum(s[..i]) + Sum(s[i..])
  {
    assert s == s[..i] + s[i..];
    SumConcat(s[..i], s[i..]);
  }

  lemma SumNext(s: seq<nat>, i: nat)
    requires i < |s|
    ensures Sum(s[..i + 1]) == Sum(s[..i]) + s[i]
  {
    assert s[..i + 1] == s[..i] + [s[i]];
    SumConcat(s[..i], [s[i]]);
    assert Sum([s[i]]) == s[i];
  }

  /** Removing one size. */
  lemma SumWithout(s: seq<nat>, i: nat)
    requires i < |s|
    ensures Sum(s) == Sum(s[..i] + s[i + 1..]) + s[i]
  {
    SumSplit(s, i);
    SumConcat(s[..i], s[i + 1..]);
    assert s[i..] == [s[i]] + s[i + 1..];
  }

  lemma {:induction false} SumAtLeast(s: seq<nat>, each: nat)
    requires forall i | 0 <= i < |s| :: s[i] >= each
    ensures Sum(s) >= each * |s|
  {
    if s != [] {
      SumAtLeast(s[1..], each);
      assert each * |s| == each * |s[1..]| + each;
    }
  }

  // ---- What a page encodes ----

  predicate LeafEncodes(items: seq<Entry>, cap: nat) {
    && |items| <= MAX_ENTRIES_PER_PAGE
    && (forall e | e in items :: |e.key| <= MAX_KEY_LENGTH && |e.value| <= MAX_VALUE_LENGTH)
    && Sum(ItemSizes(items)) <= cap
  }

  predicate InternalEncodes(seps: seq<Key>, cap: nat) {
    && |seps| <= MAX_ENTRIES_PER_PAGE
    && (forall k | k in seps :: |k| <= MAX_KEY_LENGTH)
    && Sum(SepSizes(seps)) <= cap
  }

  /** Every page of the tree is one that was encoded. */
  ghost predicate Fits(t: Tree, cap: nat)
    decreases t
  {
    match t
    case LeafT(_, items) => LeafEncodes(items, cap)
    case NodeT(_, kids, seps) => InternalEncodes(seps, cap) && forall i | 0 <= i < |kids| :: Fits(kids[i], cap)
  }

  ghost predicate FitsAll(kids: seq<Tree>, cap: nat) {
    forall i | 0 <= i < |kids| :: Fits(kids[i], cap)
  }

  /** An entry that takes at most half the payload. */
  ghost predicate SmallItem(e: Entry, cap: nat) {
    2 * ItemBytes(e) <= cap && SmallKey(e.key, cap) && |e.value| <= MAX_VALUE_LENGTH
  }

  /** A key that can be a separator. */
  ghost predicate SmallKey(k: Key, cap: nat) {
    InternalEntryBytes(|k|) <= cap && |k| <= MAX_KEY_LENGTH
  }

  /** Every key of the tree can be a separator. */
  ghost predicate Small(t: Tree, cap: nat)
    decreases t
  {
    match t
    case LeafT(_, items) => forall e | e in items :: SmallKey(e.key, cap)
    case NodeT(_, kids, seps) =>
      (forall k | k in seps :: SmallKey(k, cap)) && forall i | 0 <= i < |kids| :: Small(kids[i], cap)
  }

  ghost predicate SmallAll(kids: seq<Tree>, cap: nat) {
    forall i | 0 <= i < |kids| :: Small(kids[i], cap)
  }

  /** A page cannot hold more entries than its 16-bit count can say. */
  ghost predicate CountsFit(cap: nat) {
    cap <= LeafEntryBytes(0, 0) * MAX_ENTRIES_PER_PAGE
  }

  // ---- The split point ----

  /** Where the forward walk stops: the first index, not 0, whose entry no longer
      fits behind the ones before it. */
  ghost predicate IsSplitIndex(sizes: seq<nat>, cap: nat, i: nat) {
    && 1 <= i < |sizes|
    && Sum(sizes[..i]) + sizes[i] > cap
    && forall j | 1 <= j < i :: Sum(sizes[..j]) + sizes[j] <= cap
  }

  lemma LeftFits(sizes: seq<nat>, cap: nat, i: nat)
    requires IsSplitIndex(sizes, cap, i) && sizes[0] <= cap
    ensures Sum(sizes[..i]) <= cap
  {
    SumNext(sizes, i - 1);
    if i == 1 {
      assert sizes[..0] == [];
    }
  }

  /** With every entry at most half a page, an overfull leaf splits into two
      leaves that fit. */
  lemma LeafHalvesFit(sizes: seq<nat>, cap: nat, i: nat)
    requires IsSplitIndex(sizes, cap, i)
    requires forall j | 0 <= j < |sizes| :: 2 * sizes[j] <= cap
    requires 2 * Sum(sizes) <= 3 * cap
    ensures Sum(sizes[..i]) <= cap && Sum(sizes[i..]) <= cap
  {
    LeftFits(sizes, cap, i);
    SumSplit(sizes, i);
  }

  /** With every entry at most one page, so does an overfull internal page: the
      entry at the split moves up. */
  lemma InternalHalvesFit(sizes: seq<nat>, cap: nat, i: nat)
    requires IsSplitIndex(sizes, cap, i)
    requires forall j | 0 <= j < |sizes| :: sizes[j] <= cap
    requires Sum(sizes) <= 2 * cap
    ensures Sum(sizes[..i]) <= cap && Sum(sizes[i + 1..]) <= cap
  {
    LeftFits(sizes, cap, i);
    SumSplit(sizes, i + 1);
    SumNext(sizes, i);
  }

  /** A walk that finds no split point has everything in one page. */
  lemma NoSplitMeansOnePage(sizes: seq<nat>, cap: nat)
    requires |sizes| > 0 && sizes[0] <= cap
    requires forall j | 1 <= j < |sizes| :: Sum(sizes[..j]) + sizes[j] <= cap
    ensures Sum(sizes) <= cap
  {
    var n := |sizes|;
    SumNext(sizes, n - 1);
    assert sizes[..n] == sizes;
    if n == 1 {
      assert sizes[..0] == [];
    }
  }

  lemma ItemSizesSlice(items: seq<Entry>, i: nat)
    requires i <= |items|
    ensures ItemSizes(items)[..i] == ItemSizes(items[..i])
    ensures ItemSizes(items)[i..] == ItemSizes(items[i..])
  {
  }

  lemma SepSizesSlice(seps: seq<Key>, i: nat)
    requires i <= |seps|
    ensures SepSizes(seps)[..i] == SepSizes(seps[..i])
    ensures SepSizes(seps)[i..] == SepSizes(seps[i..])
  {
  }

  lemma LeafCount(items: seq<Entry>, cap: nat)
    requires Sum(ItemSizes(items)) <= cap && CountsFit(cap)
    ensures |items| <= MAX_ENTRIES_PER_PAGE
  {
    SumAtLeast(ItemSizes(items), LeafEntryBytes(0, 0));
  }

  lemma InternalCount(seps: seq<Key>, cap: nat)
    requires Sum(SepSizes(seps)) <= cap && CountsFit(cap)
    ensures |seps| <= MAX_ENTRIES_PER_PAGE
  {
    SumAtLeast(SepSizes(seps), InternalEntryBytes(0));
  }

  // ---- How the operations change a page's size ----

  lemma {:induction false} UpsertSize(items: seq<Entry>, k: Key, v: Value)
    ensures Sum(ItemSizes(Upsert(items, k, v))) <= Sum(ItemSizes(items)) + ItemBytes(Entry(k, v))
  {
    var e := Entry(k, v);
    if items == [] {
      assert ItemSizes([e]) == [ItemBytes(e)] && ItemSizes([e])[1..] == [];
    } else {
      SizesCons(items[0], items[1..]);
      assert items == [items[0]] + items[1..];
      if items[0].key == k {
        SizesCons(e, items[1..]);
      } else if Lt(k, items[0].key) {
        SizesCons(e, items);
      } else {
        UpsertSize(items[1..], k, v);
        SizesCons(items[0], Upsert(items[1..], k, v));
      }
    }
  }

  lemma SizesCons(e: Entry, rest: seq<Entry>)
    ensures Sum(ItemSizes([e] + rest)) == ItemBytes(e) + Sum(ItemSizes(rest))
  {
    assert ItemSizes([e] + rest)[1..] == ItemSizes(rest);
  }

  lemma {:induction false} RemoveSize(items: seq<Entry>, k: Key)
    ensures Sum(ItemSizes(Remove(items, k))) <= Sum(ItemSizes(items))
    ensures |Remove(items, k)| <= |items|
    ensures forall e | e in Remove(items, k) :: e in items
  {
    if items != [] {
      SizesCons(items[0], items[1..]);
      assert items == [items[0]] + items[1..];
      if items[0].key != k {
        RemoveSize(items[1..], k);
        SizesCons(items[0], Remove(items[1..], k));
      }
    }
  }

  lemma SepInsertSize(seps: seq<Key>, c: nat, sep: Key)
    requires c <= |seps|
    ensures Sum(SepSizes(seps[..c] + [sep] + seps[c..])) == Sum(SepSizes(seps)) + InternalEntryBytes(|sep|)
  {
    var s := seps[..c] + [sep] + seps[c..];
    SumWithout(SepSizes(s), c);
    assert SepSizes(s)[..c] + SepSizes(s)[c + 1..] == SepSizes(seps);
  }

  lemma SepDropSize(seps: seq<Key>, c: nat)
    requires c < |seps|
    ensures Sum(SepSizes(seps[..c] + seps[c + 1..])) <= Sum(SepSizes(seps))
  {
    SumWithout(SepSizes(seps), c);
    assert SepSizes(seps)[..c] + SepSizes(seps)[c + 1..] == SepSizes(seps[..c] + seps[c + 1..]);
  }
}
