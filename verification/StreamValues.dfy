/** A stream as it is decoded: entries in ID order, and consumer groups with
    their pending lists. */
module StreamValues {
  import opened Wrappers

  const U64_LIMIT := 0x1_0000_0000_0000_0000

  newtype U64 = x: int | 0 <= x < 0x1_0000_0000_0000_0000

  const U64_MAX: U64 := 0xFFFF_FFFF_FFFF_FFFF

  datatype StreamId = StreamId(ms: U64, seqNo: U64)

  const MIN_ID := StreamId(0, 0)
  const MAX_ID := StreamId(U64_MAX, U64_MAX)

  predicate Less(a: StreamId, b: StreamId) {
    a.ms < b.ms || (a.ms == b.ms && a.seqNo < b.seqNo)
  }

  predicate AtMost(a: StreamId, b: StreamId) {
    a == b || Less(a, b)
  }

  /** The least ID above `a`; the largest ID is its own. */
  function Next(a: StreamId): (b: StreamId)
    ensures a != MAX_ID ==> Less(a, b) && forall x :: Less(a, x) ==> AtMost(b, x)
    ensures a == MAX_ID ==> b == MAX_ID
  {
    if a.seqNo != U64_MAX then StreamId(a.ms, a.seqNo + 1)
    else if a.ms != U64_MAX then StreamId(a.ms + 1, 0)
    else MAX_ID
  }

  datatype StreamEntry = StreamEntry(id: StreamId, fields: seq<(string, string)>)

  datatype Pending = Pending(id: StreamId, consumer: string, deliveryTimeMs: U64, deliveryCount: nat)

  /** `consumers` is kept sorted and unique by the source: a set. */
  datatype Group = Group(name: string, lastDelivered: StreamId, entriesRead: nat, consumers: set<string>,
                         pel: seq<Pending>)

  datatype Stream = Stream(entries: seq<StreamEntry>, lastId: StreamId, maxDeletedId: StreamId, entriesAdded: nat,
                           groups: seq<Group>)

  const EMPTY_STREAM := Stream([], MIN_ID, MIN_ID, 0, [])

  // ---- Order ----

  ghost predicate Ascending(entries: seq<StreamEntry>) {
    forall i, j | 0 <= i < j < |entries| :: Less(entries[i].id, entries[j].id)
  }

  ghost predicate SortedPel(pel: seq<Pending>) {
    forall i, j | 0 <= i < j < |pel| :: AtMost(pel[i].id, pel[j].id)
  }

  /** ... and no ID twice. */
  ghost predicate StrictPel(pel: seq<Pending>) {
    forall i, j | 0 <= i < j < |pel| :: Less(pel[i].id, pel[j].id)
  }

  // ---- Filters ----

  function Keep<T>(s: seq<T>, f: T -> bool): seq<T> {
    if s == [] then [] else (if f(s[0]) then [s[0]] else []) + Keep(s[1..], f)
  }

  lemma {:induction false} KeepConcat<T>(a: seq<T>, b: seq<T>, f: T -> bool)
    ensures Keep(a + b, f) == Keep(a, f) + Keep(b, f)
  {
    if a == [] {
      assert a + b == b;
    } else {
      KeepConcat(a[1..], b, f);
      assert (a + b)[1..] == a[1..] + b && (a + b)[0] == a[0];
      var head := if f(a[0]) then [a[0]] else [];
      assert head + (Keep(a[1..], f) + Keep(b, f)) == head + Keep(a[1..], f) + Keep(b, f);
    }
  }

  lemma {:induction false} KeepAll<T>(s: seq<T>, f: T -> bool)
    requires forall x | x in s :: f(x)
    ensures Keep(s, f) == s
  {
    if s != [] {
      KeepAll(s[1..], f);
    }
  }

  lemma {:induction false} KeepNone<T>(s: seq<T>, f: T -> bool)
    requires forall x | x in s :: !f(x)
    ensures Keep(s, f) == []
  {
    if s != [] {
      KeepNone(s[1..], f);
    }
  }

  lemma SliceMember<T>(s: seq<T>, lo: nat, hi: nat, x: T) returns (i: nat)
    requires lo <= hi <= |s| && x in s[lo..hi]
    ensures lo <= i < hi && s[i] == x
  {
    var j :| 0 <= j < hi - lo && s[lo..hi][j] == x;
    i := lo + j;
  }

  /** A filter that holds of one run of the sequence and of nothing else. */
  lemma KeepRun<T>(s: seq<T>, lo: nat, hi: nat, f: T -> bool)
    requires lo <= hi <= |s|
    requires forall i | 0 <= i < |s| :: f(s[i]) <==> lo <= i < hi
    ensures Keep(s, f) == s[lo..hi]
  {
    hide Keep;
    var n := |s|;
    KeepOutside(s, 0, lo, lo, hi, f);
    KeepOutside(s, hi, n, lo, hi, f);
    forall x | x in s[lo..hi] ensures f(x) {
      var i := SliceMember(s, lo, hi, x);
    }
    KeepAll(s[lo..hi], f);
    ThreeParts(s, lo, hi);
    KeepConcat(s[0..lo], s[lo..hi] + s[hi..n], f);
    KeepConcat(s[lo..hi], s[hi..n], f);
  }

  lemma ThreeParts<T>(s: seq<T>, lo: nat, hi: nat)
    requires lo <= hi <= |s|
    ensures s == s[0..lo] + (s[lo..hi] + s[hi..|s|])
  {
  }

  lemma KeepOutside<T>(s: seq<T>, a: nat, b: nat, lo: nat, hi: nat, f: T -> bool)
    requires a <= b <= |s| && (b <= lo || hi <= a)
    requires forall i | 0 <= i < |s| :: f(s[i]) <==> lo <= i < hi
    ensures Keep(s[a..b], f) == []
  {
    hide Keep;
    forall x | x in s[a..b] ensures !f(x) {
      var i := SliceMember(s, a, b, x);
    }
    KeepNone(s[a..b], f);
  }

  lemma {:induction false} KeepMembers<T>(s: seq<T>, f: T -> bool)
    ensures forall x :: x in Keep(s, f) <==> x in s && f(x)
    ensures |Keep(s, f)| <= |s|
  {
    if s != [] {
      KeepMembers(s[1..], f);
      assert s == [s[0]] + s[1..];
    }
  }

  /** Filtering keeps a pending list in order. */
  lemma {:induction false} KeepSorted(pel: seq<Pending>, f: Pending -> bool)
    ensures SortedPel(pel) ==> SortedPel(Keep(pel, f))
    ensures StrictPel(pel) ==> StrictPel(Keep(pel, f))
  {
    if pel != [] {
      KeepSorted(pel[1..], f);
      KeepMembers(pel[1..], f);
      var rest := Keep(pel[1..], f);
      assert forall p | p in pel[1..] :: exists i :: 1 <= i < |pel| && pel[i] == p;
      forall i | 0 <= i < |rest|
        ensures SortedPel(pel) ==> AtMost(pel[0].id, rest[i].id)
        ensures StrictPel(pel) ==> Less(pel[0].id, rest[i].id)
      {
        assert rest[i] in rest;
      }
    }
  }

  /** The first `count`, or all of them when `count` is zero. */
  function FirstCount<T>(s: seq<T>, count: nat): (r: seq<T>)
    ensures r <= s && (count == 0 ==> r == s) && (count > 0 ==> |r| <= count && (|r| < count ==> r == s))
  {
    if count == 0 || count >= |s| then s else s[..count]
  }

  function Reversed<T>(s: seq<T>): seq<T> {
    seq(|s|, i requires 0 <= i < |s| => s[|s| - 1 - i])
  }

  // ---- Binary search ----

  /** The first entry at or above `x`. */
  method LowerBound(entries: seq<StreamEntry>, x: StreamId) returns (i: nat)
    requires Ascending(entries)
    ensures i <= |entries|
    ensures forall j | 0 <= j < |entries| :: Less(entries[j].id, x) <==> j < i
  {
    i := 0;
    var len := |entries|;
    while len > 0
      invariant 0 <= len && i + len <= |entries|
      invariant forall j | 0 <= j < i :: Less(entries[j].id, x)
      invariant forall j | i + len <= j < |entries| :: !Less(entries[j].id, x)
    {
      var half := len / 2;
      if Less(entries[i + half].id, x) {
        i, len := i + half + 1, len - half - 1;
      } else {
        len := half;
      }
    }
  }

  /** The first entry above `x`. */
  method UpperBound(entries: seq<StreamEntry>, x: StreamId) returns (i: nat)
    requires Ascending(entries)
    ensures i <= |entries|
    ensures forall j | 0 <= j < |entries| :: AtMost(entries[j].id, x) <==> j < i
  {
    i := 0;
    var len := |entries|;
    while len > 0
      invariant 0 <= len && i + len <= |entries|
      invariant forall j | 0 <= j < i :: AtMost(entries[j].id, x)
      invariant forall j | i + len <= j < |entries| :: !AtMost(entries[j].id, x)
    {
      var half := len / 2;
      if AtMost(entries[i + half].id, x) {
        i, len := i + half + 1, len - half - 1;
      } else {
        len := half;
      }
    }
  }

  ghost predicate Present(entries: seq<StreamEntry>, id: StreamId) {
    exists e | e in entries :: e.id == id
  }

  /** The entry with this ID, found by binary search. */
  method FindEntry(entries: seq<StreamEntry>, id: StreamId) returns (r: Option<nat>)
    requires Ascending(entries)
    ensures r.Some? <==> Present(entries, id)
    ensures r.Some? ==> r.value < |entries| && entries[r.value].id == id
  {
    var i := LowerBound(entries, id);
    if i < |entries| && entries[i].id == id {
      assert entries[i] in entries;
      return Some(i);
    }
    forall e | e in entries ensures e.id != id {
      var j :| 0 <= j < |entries| && entries[j] == e;
      if j > i {
        assert Less(entries[i].id, entries[j].id);
      }
    }
    return None;
  }

  // ---- Pending lists: sorting and duplicates ----

  function IdCount(pel: seq<Pending>, id: StreamId): nat {
    if pel == [] then 0 else (if pel[0].id == id then 1 else 0) + IdCount(pel[1..], id)
  }

  lemma {:induction false} IdCountConcat(a: seq<Pending>, b: seq<Pending>, id: StreamId)
    ensures IdCount(a + b, id) == IdCount(a, id) + IdCount(b, id)
  {
    if a == [] {
      assert a + b == b;
    } else {
      IdCountConcat(a[1..], b, id);
      assert (a + b)[1..] == a[1..] + b;
    }
  }

  lemma TakeOne(s: seq<Pending>, i: nat)
    requires i < |s|
    ensures multiset(s[..i] + s[i + 1..]) == multiset(s) - multiset{s[i]}
    ensures multiset(s) == multiset(s[..i] + s[i + 1..]) + multiset{s[i]}
  {
    assert s == s[..i] + ([s[i]] + s[i + 1..]);
  }

  lemma TakeFirst(s: seq<Pending>)
    requires s != []
    ensures multiset(s[1..]) == multiset(s) - multiset{s[0]}
  {
    TakeOne(s, 0);
    assert s[..0] + s[0 + 1..] == s[1..];
  }

  lemma IdCountTake(s: seq<Pending>, i: nat, id: StreamId)
    requires i < |s|
    ensures IdCount(s, id) == (if s[i].id == id then 1 else 0) + IdCount(s[..i] + s[i + 1..], id)
  {
    assert s == s[..i] + ([s[i]] + s[i + 1..]);
    IdCountConcat(s[..i], [s[i]] + s[i + 1..], id);
    IdCountConcat(s[..i], s[i + 1..], id);
    assert ([s[i]] + s[i + 1..])[1..] == s[i + 1..];
  }

  /** Counting does not depend on order. */
  lemma {:induction false} IdCountPermutes(a: seq<Pending>, b: seq<Pending>, id: StreamId)
    requires multiset(a) == multiset(b)
    ensures IdCount(a, id) == IdCount(b, id)
    decreases |a|
  {
    if a == [] {
      assert |multiset(b)| == 0;
    } else {
      assert a[0] in multiset(a) && a[0] in multiset(b);
      var i :| 0 <= i < |b| && b[i] == a[0];
      assert multiset(a[1..]) == multiset(b[..i] + b[i + 1..]) by {
        TakeFirst(a);
        TakeOne(b, i);
      }
      IdCountPermutes(a[1..], b[..i] + b[i + 1..], id);
      IdCountTake(b, i, id);
    }
  }

  lemma {:induction false} IdCountZero(pel: seq<Pending>, id: StreamId)
    ensures IdCount(pel, id) == 0 <==> forall p | p in pel :: p.id != id
  {
    if pel != [] {
      IdCountZero(pel[1..], id);
      assert pel == [pel[0]] + pel[1..];
    }
  }

  ghost predicate DuplicateFree(pel: seq<Pending>) {
    forall id :: IdCount(pel, id) <= 1
  }

  /** A sorted pending list is strict exactly when it holds no ID twice. */
  lemma StrictIsDuplicateFree(pel: seq<Pending>)
    requires SortedPel(pel)
    ensures StrictPel(pel) <==> DuplicateFree(pel)
  {
    if StrictPel(pel) {
      StrictHasNoDuplicate(pel);
    }
    if DuplicateFree(pel) {
      DuplicateFreeIsStrict(pel);
    }
  }

  lemma {:induction false} StrictHasNoDuplicate(pel: seq<Pending>)
    requires StrictPel(pel)
    ensures DuplicateFree(pel)
  {
    if pel != [] {
      var rest := pel[1..];
      StrictHasNoDuplicate(rest);
      assert forall p | p in rest :: Less(pel[0].id, p.id);
      IdCountZero(rest, pel[0].id);
      forall id ensures IdCount(pel, id) <= 1 {
        assert IdCount(rest, id) <= 1;
      }
    }
  }

  lemma {:induction false} DuplicateFreeIsStrict(pel: seq<Pending>)
    requires SortedPel(pel) && DuplicateFree(pel)
    ensures StrictPel(pel)
  {
    if pel != [] {
      var rest := pel[1..];
      DuplicateFreeTail(pel);
      DuplicateFreeIsStrict(rest);
      forall i, j | 0 <= i < j < |pel| ensures Less(pel[i].id, pel[j].id) {
        assert pel[j] == rest[j - 1] && rest[j - 1] in rest;
        assert i > 0 ==> pel[i] == rest[i - 1];
      }
    }
  }

  lemma DuplicateFreeTail(pel: seq<Pending>)
    requires pel != [] && DuplicateFree(pel)
    ensures DuplicateFree(pel[1..])
    ensures forall p | p in pel[1..] :: p.id != pel[0].id
  {
    IdCountZero(pel[1..], pel[0].id);
    assert IdCount(pel, pel[0].id) <= 1;
    forall id ensures IdCount(pel[1..], id) <= 1 {
      assert IdCount(pel, id) <= 1;
    }
  }

  lemma InsertedAt(pel: seq<Pending>, i: nat, p: Pending)
    requires SortedPel(pel) && i <= |pel| && (forall j | i <= j < |pel| :: Less(p.id, pel[j].id))
    requires i > 0 ==> AtMost(pel[i - 1].id, p.id)
    ensures SortedPel(pel[..i] + [p] + pel[i..])
  {
    var out := pel[..i] + [p] + pel[i..];
    assert forall j | 0 <= j < i :: AtMost(pel[j].id, pel[i - 1].id);
    forall j, k | 0 <= j < k < |out| ensures AtMost(out[j].id, out[k].id) {
      assert j > i ==> out[j] == pel[j - 1];
      assert k > i ==> out[k] == pel[k - 1];
    }
  }

  lemma InsertedBag(pel: seq<Pending>, i: nat, p: Pending)
    requires i <= |pel|
    ensures multiset(pel[..i] + [p] + pel[i..]) == multiset(pel) + multiset{p}
  {
    assert pel == pel[..i] + pel[i..];
  }

  method InsertPending(pel: seq<Pending>, p: Pending) returns (out: seq<Pending>)
    requires SortedPel(pel)
    ensures SortedPel(out) && multiset(out) == multiset(pel) + multiset{p}
  {
    var i := |pel|;
    while i > 0 && Less(p.id, pel[i - 1].id)
      invariant 0 <= i <= |pel|
      invariant forall j | i <= j < |pel| :: Less(p.id, pel[j].id)
    {
      i := i - 1;
    }
    out := pel[..i] + [p] + pel[i..];
    InsertedAt(pel, i, p);
    InsertedBag(pel, i, p);
  }

  /** Sort by ID. Rows with equal IDs come in any order. */
  method SortPel(pel: seq<Pending>) returns (out: seq<Pending>)
    ensures SortedPel(out) && multiset(out) == multiset(pel)
  {
    out := [];
    assert pel[..0] == [];
    for i := 0 to |pel|
      invariant SortedPel(out) && multiset(out) == multiset(pel[..i])
    {
      assert pel[..i + 1] == pel[..i] + [pel[i]];
      out := InsertPending(out, pel[i]);
    }
    assert pel[..|pel|] == pel;
  }

  lemma SameHead(a: seq<Pending>, b: seq<Pending>)
    requires StrictPel(a) && SortedPel(b) && multiset(a) == multiset(b) && a != []
    ensures b != [] && a[0] == b[0]
  {
    assert a[0] in multiset(a) && a[0] in multiset(b);
    var i :| 0 <= i < |b| && b[i] == a[0];
    assert b[0] in multiset(b) && b[0] in multiset(a);
    var j :| 0 <= j < |a| && a[j] == b[0];
    assert i > 0 ==> AtMost(b[0].id, b[i].id);
    assert j > 0 ==> Less(a[0].id, a[j].id);
  }

  lemma TailsAgree(a: seq<Pending>, b: seq<Pending>)
    requires a != [] && b != [] && a[0] == b[0] && multiset(a) == multiset(b)
    ensures multiset(a[1..]) == multiset(b[1..])
  {
    TakeFirst(a);
    TakeFirst(b);
  }

  lemma SameSize(a: seq<Pending>, b: seq<Pending>)
    requires multiset(a) == multiset(b)
    ensures |a| == |b|
  {
    assert |multiset(a)| == |a| && |multiset(b)| == |b|;
  }

  /** A list already strict is left as it is. */
  lemma {:induction false} SortLeavesStrict(a: seq<Pending>, b: seq<Pending>)
    requires StrictPel(a) && SortedPel(b) && multiset(a) == multiset(b)
    ensures a == b
    decreases |a|
  {
    SameSize(a, b);
    forall i | 0 <= i < |a| ensures a[i] == b[i] {
      SortLeavesStrictAt(a, b, i);
    }
  }

  lemma {:induction false} SortLeavesStrictAt(a: seq<Pending>, b: seq<Pending>, i: nat)
    requires StrictPel(a) && SortedPel(b) && multiset(a) == multiset(b) && i < |a| == |b|
    ensures a[i] == b[i]
    decreases i
  {
    hide Less;
    SameHead(a, b);
    if i > 0 {
      TailsAgree(a, b);
      SortLeavesStrictAt(a[1..], b[1..], i - 1);
    }
  }
}
