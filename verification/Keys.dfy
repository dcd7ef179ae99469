/** Byte-string keys in lexicographic order, and sequences of entries sorted by
    key: the simple form of a map that the tree refines. */
module Keys {
  import opened Wrappers

  newtype Byte = x: int | 0 <= x < 0x100

  type Key = seq<Byte>
  type Value = seq<Byte>

  datatype Entry = Entry(key: Key, value: Value)

  /** Lexicographic comparison: negative, zero or positive, a proper prefix
      first. */
  function CompareBytes(a: Key, b: Key): int {
    if a == [] then (if b == [] then 0 else -1)
    else if b == [] then 1
    else if a[0] < b[0] then -1
    else if a[0] > b[0] then 1
    else CompareBytes(a[1..], b[1..])
  }

  predicate Lt(a: Key, b: Key) {
    CompareBytes(a, b) < 0
  }

  lemma {:induction false} CompareEqual(a: Key, b: Key)
    ensures CompareBytes(a, b) == 0 <==> a == b
  {
    if a != [] && b != [] && a[0] == b[0] {
      CompareEqual(a[1..], b[1..]);
      assert a == [a[0]] + a[1..] && b == [b[0]] + b[1..];
    }
  }

  lemma {:induction false} CompareFlips(a: Key, b: Key)
    ensures CompareBytes(a, b) == -CompareBytes(b, a)
  {
    if a != [] && b != [] && a[0] == b[0] {
      CompareFlips(a[1..], b[1..]);
    }
  }

  lemma {:induction false} LtTransitive(a: Key, b: Key, c: Key)
    requires Lt(a, b) && Lt(b, c)
    ensures Lt(a, c)
  {
    if a != [] && a[0] == b[0] && b[0] == c[0] {
      LtTransitive(a[1..], b[1..], c[1..]);
    }
  }

  /** The first `n` bytes agree. */
  ghost predicate Agree(a: Key, b: Key, n: nat) {
    n <= |a| && n <= |b| && forall j | 0 <= j < n :: a[j] == b[j]
  }

  ghost predicate SmallerAt(a: Key, b: Key, i: nat) {
    Agree(a, b, i) && i < |a| && i < |b| && a[i] < b[i]
  }

  lemma AgreeMore(a: Key, b: Key, n: nat)
    requires a != [] && b != []
    ensures Agree(a, b, n + 1) <==> a[0] == b[0] && Agree(a[1..], b[1..], n)
  {
    var a', b' := a[1..], b[1..];
    if a[0] == b[0] && Agree(a', b', n) {
      forall j | 0 <= j < n + 1 ensures a[j] == b[j] {
        if j > 0 {
          assert a'[j - 1] == b'[j - 1];
        }
      }
    }
    if Agree(a, b, n + 1) {
      forall j | 0 <= j < n ensures a'[j] == b'[j] {
        assert a[j + 1] == b[j + 1];
      }
    }
  }

  /** Smaller is a proper prefix, or smaller at the first byte that differs. */
  lemma {:induction false} LtIsLexicographic(a: Key, b: Key)
    ensures Lt(a, b) <==> (|a| < |b| && Agree(a, b, |a|)) || exists i: nat :: SmallerAt(a, b, i)
  {
    if a != [] && b != [] {
      var a', b' := a[1..], b[1..];
      LtIsLexicographic(a', b');
      AgreeMore(a, b, |a'|);
      forall i: nat ensures SmallerAt(a, b, i + 1) <==> a[0] == b[0] && SmallerAt(a', b', i) {
        AgreeMore(a, b, i);
      }
      assert SmallerAt(a, b, 0) <==> a[0] < b[0];
      hide Agree;
      if i: nat :| SmallerAt(a, b, i) {
        assert i > 0 ==> SmallerAt(a, b, (i - 1) + 1) && SmallerAt(a', b', i - 1);
      }
      if i: nat :| SmallerAt(a', b', i) {
        assert a[0] == b[0] ==> SmallerAt(a, b, i + 1);
      }
    }
  }

  /** Lexicographic order is a strict total order. */
  lemma LtIsTotalOrder()
    ensures forall a, b :: Lt(a, b) ==> !Lt(b, a) && a != b
    ensures forall a, b :: Lt(a, b) || a == b || Lt(b, a)
    ensures forall a, b, c :: Lt(a, b) && Lt(b, c) ==> Lt(a, c)
  {
    forall a: Key, b: Key
      ensures Lt(a, b) ==> !Lt(b, a) && a != b
      ensures Lt(a, b) || a == b || Lt(b, a)
    {
      CompareEqual(a, b);
      CompareFlips(a, b);
    }
    forall a: Key, b: Key, c: Key | Lt(a, b) && Lt(b, c)
      ensures Lt(a, c)
    {
      LtTransitive(a, b, c);
    }
  }

  // ---- Bounds ----

  predicate AtOrAbove(lo: Option<Key>, k: Key) {
    lo.None? || !Lt(k, lo.value)
  }

  predicate Above(lo: Option<Key>, k: Key) {
    lo.None? || Lt(lo.value, k)
  }

  predicate Below(hi: Option<Key>, k: Key) {
    hi.None? || Lt(k, hi.value)
  }

  ghost predicate InRange(s: seq<Entry>, lo: Option<Key>, hi: Option<Key>) {
    forall e | e in s :: AtOrAbove(lo, e.key) && Below(hi, e.key)
  }

  // ---- Sorted entries as a map ----

  ghost predicate Sorted(s: seq<Entry>) {
    forall i, j | 0 <= i < j < |s| :: Lt(s[i].key, s[j].key)
  }

  /** The entries before `k` and after it, in a sorted sequence around `k`. */
  ghost predicate Before(s: seq<Entry>, k: Key) {
    forall e | e in s :: Lt(e.key, k)
  }

  ghost predicate After(s: seq<Entry>, k: Key) {
    forall e | e in s :: Lt(k, e.key)
  }

  function Upsert(s: seq<Entry>, k: Key, v: Value): seq<Entry> {
    if s == [] then [Entry(k, v)]
    else if s[0].key == k then [Entry(k, v)] + s[1..]
    else if Lt(k, s[0].key) then [Entry(k, v)] + s
    else [s[0]] + Upsert(s[1..], k, v)
  }

  function Remove(s: seq<Entry>, k: Key): seq<Entry> {
    if s == [] then []
    else if s[0].key == k then s[1..]
    else [s[0]] + Remove(s[1..], k)
  }

  function Find(s: seq<Entry>, k: Key): Option<Value> {
    if s == [] then None
    else if s[0].key == k then Some(s[0].value)
    else Find(s[1..], k)
  }

  ghost function ToMap(s: seq<Entry>): map<Key, Value> {
    if s == [] then map[] else ToMap(s[1..])[s[0].key := s[0].value]
  }

  lemma SortedConcat(a: seq<Entry>, b: seq<Entry>)
    requires Sorted(a) && Sorted(b)
    requires forall x, y | x in a && y in b :: Lt(x.key, y.key)
    ensures Sorted(a + b)
  {
    hide Lt;
    var s := a + b;
    forall i, j | 0 <= i < j < |s|
      ensures Lt(s[i].key, s[j].key)
    {
      if i < |a| <= j {
        assert s[i] in a && s[j] in b;
      }
    }
  }

  lemma Behind(a: seq<Entry>, s: seq<Entry>, b: seq<Entry>)
    requires a != []
    ensures (a + s + b)[0] == a[0] && (a + s + b)[1..] == a[1..] + s + b
    ensures a + s + b == [a[0]] + (a[1..] + s + b)
  {
  }

  lemma InFront(s: seq<Entry>, b: seq<Entry>)
    requires s != []
    ensures (s + b)[0] == s[0] && (s + b)[1..] == s[1..] + b && s + b == [s[0]] + (s[1..] + b)
  {
  }

  lemma {:induction false} UpsertInContext(a: seq<Entry>, s: seq<Entry>, b: seq<Entry>, k: Key, v: Value)
    requires Before(a, k) && After(b, k)
    ensures Upsert(a + s + b, k, v) == a + Upsert(s, k, v) + b
  {
    hide Lt;
    LtIsTotalOrder();
    if a != [] {
      assert a[0] in a;
      UpsertInContext(a[1..], s, b, k, v);
      Behind(a, s, b);
      Behind(a, Upsert(s, k, v), b);
    } else {
      UpsertBefore(s, b, k, v);
      assert a + s + b == s + b && a + Upsert(s, k, v) + b == Upsert(s, k, v) + b;
    }
  }

  lemma {:induction false} UpsertBefore(s: seq<Entry>, b: seq<Entry>, k: Key, v: Value)
    requires After(b, k)
    ensures Upsert(s + b, k, v) == Upsert(s, k, v) + b
  {
    hide Lt;
    LtIsTotalOrder();
    if s == [] {
      assert s + b == b;
      if b != [] {
        assert b[0] in b;
      }
    } else {
      InFront(s, b);
      if s[0].key != k && !Lt(k, s[0].key) {
        UpsertBefore(s[1..], b, k, v);
        InFront([s[0]] + Upsert(s[1..], k, v), b);
        assert ([s[0]] + Upsert(s[1..], k, v))[1..] == Upsert(s[1..], k, v);
      } else if s[0].key == k {
        assert [Entry(k, v)] + s[1..] + b == [Entry(k, v)] + (s[1..] + b);
      } else {
        assert [Entry(k, v)] + s + b == [Entry(k, v)] + (s + b);
      }
    }
  }

  lemma {:induction false} RemoveInContext(a: seq<Entry>, s: seq<Entry>, b: seq<Entry>, k: Key)
    requires Before(a, k) && After(b, k)
    ensures Remove(a + s + b, k) == a + Remove(s, k) + b
  {
    hide Lt;
    LtIsTotalOrder();
    if a != [] {
      assert a[0] in a;
      RemoveInContext(a[1..], s, b, k);
      Behind(a, s, b);
      Behind(a, Remove(s, k), b);
    } else {
      RemoveBefore(s, b, k);
      assert a + s + b == s + b && a + Remove(s, k) + b == Remove(s, k) + b;
    }
  }

  lemma {:induction false} RemoveBefore(s: seq<Entry>, b: seq<Entry>, k: Key)
    requires After(b, k)
    ensures Remove(s + b, k) == Remove(s, k) + b
  {
    hide Lt;
    LtIsTotalOrder();
    if s == [] {
      assert s + b == b;
      RemoveAbsent(b, k);
    } else {
      InFront(s, b);
      if s[0].key != k {
        RemoveBefore(s[1..], b, k);
        InFront([s[0]] + Remove(s[1..], k), b);
        assert ([s[0]] + Remove(s[1..], k))[1..] == Remove(s[1..], k);
      }
    }
  }

  lemma {:induction false} RemoveAbsent(s: seq<Entry>, k: Key)
    requires forall e | e in s :: e.key != k
    ensures Remove(s, k) == s && Find(s, k) == None
  {
    if s != [] {
      RemoveAbsent(s[1..], k);
    }
  }

  lemma {:induction false} FindInContext(a: seq<Entry>, s: seq<Entry>, b: seq<Entry>, k: Key)
    requires Before(a, k) && After(b, k)
    ensures Find(a + s + b, k) == Find(s, k)
  {
    hide Lt;
    LtIsTotalOrder();
    if a != [] {
      assert a[0] in a;
      FindInContext(a[1..], s, b, k);
      assert (a + s + b)[1..] == a[1..] + s + b;
    } else if s != [] {
      assert a + s + b == s + b && (s + b)[1..] == s[1..] + b;
      if s[0].key != k {
        FindInContext([], s[1..], b, k);
        assert [] + s[1..] + b == s[1..] + b;
      }
    } else {
      assert a + s + b == b;
      RemoveAbsent(b, k);
    }
  }

  lemma {:induction false} MapKeys(s: seq<Entry>, k: Key)
    ensures k in ToMap(s) <==> exists e :: e in s && e.key == k
  {
    if s != [] {
      MapKeys(s[1..], k);
      assert s[0] in s;
      if k in ToMap(s) && k != s[0].key {
        var e :| e in s[1..] && e.key == k;
        assert e in s;
      }
    }
  }

  /** A sorted sequence after an upsert is the map after the update, and sorted. */
  lemma {:induction false} UpsertIsUpdate(s: seq<Entry>, k: Key, v: Value)
    requires Sorted(s)
    ensures Sorted(Upsert(s, k, v))
    ensures ToMap(Upsert(s, k, v)) == ToMap(s)[k := v]
    ensures forall e | e in Upsert(s, k, v) :: e == Entry(k, v) || e in s
    ensures |Upsert(s, k, v)| == if Find(s, k).None? then |s| + 1 else |s|
  {
    hide Lt;
    LtIsTotalOrder();
    if s != [] {
      assert forall e | e in s[1..] :: Lt(s[0].key, e.key);
      if s[0].key == k {
        SortedConcat([Entry(k, v)], s[1..]);
        MapCons(Entry(k, v), s[1..]);
      } else if Lt(k, s[0].key) {
        SortedConcat([Entry(k, v)], s);
        MapCons(Entry(k, v), s);
        RemoveAbsent(s, k);
      } else {
        UpsertIsUpdate(s[1..], k, v);
        var u := Upsert(s[1..], k, v);
        SortedConcat([s[0]], u);
        MapCons(s[0], u);
        MapUpdates(ToMap(s[1..]), s[0], k, v);
      }
    } else {
      MapCons(Entry(k, v), []);
    }
  }

  lemma MapCons(e: Entry, s: seq<Entry>)
    ensures ToMap([e] + s) == ToMap(s)[e.key := e.value]
  {
    assert ([e] + s)[1..] == s;
  }

  lemma MapUpdates(m: map<Key, Value>, e: Entry, k: Key, v: Value)
    requires e.key != k
    ensures m[k := v][e.key := e.value] == m[e.key := e.value][k := v]
  {
  }

  lemma {:induction false} RemoveIsDeletion(s: seq<Entry>, k: Key)
    requires Sorted(s)
    ensures Sorted(Remove(s, k))
    ensures ToMap(Remove(s, k)) == ToMap(s) - {k}
    ensures forall e | e in Remove(s, k) :: e in s && e.key != k
    ensures |Remove(s, k)| == if Find(s, k).None? then |s| else |s| - 1
  {
    hide Lt;
    LtIsTotalOrder();
    if s != [] {
      assert forall e | e in s[1..] :: Lt(s[0].key, e.key);
      if s[0].key == k {
        MapKeys(s[1..], k);
        assert ToMap(s) - {k} == ToMap(s[1..]);
      } else {
        RemoveIsDeletion(s[1..], k);
        var u := Remove(s[1..], k);
        SortedConcat([s[0]], u);
        assert ([s[0]] + u)[1..] == u;
        MapWithout(ToMap(s[1..]), s[0], k);
      }
    }
  }

  lemma MapWithout(m: map<Key, Value>, e: Entry, k: Key)
    requires e.key != k
    ensures (m - {k})[e.key := e.value] == m[e.key := e.value] - {k}
  {
  }

  /** No key repeats, so the map has as many as there are entries. */
  lemma {:induction false} MapSize(s: seq<Entry>)
    requires Sorted(s)
    ensures |ToMap(s)| == |s|
  {
    hide Lt;
    LtIsTotalOrder();
    if s != [] {
      MapSize(s[1..]);
      MapKeys(s[1..], s[0].key);
      assert forall e | e in s[1..] :: Lt(s[0].key, e.key);
      assert ToMap(s).Keys == ToMap(s[1..]).Keys + {s[0].key};
      assert ToMap(s[1..]) == ToMap(s) - {s[0].key};
    }
  }

  /** Lookup in the sequence is lookup in the map. */
  lemma {:induction false} FindIsLookup(s: seq<Entry>, k: Key)
    requires Sorted(s)
    ensures Find(s, k) == if k in ToMap(s) then Some(ToMap(s)[k]) else None
  {
    if s != [] && s[0].key != k {
      FindIsLookup(s[1..], k);
    }
  }
}
