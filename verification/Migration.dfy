/** Converting a store to the current record layout, slice by slice, resumable
    from a marker that is written in the same transaction as the slice. */
module Migration {
  import opened Wrappers
  import opened Keys
  import opened TreeModel
  import opened PageSizes
  import opened TreeTxn
  import opened CowTree
  import opened Records
  import opened TreeRuns
  import TreeReads

  const CURRENT_VERSION: U32 := 4
  const PRE_MARKER_VERSION: U32 := 3
  const CHUNK_RECORDS := 1000

  /** Two control bytes, "fastcached.fmt" and "fastcached.mig", a closing NUL. */
  const FORMAT_KEY: Key := [0, 1, 102, 97, 115, 116, 99, 97, 99, 104, 101, 100, 46, 102, 109, 116, 0]
  const MARKER_KEY: Key := [0, 1, 102, 97, 115, 116, 99, 97, 99, 104, 101, 100, 46, 109, 105, 103, 0]

  predicate IsReserved(k: Key) {
    k == FORMAT_KEY || k == MARKER_KEY
  }

  // ---- Layouts ----

  predicate CanRead(version: U32) {
    version == PRE_MARKER_VERSION || version == CURRENT_VERSION
  }

  function ParseAs(version: U32, raw: Value): Result<Record> {
    if version == PRE_MARKER_VERSION then ParseV3(raw) else Parse(raw)
  }

  lemma ParsedIsEncodable(version: U32, raw: Value)
    ensures ParseAs(version, raw).Ok? ==> Encodable(ParseAs(version, raw).value)
  {
    hide ReadHeader;
    if version == PRE_MARKER_VERSION && ParseV3(raw).Ok? {
      ConversionPreserves(raw);
    }
  }

  /** The record in the current layout. */
  function Converted(version: U32, raw: Value): Value {
    ParsedIsEncodable(version, raw);
    var parsed := ParseAs(version, raw);
    if parsed.Ok? then Encode(parsed.value) else raw
  }

  // ---- Markers ----

  function Marker(version: U32, lastKey: Key): Value {
    Word4(version) + (Word4(CURRENT_VERSION) + lastKey)
  }

  datatype Progress = Progress(fromVersion: U32, toVersion: U32, lastKey: Key)

  function ReadProgress(raw: Value): Result<Progress> {
    match TakeU32(raw)
    case None => Err(Corrupt)
    case Some((from, c1)) => match TakeU32(c1)
    case None => Err(Corrupt)
    case Some((to, lastKey)) => Ok(Progress(from, to, lastKey))
  }

  lemma MarkerReadsBack(version: U32, lastKey: Key)
    ensures ReadProgress(Marker(version, lastKey)) == Ok(Progress(version, CURRENT_VERSION, lastKey))
  {
    hide Word4, TakeU32;
    TakeWord4(version, Word4(CURRENT_VERSION) + lastKey);
    TakeWord4(CURRENT_VERSION, lastKey);
  }

  /** What a run has to do: nothing, refuse, or convert the records above
      `resume` from `version`. */
  datatype Plan = Current | Refuse(error: Error) | Work(version: U32, resume: Option<Key>)

  function PlanFor(m: map<Key, Value>): Plan {
    if MARKER_KEY in m then
      match ReadProgress(m[MARKER_KEY])
      case Err(e) => Refuse(e)
      case Ok(p) =>
        if p.toVersion != CURRENT_VERSION || !CanRead(p.fromVersion) then Refuse(UnsupportedFormatVersion)
        else Work(p.fromVersion, Some(p.lastKey))
    else if FORMAT_KEY in m then
      match TakeU32(m[FORMAT_KEY])
      case None => Refuse(Corrupt)
      case Some((version, _)) =>
        if version == CURRENT_VERSION then Current
        else if CanRead(version) then Work(version, None)
        else Refuse(UnsupportedFormatVersion)
    else if m == map[] then Current
    else Work(PRE_MARKER_VERSION, None)
  }

  /** What each marked store has to do. Without either marker an empty store is
      current and any other is in the layout before there were markers; a progress
      marker outranks the version. */
  lemma PlanOfMarked(m: map<Key, Value>, version: U32, lastKey: Key)
    ensures MARKER_KEY !in m && FORMAT_KEY !in m ==>
              PlanFor(m) == if m == map[] then Current else Work(3, None)
    ensures MARKER_KEY !in m && FORMAT_KEY in m && m[FORMAT_KEY] == Word4(version) ==>
              PlanFor(m) == if version == 4 then Current else if version == 3 then Work(3, None)
                            else Refuse(UnsupportedFormatVersion)
    ensures MARKER_KEY in m && m[MARKER_KEY] == Marker(version, lastKey) ==>
              PlanFor(m) == if version == 3 || version == 4 then Work(version, Some(lastKey))
                            else Refuse(UnsupportedFormatVersion)
    ensures MARKER_KEY in m && |m[MARKER_KEY]| < 8 ==> PlanFor(m) == Refuse(Corrupt)
    ensures MARKER_KEY !in m && FORMAT_KEY in m && |m[FORMAT_KEY]| < 4 ==> PlanFor(m) == Refuse(Corrupt)
  {
    ShortMarkers(m);
    hide Word4, TakeU32, Marker, ReadProgress;
    assert Word4(version) + [] == Word4(version);
    TakeWord4(version, []);
    MarkerReadsBack(version, lastKey);
  }

  lemma ShortMarkers(m: map<Key, Value>)
    ensures MARKER_KEY in m && |m[MARKER_KEY]| < 8 ==> PlanFor(m) == Refuse(Corrupt)
    ensures MARKER_KEY !in m && FORMAT_KEY in m && |m[FORMAT_KEY]| < 4 ==> PlanFor(m) == Refuse(Corrupt)
  {
  }

  /** A marker of a conversion to another version is not one to resume. */
  lemma OtherTarget(m: map<Key, Value>, from: U32, to: U32, lastKey: Key)
    requires to != 4 && MARKER_KEY in m && m[MARKER_KEY] == Word4(from) + (Word4(to) + lastKey)
    ensures PlanFor(m) == Refuse(UnsupportedFormatVersion)
  {
    hide Word4, TakeU32;
    TakeWord4(from, Word4(to) + lastKey);
    TakeWord4(to, lastKey);
  }

  /** A record already in the current layout keeps its fields. */
  lemma CurrentIsKept(raw: Value)
    requires Parse(raw).Ok?
    ensures Parse(Converted(CURRENT_VERSION, raw)) == Parse(raw)
  {
    hide Parse, Encode, Rounded;
    ParsedReadsBack(raw);
  }

  // ---- What a run aims at ----

  /** The keys still in the old layout. */
  ghost function Pending(m: map<Key, Value>, resume: Option<Key>): set<Key> {
    set k | k in m && !IsReserved(k) && TreeReads.Past(resume, k)
  }

  ghost function OwnRecords(m: map<Key, Value>): map<Key, Value> {
    map k | k in m && !IsReserved(k) :: m[k]
  }

  /** The records as they will be: pending ones converted, the others as they are. */
  ghost function Goal(m: map<Key, Value>, version: U32, resume: Option<Key>): map<Key, Value> {
    map k | k in m && !IsReserved(k) :: if TreeReads.Past(resume, k) then Converted(version, m[k]) else m[k]
  }

  /** The goal of a store of version 3 records, by their fields: `was` says which
      record each pending key holds. */
  lemma GoalOfRecords(m: map<Key, Value>, resume: Option<Key>, was: map<Key, Record>)
    requires forall k | k in Pending(m, resume) :: k in was && EncodableV3(was[k]) && m[k] == EncodeV3(was[k])
    ensures Readable(m, PRE_MARKER_VERSION, resume)
    ensures forall k | k in Pending(m, resume) ::
              && k in Goal(m, PRE_MARKER_VERSION, resume) && Encodable(RoundedRecord(was[k]))
              && Goal(m, PRE_MARKER_VERSION, resume)[k] == Encode(RoundedRecord(was[k]))
              && Parse(Goal(m, PRE_MARKER_VERSION, resume)[k]) == Ok(RoundedRecord(was[k]))
  {
    hide Encode, Parse, EncodeV3, ParseV3, Rounded, TreeReads.Past, IsReserved, EncodableV3;
    forall k | k in Pending(m, resume)
      ensures ParseAs(PRE_MARKER_VERSION, m[k]).Ok? && Encodable(RoundedRecord(was[k]))
      ensures Converted(PRE_MARKER_VERSION, m[k]) == Encode(RoundedRecord(was[k]))
      ensures Parse(Converted(PRE_MARKER_VERSION, m[k])) == Ok(RoundedRecord(was[k]))
    {
      ConversionOfFields(was[k]);
    }
  }

  ghost predicate Readable(m: map<Key, Value>, version: U32, resume: Option<Key>) {
    forall k | k in Pending(m, resume) :: ParseAs(version, m[k]).Ok?
  }

  /** Every record converted, the marker gone, the version stamped. */
  ghost predicate Stamped(m: map<Key, Value>) {
    MARKER_KEY !in m && FORMAT_KEY in m && m[FORMAT_KEY] == Word4(CURRENT_VERSION)
  }

  /** Then there is nothing more to do. */
  lemma StampedIsCurrent(m: map<Key, Value>)
    requires Stamped(m)
    ensures PlanFor(m) == Current
  {
    hide Word4, TakeU32;
    assert Word4(CURRENT_VERSION) + [] == Word4(CURRENT_VERSION);
    TakeWord4(CURRENT_VERSION, []);
  }

  /** `m'` is `m` with the pending keys up to `last` converted, and nothing else
      but the marker changed. */
  ghost predicate Advanced(m: map<Key, Value>, m': map<Key, Value>, version: U32, resume: Option<Key>, last: Key) {
    && TreeReads.Past(resume, last) && last in m && !IsReserved(last)
    && OwnRecords(m').Keys == OwnRecords(m).Keys
    && (forall k | k in OwnRecords(m) ::
          m'[k] == if TreeReads.Past(resume, k) && !Lt(last, k) then Converted(version, m[k]) else m[k])
    && MARKER_KEY in m' && m'[MARKER_KEY] == Marker(version, last)
  }

  /** The goal is the same before and after a slice, and less is pending. */
  lemma GoalIsKept(m: map<Key, Value>, m': map<Key, Value>, version: U32, resume: Option<Key>, last: Key)
    requires Advanced(m, m', version, resume, last) && CanRead(version)
    ensures Goal(m', version, Some(last)) == Goal(m, version, resume)
    ensures Pending(m', Some(last)) < Pending(m, resume)
    ensures Readable(m, version, resume) ==> Readable(m', version, Some(last))
    ensures PlanFor(m') == Work(version, Some(last))
  {
    hide Lt, Converted, ParseAs, IsReserved, Marker;
    LtIsTotalOrder();
    assert PlanFor(m') == Work(version, Some(last)) by {
      MarkerReadsBack(version, last);
      MarkerIsReserved();
    }
    SameGoal(m, m', version, resume, last);
    forall k | k in Pending(m', Some(last)) ensures k in Pending(m, resume) && m'[k] == m[k] {
      assert k in OwnRecords(m') && k in OwnRecords(m);
    }
    assert last in Pending(m, resume) && last !in Pending(m', Some(last));
  }

  lemma SameGoal(m: map<Key, Value>, m': map<Key, Value>, version: U32, resume: Option<Key>, last: Key)
    requires Advanced(m, m', version, resume, last)
    ensures Goal(m', version, Some(last)) == Goal(m, version, resume)
  {
    hide Lt, Converted, IsReserved, Marker;
    LtIsTotalOrder();
    forall k
      ensures k in m' && !IsReserved(k) <==> k in m && !IsReserved(k)
      ensures k in m && !IsReserved(k) ==> Goal(m', version, Some(last))[k] == Goal(m, version, resume)[k]
    {
      assert k in OwnRecords(m') <==> k in OwnRecords(m);
    }
  }

  // ---- One slice ----

  /** The puts a slice makes for the entries it visited. */
  function SliceOps(visited: seq<Entry>, version: U32): seq<Op> {
    if visited == [] then []
    else
      var e := visited[|visited| - 1];
      SliceOps(visited[..|visited| - 1], version)
      + if IsReserved(e.key) then [] else [PutOp(e.key, Converted(version, e.value))]
  }

  lemma NoSliceOps(m: map<Key, Value>, version: U32)
    ensures MapAfter(m, SliceOps([], version)) == m
  {
  }

  lemma NextSliceOp(m: map<Key, Value>, visited: seq<Entry>, version: U32)
    requires visited != []
    ensures var init, e := visited[..|visited| - 1], visited[|visited| - 1];
            MapAfter(m, SliceOps(visited, version)) ==
            if IsReserved(e.key) then MapAfter(m, SliceOps(init, version))
            else MapAfter(m, SliceOps(init, version))[e.key := Converted(version, e.value)]
  {
    hide Converted, IsReserved;
    var init, e := visited[..|visited| - 1], visited[|visited| - 1];
    var ops := SliceOps(init, version);
    if IsReserved(e.key) {
      assert ops + [] == ops;
    } else {
      LastOp(m, ops, PutOp(e.key, Converted(version, e.value)));
    }
  }

  lemma {:induction false} SliceEffect(m: map<Key, Value>, visited: seq<Entry>, version: U32, k: Key)
    requires Sorted(visited)
    ensures k in MapAfter(m, SliceOps(visited, version)) <==>
            k in m || (!IsReserved(k) && exists e | e in visited :: e.key == k)
    ensures forall e | e in visited && e.key == k && !IsReserved(k) ::
              k in MapAfter(m, SliceOps(visited, version)) &&
              MapAfter(m, SliceOps(visited, version))[k] == Converted(version, e.value)
    ensures IsReserved(k) || (forall e | e in visited :: e.key != k) ==>
              (k in m ==> k in MapAfter(m, SliceOps(visited, version)) && MapAfter(m, SliceOps(visited, version))[k] == m[k])
  {
    hide Lt, Converted, IsReserved, MapAfter, SliceOps;
    LtIsTotalOrder();
    if visited == [] {
      NoSliceOps(m, version);
    } else {
      var init, e := visited[..|visited| - 1], visited[|visited| - 1];
      SliceEffect(m, init, version, k);
      assert visited == init + [e];
      NextSliceOp(m, visited, version);
      assert forall d | d in init :: Lt(d.key, e.key);
    }
  }

  /** The distinct keys a slice puts. */
  ghost function SliceKeys(visited: seq<Entry>): set<Key> {
    set e | e in visited && !IsReserved(e.key) :: e.key
  }

  lemma {:induction false} SliceCount(visited: seq<Entry>, version: U32)
    requires Sorted(visited)
    ensures |SliceOps(visited, version)| == |SliceKeys(visited)|
  {
    hide Lt, IsReserved, Converted;
    LtIsTotalOrder();
    if visited != [] {
      var init, e := visited[..|visited| - 1], visited[|visited| - 1];
      SliceCount(init, version);
      assert visited == init + [e];
      assert forall d | d in init :: Lt(d.key, e.key);
      if IsReserved(e.key) {
        assert SliceKeys(visited) == SliceKeys(init);
      } else {
        assert SliceKeys(visited) == SliceKeys(init) + {e.key};
      }
    }
  }

  /** The last key converted. */
  function LastKey(visited: seq<Entry>): Option<Key> {
    if visited == [] then None
    else if !IsReserved(visited[|visited| - 1].key) then Some(visited[|visited| - 1].key)
    else LastKey(visited[..|visited| - 1])
  }

  lemma {:induction false} LastKeyIsLast(visited: seq<Entry>, version: U32)
    requires Sorted(visited)
    ensures LastKey(visited).None? <==> SliceOps(visited, version) == []
    ensures LastKey(visited).Some? ==>
              && LastKey(visited).value in SliceKeys(visited)
              && forall k | k in SliceKeys(visited) :: !Lt(LastKey(visited).value, k)
  {
    hide Lt, IsReserved, Converted;
    LtIsTotalOrder();
    if visited != [] {
      var init, e := visited[..|visited| - 1], visited[|visited| - 1];
      LastKeyIsLast(init, version);
      assert visited == init + [e];
      assert forall d | d in init :: Lt(d.key, e.key);
      if !IsReserved(e.key) {
        assert e in visited && e.key in SliceKeys(visited);
      } else {
        assert SliceKeys(visited) == SliceKeys(init);
      }
    }
  }

  /** A slice is a prefix of what is above `resume`. */
  lemma SliceIsPrefix(s: seq<Entry>, resume: Option<Key>, visited: seq<Entry>)
    requires Sorted(s) && visited <= TreeReads.Beyond(s, resume)
    ensures Sorted(visited)
    ensures forall e | e in visited :: e in s && TreeReads.Past(resume, e.key)
    ensures forall d, e | d in s && e in visited && TreeReads.Past(resume, d.key) && !Lt(e.key, d.key) :: d in visited
  {
    hide Lt;
    LtIsTotalOrder();
    var i := TreeReads.BeyondIsTail(s, resume);
    assert forall a | 0 <= a < |visited| :: visited[a] == s[i + a];
    forall d, e | d in s && e in visited && TreeReads.Past(resume, d.key) && !Lt(e.key, d.key)
      ensures d in visited
    {
      var j :| 0 <= j < |s| && s[j] == d;
      var n :| 0 <= n < |visited| && visited[n] == e;
      assert i <= j <= i + n;
      assert visited[j - i] == d;
    }
  }

  /** It converts exactly the pending keys up to its last one. */
  lemma SliceCovers(s: seq<Entry>, resume: Option<Key>, visited: seq<Entry>, last: Key)
    requires Sorted(s) && visited <= TreeReads.Beyond(s, resume) && LastKey(visited) == Some(last)
    ensures Sorted(visited) && forall e | e in visited :: e in s
    ensures SliceKeys(visited) == set k | k in Pending(ToMap(s), resume) && !Lt(last, k)
    ensures last in SliceKeys(visited)
  {
    hide Lt, ToMap, IsReserved, TreeReads.Past, TreeReads.Beyond, LastKey;
    SliceIsPrefix(s, resume, visited);
    LastKeyIsLast(visited, CURRENT_VERSION);
    forall k | k in SliceKeys(visited) ensures k in Pending(ToMap(s), resume) && !Lt(last, k) {
      var e :| e in visited && !IsReserved(e.key) && e.key == k;
      EntriesInMap(s, e);
    }
    forall k | k in Pending(ToMap(s), resume) && !Lt(last, k) ensures k in SliceKeys(visited) {
      MapKeys(s, k);
      var d :| d in s && d.key == k;
      var e :| e in visited && e.key == last;
      assert d in visited;
    }
  }

  /** The transaction of one slice: its puts and the marker. */
  function SliceTxn(visited: seq<Entry>, version: U32, last: Key): seq<Op> {
    SliceOps(visited, version) + [PutOp(MARKER_KEY, Marker(version, last))]
  }

  lemma SliceAdvances(s: seq<Entry>, resume: Option<Key>, visited: seq<Entry>, version: U32, last: Key)
    requires Sorted(s) && visited <= TreeReads.Beyond(s, resume) && LastKey(visited) == Some(last)
    ensures Advanced(ToMap(s), MapAfter(ToMap(s), SliceTxn(visited, version, last)), version, resume, last)
    ensures |Pending(ToMap(s), resume)| ==
            |Pending(MapAfter(ToMap(s), SliceTxn(visited, version, last)), Some(last))| + |SliceOps(visited, version)|
  {
    hide Lt, ToMap, IsReserved, TreeReads.Past, TreeReads.Beyond, LastKey, Converted, Marker, MapAfter, SliceOps;
    var m := ToMap(s);
    var ops := SliceOps(visited, version);
    var mid, m' := MapAfter(m, ops), MapAfter(m, SliceTxn(visited, version, last));
    SliceCovers(s, resume, visited, last);
    assert m' == mid[MARKER_KEY := Marker(version, last)] by { LastOp(m, ops, PutOp(MARKER_KEY, Marker(version, last))); }
    assert IsReserved(MARKER_KEY) by { MarkerIsReserved(); }
    assert last in Pending(m, resume);
    forall k | !IsReserved(k)
      ensures k in m' <==> k in m
      ensures k in m ==> m'[k] == if TreeReads.Past(resume, k) && !Lt(last, k) then Converted(version, m[k]) else m[k]
    {
      SliceEffect(m, visited, version, k);
      if k in SliceKeys(visited) {
        var e :| e in visited && e.key == k;
        EntriesInMap(s, e);
        assert k in Pending(m, resume);
      }
    }
    PendingAfter(m, m', resume, last, SliceKeys(visited));
    SliceCount(visited, version);
  }

  lemma MarkerIsReserved()
    ensures IsReserved(MARKER_KEY)
  {
  }

  lemma LastOp(m: map<Key, Value>, ops: seq<Op>, op: Op)
    ensures MapAfter(m, ops + [op]) == Step(MapAfter(m, ops), op)
  {
    assert (ops + [op])[..|ops|] == ops;
  }

  lemma PendingAfter(m: map<Key, Value>, m': map<Key, Value>, resume: Option<Key>, last: Key, done: set<Key>)
    requires forall k | !IsReserved(k) :: k in m' <==> k in m
    requires done == set k | k in Pending(m, resume) && !Lt(last, k)
    requires TreeReads.Past(resume, last)
    ensures |Pending(m, resume)| == |Pending(m', Some(last))| + |done|
  {
    hide Lt, IsReserved;
    LtIsTotalOrder();
    assert Pending(m, resume) == Pending(m', Some(last)) + done;
  }

  // ---- Walks over the records ----

  /** A walk that its visitor never stopped delivered everything. */
  lemma {:induction false} Unstopped(done: seq<Entry>, rest: seq<Entry>, more: TreeReads.Visitor)
    requires TreeReads.Delivered(done, rest, more) != done ==> more(TreeReads.Delivered(done, rest, more))
    ensures TreeReads.Delivered(done, rest, more) == done + rest
    decreases rest
  {
    if rest != [] {
      TreeReads.DeliveredPrefix(done, rest, more);
      var next := done + [rest[0]];
      if more(next) {
        TreeReads.DeliveredPrefix(next, rest[1..], more);
        Unstopped(next, rest[1..], more);
        assert next + rest[1..] == done + rest;
      }
    }
  }

  /** Whether every record visited reads as `version`. */
  predicate AllRead(visited: seq<Entry>, version: U32) {
    forall e | e in visited :: IsReserved(e.key) || ParseAs(version, e.value).Ok?
  }

  /** The read-only pass: every record above `resume` must read. */
  method Validate(tree: CowTree, version: U32, resume: Option<Key>) returns (ok: bool)
    requires tree.Valid()
    ensures ok <==> Readable(Contents(tree), version, resume)
  {
    hide Lt, ToMap, IsReserved, ParseAs, Ordered, Rep, PagesOf, AllRead, TreeReads.Beyond, TreeReads.Delivered, TreeReads.Past;
    var more := (visited: seq<Entry>) => AllRead(visited, version);
    ghost var s := RootFlat(tree.liveRoot, tree.liveShape);
    var r, visited, pageReads := TreeReads.Walk(tree.store, tree.liveRoot, resume, more, tree.liveShape);
    RootSorted(tree.store.pages, tree.Cap(), tree.liveRoot, tree.liveShape);
    ok := AllRead(visited, version);
    ValidateExact(s, version, resume, visited, more);
  }

  lemma ValidateExact(s: seq<Entry>, version: U32, resume: Option<Key>, visited: seq<Entry>, more: TreeReads.Visitor)
    requires Sorted(s) && visited == TreeReads.Delivered([], TreeReads.Beyond(s, resume), more)
    requires forall v :: more(v) == AllRead(v, version)
    ensures AllRead(visited, version) <==> Readable(ToMap(s), version, resume)
  {
    hide Lt, ToMap, IsReserved, ParseAs, TreeReads.Beyond, TreeReads.Delivered, TreeReads.Past;
    var all := TreeReads.Beyond(s, resume);
    TreeReads.DeliveredPrefix([], all, more);
    assert [] + all == all;
    SliceIsPrefix(s, resume, visited);
    if AllRead(visited, version) {
      Unstopped([], all, more);
      SliceIsPrefix(s, resume, all);
      forall k | k in Pending(ToMap(s), resume) ensures ParseAs(version, ToMap(s)[k]).Ok? {
        MapKeys(s, k);
        var e :| e in s && e.key == k;
        EntriesInMap(s, e);
        BeyondHolds(s, resume, e);
      }
    }
    if Readable(ToMap(s), version, resume) {
      forall e | e in visited ensures IsReserved(e.key) || ParseAs(version, e.value).Ok? {
        EntriesInMap(s, e);
        assert IsReserved(e.key) || e.key in Pending(ToMap(s), resume);
      }
    }
  }

  lemma {:induction false} BeyondHolds(s: seq<Entry>, resume: Option<Key>, e: Entry)
    requires e in s && TreeReads.Past(resume, e.key)
    ensures e in TreeReads.Beyond(s, resume)
  {
    hide TreeReads.Past;
    if e != s[0] {
      assert e in s[1..];
      BeyondHolds(s[1..], resume, e);
    }
  }

  // ---- Room for the conversion ----

  /** Converting adds at most nine bytes to a record: pending records that leave
      that much of half a page free stay within it. */
  ghost predicate Convertible(m: map<Key, Value>, resume: Option<Key>, cap: nat) {
    && LeafEntryBytes(|FORMAT_KEY|, 4) * 2 <= cap
    && forall k | k in Pending(m, resume) :: |k| <= MAX_KEY_LENGTH && 2 * (ItemBytes(Entry(k, m[k])) + 9) <= cap
  }

  lemma ConvertedSize(version: U32, raw: Value)
    ensures |Converted(version, raw)| <= |raw| + 9
    ensures ParseAs(version, raw).Ok? ==> |raw| >= 42
  {
    hide Encode, ParseV3, Parse;
    if ParseAs(version, raw).Ok? {
      ParsedIsEncodable(version, raw);
      var r := ParseAs(version, raw).value;
      EncodedSize(r);
      if version == PRE_MARKER_VERSION {
        ConversionGrows(raw);
      } else {
        ReencodedSize(raw, r.header);
      }
    }
  }

  /** A converted record, and the marker that names its key, take half a page at
      most. */
  lemma ConvertedIsSmall(m: map<Key, Value>, version: U32, resume: Option<Key>, k: Key, cap: nat)
    requires Convertible(m, resume, cap) && Readable(m, version, resume) && CountsFit(cap) && k in Pending(m, resume)
    ensures SmallItem(Entry(k, Converted(version, m[k])), cap)
    ensures SmallItem(Entry(MARKER_KEY, Marker(version, k)), cap)
  {
    hide Converted, ParseAs, TreeReads.Past;
    ConvertedSize(version, m[k]);
  }

  lemma {:induction false} SliceOpsArePuts(visited: seq<Entry>, version: U32, op: Op)
    requires op in SliceOps(visited, version)
    ensures exists e | e in visited && !IsReserved(e.key) :: op == PutOp(e.key, Converted(version, e.value))
  {
    hide IsReserved, Converted;
    var init, e := visited[..|visited| - 1], visited[|visited| - 1];
    if op in SliceOps(init, version) {
      SliceOpsArePuts(init, version, op);
    } else {
      assert e in visited;
    }
  }

  lemma SliceIsSmall(s: seq<Entry>, resume: Option<Key>, visited: seq<Entry>, version: U32, last: Key, cap: nat)
    requires Sorted(s) && visited <= TreeReads.Beyond(s, resume) && LastKey(visited) == Some(last)
    requires Convertible(ToMap(s), resume, cap) && Readable(ToMap(s), version, resume) && CountsFit(cap)
    ensures HalfPageOps(SliceTxn(visited, version, last), cap)
  {
    hide Lt, ToMap, IsReserved, TreeReads.Past, TreeReads.Beyond, LastKey, Converted, Marker, SliceOps, Convertible, Readable,
         Pending, CountsFit, SmallItem;
    SliceCovers(s, resume, visited, last);
    forall op | op in SliceTxn(visited, version, last) && op.PutOp? ensures SmallItem(Entry(op.key, op.value), cap) {
      if op in SliceOps(visited, version) {
        SliceOpsArePuts(visited, version, op);
        var e :| e in visited && !IsReserved(e.key) && op == PutOp(e.key, Converted(version, e.value));
        assert e.key in SliceKeys(visited);
        EntriesInMap(s, e);
        ConvertedIsSmall(ToMap(s), version, resume, e.key, cap);
      } else {
        ConvertedIsSmall(ToMap(s), version, resume, last, cap);
      }
    }
  }

  lemma StampIsSmall(m: map<Key, Value>, resume: Option<Key>, cap: nat)
    requires Convertible(m, resume, cap)
    ensures HalfPageOps([EraseOp(MARKER_KEY), PutOp(FORMAT_KEY, Word4(CURRENT_VERSION))], cap)
  {
  }

  // ---- The conversion ----

  datatype Outcome =
    | UpToDate
    | Refused(error: Error, rewriting: bool)
    | Cut(converted: nat)
    | Finished(converted: nat)

  /** How a run leaves the store when it is cut or refused while rewriting. */
  ghost predicate Partway(m: map<Key, Value>, m': map<Key, Value>, version: U32, resume: Option<Key>,
                          resume': Option<Key>, converted: nat)
  {
    && PlanFor(m') == Work(version, resume')
    && Goal(m', version, resume') == Goal(m, version, resume)
    && (Readable(m, version, resume) ==> Readable(m', version, resume'))
    && converted + |Pending(m', resume')| == |Pending(m, resume)|
    && (forall k | k in Pending(m', resume') :: k in Pending(m, resume) && m'[k] == m[k])
  }

  ghost predicate HasRoom(tree: CowTree)
    requires tree.Valid()
    reads tree, tree.store
  {
    Roomy(tree.liveRoot, tree.liveShape, tree.Cap())
  }

  /** Nothing will be refused: all that is pending reads, and there is room. */
  ghost predicate Ready(tree: CowTree, version: U32, resume: Option<Key>)
    requires tree.Valid()
    reads tree, tree.store
  {
    HasRoom(tree) && Readable(Contents(tree), version, resume) && Convertible(Contents(tree), resume, tree.Cap())
  }

  lemma RoomyCounts(tree: CowTree)
    requires tree.Valid() && HasRoom(tree)
    ensures CountsFit(tree.Cap())
  {
    hide ToMap, Small;
  }

  /** Convert the next slice. Nothing is left when no record was visited. */
  method ConvertSlice(tree: CowTree, version: U32, resume: Option<Key>)
    returns (ok: bool, converted: nat, last: Key)
    requires tree.Valid() && PlanFor(Contents(tree)) == Work(version, resume)
    modifies tree, tree.store
    ensures tree.Valid()
    ensures tree.liveValueBytes == old(tree.liveValueBytes) && tree.liveKeyBytes == old(tree.liveKeyBytes)
    ensures !ok ==> Contents(tree) == old(Contents(tree))
    ensures ok && converted == 0 ==> Contents(tree) == old(Contents(tree)) && Pending(Contents(tree), resume) == {}
    ensures ok && converted > 0 ==>
              && converted <= CHUNK_RECORDS
              && Advanced(old(Contents(tree)), Contents(tree), version, resume, last)
              && |Pending(old(Contents(tree)), resume)| == |Pending(Contents(tree), Some(last))| + converted
    ensures old(Ready(tree, version, resume)) ==> ok && HasRoom(tree)
  {
    hide Lt, ToMap, IsReserved, Converted, Ordered, Rep, PagesOf, TreeReads.Beyond, TreeReads.Delivered, TreeReads.Past,
         SliceOps, LastKey, MapAfter, Marker, Advanced, Pending, Once, PlanFor, Convertible, Readable, HalfPageOps, Roomy;
    ghost var s := RootFlat(tree.liveRoot, tree.liveShape);
    RootSorted(tree.store.pages, tree.Cap(), tree.liveRoot, tree.liveShape);
    var more := (visited: seq<Entry>) => |SliceOps(visited, version)| < CHUNK_RECORDS;
    var r, visited, pageReads := TreeReads.Walk(tree.store, tree.liveRoot, resume, more, tree.liveShape);
    var ops := SliceOps(visited, version);
    last := [];
    converted := |ops|;
    SliceShape(s, resume, visited, version, more);
    if converted == 0 {
      return true, 0, last;
    }
    last := LastKey(visited).value;
    SliceAdvances(s, resume, visited, version, last);
    if Ready(tree, version, resume) {
      RoomyCounts(tree);
      SliceIsSmall(s, resume, visited, version, last, tree.Cap());
    }
    var answers;
    ok, answers := Run(tree, SliceTxn(visited, version, last));
  }

  lemma SliceShape(s: seq<Entry>, resume: Option<Key>, visited: seq<Entry>, version: U32, more: TreeReads.Visitor)
    requires Sorted(s) && visited == TreeReads.Delivered([], TreeReads.Beyond(s, resume), more)
    requires forall v :: more(v) == (|SliceOps(v, version)| < CHUNK_RECORDS)
    ensures visited <= TreeReads.Beyond(s, resume)
    ensures |SliceOps(visited, version)| <= CHUNK_RECORDS
    ensures LastKey(visited).Some? <==> |SliceOps(visited, version)| > 0
    ensures |SliceOps(visited, version)| == 0 ==> Pending(ToMap(s), resume) == {}
  {
    hide Lt, ToMap, IsReserved, Converted, TreeReads.Beyond, TreeReads.Delivered, TreeReads.Past, LastKey;
    var all := TreeReads.Beyond(s, resume);
    assert visited <= all by {
      TreeReads.DeliveredPrefix([], all, more);
      assert [] + all == all;
    }
    SliceIsPrefix(s, resume, visited);
    LastKeyIsLast(visited, version);
    assert |SliceOps([], version)| < CHUNK_RECORDS;
    SliceBound([], all, version, more);
    if |SliceOps(visited, version)| == 0 {
      assert visited == all by {
        assert more(visited);
        Unstopped([], all, more);
        assert [] + all == all;
      }
      SliceCount(visited, version);
      NothingPending(s, resume);
    }
  }

  lemma NothingPending(s: seq<Entry>, resume: Option<Key>)
    requires |SliceKeys(TreeReads.Beyond(s, resume))| == 0
    ensures Pending(ToMap(s), resume) == {}
  {
    hide ToMap, IsReserved, TreeReads.Beyond, TreeReads.Past;
    var visited := TreeReads.Beyond(s, resume);
    assert SliceKeys(visited) == {};
    forall k | k in Pending(ToMap(s), resume) ensures k in SliceKeys(visited) {
      MapKeys(s, k);
      var e :| e in s && e.key == k;
      BeyondHolds(s, resume, e);
    }
  }

  lemma {:induction false} SliceBound(done: seq<Entry>, rest: seq<Entry>, version: U32, more: TreeReads.Visitor)
    requires forall v :: more(v) == (|SliceOps(v, version)| < CHUNK_RECORDS)
    requires |SliceOps(done, version)| < CHUNK_RECORDS
    ensures |SliceOps(TreeReads.Delivered(done, rest, more), version)| <= CHUNK_RECORDS
    decreases rest
  {
    hide IsReserved, Converted;
    if rest != [] {
      var next := done + [rest[0]];
      assert next[..|next| - 1] == done;
      if more(next) {
        SliceBound(next, rest[1..], version, more);
      }
    }
  }

  /** One run, cut after `cut` slices when given. A store whose records do not all
      read is left exactly as it was found; a run that is cut or refused later
      leaves the same goal, a marker to resume from, and every key above the
      marker untouched; a finished run leaves the goal and the stamp. */
  method ConvertStore(tree: CowTree, cut: Option<nat>) returns (o: Outcome, ghost resume': Option<Key>)
    requires tree.Valid()
    modifies tree, tree.store
    ensures tree.Valid()
    ensures tree.liveValueBytes == old(tree.liveValueBytes) && tree.liveKeyBytes == old(tree.liveKeyBytes)
    ensures o.UpToDate? <==> PlanFor(old(Contents(tree))).Current?
    ensures o.UpToDate? || (o.Refused? && !o.rewriting) ==>
              tree.liveRoot == old(tree.liveRoot) && tree.liveShape == old(tree.liveShape) && unchanged(tree.store)
    ensures PlanFor(old(Contents(tree))).Refuse? ==> o == Refused(PlanFor(old(Contents(tree))).error, false)
    ensures PlanFor(old(Contents(tree))).Work? ==>
              var p := PlanFor(old(Contents(tree)));
              && (o.Refused? && !o.rewriting <==> !Readable(old(Contents(tree)), p.version, p.resume))
              && (o.Cut? ==> Partway(old(Contents(tree)), Contents(tree), p.version, p.resume, resume', o.converted))
              && (o.Refused? && o.rewriting ==>
                    exists n :: Partway(old(Contents(tree)), Contents(tree), p.version, p.resume, resume', n))
              && (o.Finished? ==>
                    && OwnRecords(Contents(tree)) == Goal(old(Contents(tree)), p.version, p.resume)
                    && Stamped(Contents(tree)) && PlanFor(Contents(tree)) == Current
                    && o.converted == |Pending(old(Contents(tree)), p.resume)|)
              && (old(Ready(tree, p.version, p.resume)) ==>
                    && (o.Cut? || o.Finished?) && HasRoom(tree) && (o.Cut? ==> Ready(tree, p.version, resume')))
    ensures o.Cut? ==> cut.Some?
  {
    hide Lt, ToMap, IsReserved, Converted, Ordered, Rep, PagesOf, Marker, Advanced, Pending, Once, PlanFor, Goal, Readable,
         RootOk, RootBag, OwnRecords, Stamped, Convertible, HalfPageOps, Roomy;
    ghost var m := Contents(tree);
    resume' := None;
    var plan := ReadPlan(tree);
    if plan.Current? {
      return UpToDate, None;
    }
    if plan.Refuse? {
      return Refused(plan.error, false), None;
    }
    var version := plan.version;
    var valid := Validate(tree, version, plan.resume);
    if !valid {
      return Refused(UnsupportedFormatVersion, false), None;
    }
    var resume, total, slices := plan.resume, 0, 0;
    NothingDone(m, version, resume);
    ghost var ready := Ready(tree, version, resume);
    while true
      invariant tree.Valid() && Partway(m, Contents(tree), version, plan.resume, resume, total)
      invariant ready ==> Ready(tree, version, resume)
      invariant tree.liveValueBytes == old(tree.liveValueBytes) && tree.liveKeyBytes == old(tree.liveKeyBytes)
      decreases |Pending(Contents(tree), resume)|
    {
      if cut == Some(slices) {
        return Cut(total), resume;
      }
      ghost var here := Contents(tree);
      var ok, converted, last := ConvertSlice(tree, version, resume);
      if !ok {
        return Refused(ValueTooLarge, true), resume;
      }
      if converted == 0 {
        break;
      }
      SliceStep(m, here, Contents(tree), version, plan.resume, resume, last, total, converted);
      StillConvertible(here, Contents(tree), version, resume, last, tree.Cap());
      resume, total, slices := Some(last), total + converted, slices + 1;
    }
    var ok := StampCurrent(tree, version, resume);
    if !ok {
      return Refused(ValueTooLarge, true), resume;
    }
    return Finished(total), None;
  }

  /** With nothing pending, drop the marker and record the layout. */
  method StampCurrent(tree: CowTree, ghost version: U32, ghost resume: Option<Key>) returns (ok: bool)
    requires tree.Valid() && Pending(Contents(tree), resume) == {}
    modifies tree, tree.store
    ensures tree.Valid()
    ensures tree.liveValueBytes == old(tree.liveValueBytes) && tree.liveKeyBytes == old(tree.liveKeyBytes)
    ensures !ok ==> Contents(tree) == old(Contents(tree))
    ensures ok ==> OwnRecords(Contents(tree)) == Goal(old(Contents(tree)), version, resume) && Stamped(Contents(tree))
    ensures ok ==> PlanFor(Contents(tree)) == Current
    ensures old(Ready(tree, version, resume)) ==> ok && HasRoom(tree)
  {
    hide ToMap, IsReserved, Converted, Pending, Goal, Readable, OwnRecords, Stamped, Convertible, HalfPageOps, Roomy, RootOk,
         RootBag, Once, PagesOf, MapAfter, PlanFor;
    if Ready(tree, version, resume) {
      StampIsSmall(Contents(tree), resume, tree.Cap());
    }
    Finishing(Contents(tree), version, resume);
    var answers;
    ok, answers := Run(tree, [EraseOp(MARKER_KEY), PutOp(FORMAT_KEY, Word4(CURRENT_VERSION))]);
    if ok {
      StampedIsCurrent(Contents(tree));
    }
  }

  method ReadPlan(tree: CowTree) returns (plan: Plan)
    requires tree.Valid()
    ensures plan == PlanFor(Contents(tree))
  {
    hide ToMap, RootOk, Once, PagesOf, RootBag;
    var marker := Lookup(tree, MARKER_KEY);
    if marker.value.Some? {
      var progress := ReadProgress(marker.value.value);
      if progress.Err? {
        return Refuse(progress.error);
      }
      var p := progress.value;
      if p.toVersion != CURRENT_VERSION || !CanRead(p.fromVersion) {
        return Refuse(UnsupportedFormatVersion);
      }
      return Work(p.fromVersion, Some(p.lastKey));
    }
    var format := Lookup(tree, FORMAT_KEY);
    if format.value.Some? {
      var version := TakeU32(format.value.value);
      if version.None? {
        return Refuse(Corrupt);
      }
      if version.value.0 == CURRENT_VERSION {
        return Current;
      }
      return if CanRead(version.value.0) then Work(version.value.0, None) else Refuse(UnsupportedFormatVersion);
    }
    CountIsZero(RootFlat(tree.liveRoot, tree.liveShape));
    return if tree.liveItemCount == 0 then Current else Work(PRE_MARKER_VERSION, None);
  }

  lemma CountIsZero(s: seq<Entry>)
    ensures |s| == 0 <==> ToMap(s) == map[]
  {
    if s != [] {
      assert s[0].key in ToMap(s);
    }
  }

  lemma SliceStep(m: map<Key, Value>, here: map<Key, Value>, next: map<Key, Value>, version: U32, resume0: Option<Key>,
                  resume: Option<Key>, last: Key, total: nat, converted: nat)
    requires Partway(m, here, version, resume0, resume, total) && Advanced(here, next, version, resume, last)
    requires |Pending(here, resume)| == |Pending(next, Some(last))| + converted && converted > 0
    ensures Partway(m, next, version, resume0, Some(last), total + converted)
    ensures |Pending(next, Some(last))| < |Pending(here, resume)|
  {
    hide Lt, IsReserved, Converted, Marker, Goal, Readable, TreeReads.Past;
    assert CanRead(version) by { WorkIsReadable(here); }
    GoalIsKept(here, next, version, resume, last);
    forall k | k in Pending(next, Some(last)) ensures k in Pending(m, resume0) && next[k] == m[k] {
      assert k in Pending(here, resume);
      UntouchedAbove(here, next, version, resume, last, k);
    }
  }

  lemma StillConvertible(m: map<Key, Value>, m': map<Key, Value>, version: U32, resume: Option<Key>, last: Key, cap: nat)
    requires Advanced(m, m', version, resume, last) && PlanFor(m) == Work(version, resume)
    ensures Convertible(m, resume, cap) ==> Convertible(m', Some(last), cap)
    ensures Readable(m, version, resume) ==> Readable(m', version, Some(last))
  {
    hide Pending, Advanced, PlanFor, ParseAs, Goal;
    WorkIsReadable(m);
    GoalIsKept(m, m', version, resume, last);
    forall k | k in Pending(m', Some(last)) ensures k in m' && k in m && k in Pending(m, resume) && m'[k] == m[k] {
      UntouchedAbove(m, m', version, resume, last, k);
    }
  }

  lemma WorkIsReadable(m: map<Key, Value>)
    ensures PlanFor(m).Work? ==> CanRead(PlanFor(m).version)
  {
  }

  lemma UntouchedAbove(m: map<Key, Value>, m': map<Key, Value>, version: U32, resume: Option<Key>, last: Key, k: Key)
    requires Advanced(m, m', version, resume, last) && k in Pending(m', Some(last))
    ensures k in m' && k in m && k in Pending(m, resume) && m'[k] == m[k]
  {
    hide Lt, IsReserved, Converted;
    LtIsTotalOrder();
    assert k in OwnRecords(m') && k in OwnRecords(m);
  }

  lemma NothingDone(m: map<Key, Value>, version: U32, resume: Option<Key>)
    requires PlanFor(m) == Work(version, resume)
    ensures Partway(m, m, version, resume, resume, 0)
  {
  }

  lemma Finishing(m: map<Key, Value>, version: U32, resume: Option<Key>)
    requires Pending(m, resume) == {}
    ensures var m' := MapAfter(m, [EraseOp(MARKER_KEY), PutOp(FORMAT_KEY, Word4(CURRENT_VERSION))]);
            OwnRecords(m') == Goal(m, version, resume) && Stamped(m')
  {
    hide Converted, Lt, Word4;
    var erase, stamp := EraseOp(MARKER_KEY), PutOp(FORMAT_KEY, Word4(CURRENT_VERSION));
    assert [erase, stamp] == [erase] + [stamp] && [erase] == [] + [erase];
    LastOp(m, [erase], stamp);
    LastOp(m, [], erase);
    var m' := MapAfter(m, [erase, stamp]);
    assert m' == (m - {MARKER_KEY})[FORMAT_KEY := Word4(CURRENT_VERSION)];
    assert FORMAT_KEY[14] != MARKER_KEY[14];
    forall k | k in m && !IsReserved(k) ensures !TreeReads.Past(resume, k) {
      assert k !in Pending(m, resume);
    }
  }

  /** Any number of cut runs, then one that finishes: every record was converted
      exactly once, and none was skipped. Where there is room it does finish. */
  method CutThenFinish(tree: CowTree, cuts: seq<nat>) returns (o: Outcome, total: nat)
    requires tree.Valid() && PlanFor(Contents(tree)).Work?
    requires var p := PlanFor(Contents(tree)); Readable(Contents(tree), p.version, p.resume)
    modifies tree, tree.store
    ensures tree.Valid() && (o.Finished? || (o.Refused? && o.rewriting))
    ensures tree.liveValueBytes == old(tree.liveValueBytes) && tree.liveKeyBytes == old(tree.liveKeyBytes)
    ensures var p := PlanFor(old(Contents(tree)));
            && (o.Finished? ==>
                  && OwnRecords(Contents(tree)) == Goal(old(Contents(tree)), p.version, p.resume) && Stamped(Contents(tree))
                  && total == |Pending(old(Contents(tree)), p.resume)|)
            && (old(Ready(tree, p.version, p.resume)) ==> o.Finished? && HasRoom(tree))
  {
    hide ToMap, Converted, PlanFor, Goal, Readable, RootOk, RootBag, OwnRecords, Stamped, Pending, Once, PagesOf, Convertible,
         Roomy;
    ghost var m := Contents(tree);
    ghost var p := PlanFor(m);
    ghost var resume := p.resume;
    ghost var ready := Ready(tree, p.version, p.resume);
    total := 0;
    for i := 0 to |cuts|
      invariant tree.liveValueBytes == old(tree.liveValueBytes) && tree.liveKeyBytes == old(tree.liveKeyBytes)
      invariant tree.Valid() && PlanFor(Contents(tree)) == Work(p.version, resume)
      invariant Goal(Contents(tree), p.version, resume) == Goal(m, p.version, p.resume)
      invariant Readable(Contents(tree), p.version, resume)
      invariant total + |Pending(Contents(tree), resume)| == |Pending(m, p.resume)|
      invariant ready ==> Ready(tree, p.version, resume)
    {
      ghost var resume';
      o, resume' := ConvertStore(tree, Some(cuts[i]));
      if o.Finished? {
        total := total + o.converted;
      }
      if !o.Cut? {
        return;
      }
      total, resume := total + o.converted, resume';
    }
    ghost var ignored;
    o, ignored := ConvertStore(tree, None);
    if o.Finished? {
      total := total + o.converted;
    }
  }
}
