/** The stream operations on one key: what every one of them keeps, over any run. */
module StreamKeys {
  import opened Wrappers
  import opened StreamValues
  import opened StreamClaims

  datatype Trim = MaxLen(threshold: nat) | FromId(minId: StreamId)

  datatype GroupStart = Beginning | End | At(id: StreamId)

  function ResolveCursor(start: GroupStart, s: Stream): StreamId {
    match start
    case Beginning => MIN_ID
    case End => s.lastId
    case At(id) => id
  }

  /** The ID an append gets. It is always above the last one; an automatic ID is
      the least such ID at or after the clock, a partial one the least within its
      millisecond, and each is refused exactly when there is none. */
  function AssignedId(s: Stream, nowMs: U64, requested: Option<StreamId>, seqAuto: bool): (r: Result<StreamId>)
    ensures r.Ok? ==> Less(s.lastId, r.value)
    ensures requested.None? ==> && (r.Ok? <==> nowMs > s.lastId.ms || s.lastId.seqNo != U64_MAX)
                                && (r.Ok? ==> forall x | Less(s.lastId, x) && nowMs <= x.ms :: AtMost(r.value, x))
    ensures requested.Some? && !seqAuto ==> && (r.Ok? <==> Less(s.lastId, requested.value))
                                            && (r.Ok? ==> r.value == requested.value)
    ensures requested.Some? && seqAuto ==>
              && (r.Ok? <==> exists n :: Less(s.lastId, StreamId(requested.value.ms, n)))
              && (r.Ok? ==> r.value.ms == requested.value.ms
                            && forall x | Less(s.lastId, x) && x.ms == r.value.ms :: AtMost(r.value, x))
  {
    var chosen :=
      if requested.None? then
        var ms := if nowMs > s.lastId.ms then nowMs else s.lastId.ms;
        Numbered(s.lastId, ms)
      else if seqAuto then
        if requested.value.ms < s.lastId.ms then Err(InvalidArg) else Numbered(s.lastId, requested.value.ms)
      else Ok(requested.value);
    if chosen.Err? then chosen
    else if chosen.value == MIN_ID then Err(InvalidArg)
    else if (s.entriesAdded != 0 || s.entries != [] || s.lastId != MIN_ID) && AtMost(chosen.value, s.lastId)
    then Err(InvalidArg)
    else
      assert requested.Some? && seqAuto ==> Less(s.lastId, StreamId(requested.value.ms, chosen.value.seqNo));
      chosen
  }

  /** The next ID within `ms`; a sequence that would wrap is refused. */
  function Numbered(last: StreamId, ms: U64): Result<StreamId> {
    if ms != last.ms then Ok(StreamId(ms, 0))
    else if last.seqNo == U64_MAX then Err(InvalidArg)
    else Ok(StreamId(ms, last.seqNo + 1))
  }

  // ---- Invariants ----

  ghost predicate EntriesOk(entries: seq<StreamEntry>, lastId: StreamId) {
    Ascending(entries) && forall e | e in entries :: e.id != MIN_ID && AtMost(e.id, lastId)
  }

  ghost predicate NamesDistinct(groups: seq<Group>) {
    forall i, j | 0 <= i < j < |groups| :: groups[i].name != groups[j].name
  }

  /** `loose` names the groups that saw XGROUP SETID or FORCE. */
  ghost predicate StreamOk(s: Stream, loose: set<string>) {
    && EntriesOk(s.entries, s.lastId) && NamesDistinct(s.groups)
    && forall g | g in s.groups :: GroupOk(g, g.name in loose)
  }

  lemma GroupUpdated(s: Stream, i: nat, g: Group, loose: set<string>, loose': set<string>)
    requires StreamOk(s, loose) && i < |s.groups| && g.name == s.groups[i].name && GroupOk(g, g.name in loose')
    requires loose <= loose' <= loose + {g.name}
    ensures StreamOk(s.(groups := s.groups[i := g]), loose')
  {
    hide GroupOk, EntriesOk;
    var groups := s.groups[i := g];
    forall h | h in groups ensures GroupOk(h, h.name in loose') {
      var j :| 0 <= j < |groups| && groups[j] == h;
      if j != i {
        assert h == s.groups[j] && h in s.groups;
      }
    }
  }

  lemma EntriesDropped(entries: seq<StreamEntry>, f: StreamEntry -> bool, lastId: StreamId)
    requires EntriesOk(entries, lastId)
    ensures EntriesOk(Keep(entries, f), lastId)
  {
    KeepAscending(entries, f);
    KeepMembers(entries, f);
  }

  ghost predicate Increasing(ids: seq<StreamId>) {
    forall i, j | 0 <= i < j < |ids| :: Less(ids[i], ids[j])
  }

  ghost predicate AllUpTo(ids: seq<StreamId>, last: StreamId) {
    forall id | id in ids :: AtMost(id, last)
  }

  // ---- Where a group starts ----

  /** A group at the beginning is owed every entry, one at the end none of those
      there and all that come, one at an ID exactly those above it. */
  lemma StartDelivers(s: Stream, start: GroupStart, more: seq<StreamEntry>)
    requires EntriesOk(s.entries, s.lastId) && forall e | e in more :: Less(s.lastId, e.id)
    ensures var owed := Newer(s.entries + more, ResolveCursor(start, s));
            match start
            case Beginning => owed == s.entries + more
            case End => owed == more
            case At(id) => forall e :: e in owed <==> e in s.entries + more && Less(id, e.id)
  {
    var all := s.entries + more;
    match start
    case Beginning =>
      forall e | e in all ensures Less(MIN_ID, e.id) {
      }
      KeepAll(all, (e: StreamEntry) => Less(MIN_ID, e.id));
    case End =>
      forall i | 0 <= i < |all| ensures Less(s.lastId, all[i].id) <==> |s.entries| <= i {
        if i < |s.entries| {
          assert all[i] in s.entries;
        } else {
          assert all[i] == more[i - |s.entries|];
        }
      }
      KeepRun(all, |s.entries|, |all|, (e: StreamEntry) => Less(s.lastId, e.id));
    case At(id) => KeepMembers(all, (e: StreamEntry) => Less(id, e.id));
  }

  // ---- Trimming ----

  /** What a trim leaves. */
  ghost function Trimmed(entries: seq<StreamEntry>, trim: Trim): seq<StreamEntry> {
    match trim
    case MaxLen(n) => if |entries| > n then entries[|entries| - n..] else entries
    case FromId(minId) => Keep(entries, (e: StreamEntry) => AtMost(minId, e.id))
  }

  /** MAXLEN keeps as many as it may, and none older than one it drops; MINID keeps
      exactly those from the ID on. */
  lemma TrimKeepsNewest(entries: seq<StreamEntry>, trim: Trim)
    requires Ascending(entries)
    ensures forall k | k in Trimmed(entries, trim) :: k in entries
    ensures trim.MaxLen? ==>
              && |Trimmed(entries, trim)| == Min(trim.threshold, |entries|)
              && forall d, k | d in entries && d !in Trimmed(entries, trim) && k in Trimmed(entries, trim) :: Less(d.id, k.id)
    ensures trim.FromId? ==> forall e | e in entries :: e in Trimmed(entries, trim) <==> AtMost(trim.minId, e.id)
  {
    match trim
    case MaxLen(n) =>
      var out := Trimmed(entries, trim);
      var cut := |entries| - |out|;
      assert entries == entries[..cut] + out;
      forall d, k | d in entries && d !in out && k in out ensures Less(d.id, k.id) {
        var i :| 0 <= i < cut && entries[i] == d;
        var j :| 0 <= j < |out| && out[j] == k;
        assert entries[cut + j] == k;
      }
    case FromId(minId) => KeepMembers(entries, (e: StreamEntry) => AtMost(minId, e.id));
  }

  method ApplyTrim(entries: seq<StreamEntry>, trim: Trim) returns (out: seq<StreamEntry>, removed: nat)
    requires Ascending(entries)
    ensures out == Trimmed(entries, trim) && |out| + removed == |entries|
  {
    out := entries;
    match trim {
      case MaxLen(n) =>
        if |entries| > n {
          out := entries[|entries| - n..];
        }
      case FromId(minId) =>
        var cut := LowerBound(entries, minId);
        KeepRun(entries, cut, |entries|, (e: StreamEntry) => AtMost(minId, e.id));
        assert entries[cut..|entries|] == entries[cut..];
        out := entries[cut..];
    }
    removed := |entries| - |out|;
  }

  lemma TrimKeepsOrder(entries: seq<StreamEntry>, trim: Trim, lastId: StreamId)
    requires EntriesOk(entries, lastId)
    ensures EntriesOk(Trimmed(entries, trim), lastId)
  {
    if trim.FromId? {
      EntriesDropped(entries, (e: StreamEntry) => AtMost(trim.minId, e.id), lastId);
    }
  }

  // ---- Ranges ----

  /** The naive reading of a range. */
  ghost function InRange(entries: seq<StreamEntry>, start: StreamId, end: StreamId): seq<StreamEntry> {
    Keep(entries, (e: StreamEntry) => AtMost(start, e.id) && AtMost(e.id, end))
  }

  /** The newest first, and nothing lost. */
  lemma ReversedDescends(entries: seq<StreamEntry>)
    requires Ascending(entries)
    ensures forall i, j | 0 <= i < j < |Reversed(entries)| :: Less(Reversed(entries)[j].id, Reversed(entries)[i].id)
    ensures |Reversed(entries)| == |entries| && forall e :: e in Reversed(entries) <==> e in entries
  {
    var r := Reversed(entries);
    forall e ensures e in r <==> e in entries {
      if e in r {
        var i :| 0 <= i < |r| && r[i] == e;
        assert entries[|entries| - 1 - i] == e;
      }
      if e in entries {
        var i :| 0 <= i < |entries| && entries[i] == e;
        assert r[|entries| - 1 - i] == e;
      }
    }
  }

  /** Two binary searches read exactly what the filter would. */
  method ReadRange(entries: seq<StreamEntry>, start: StreamId, end: StreamId, count: nat, reverse: bool)
    returns (out: seq<StreamEntry>)
    requires Ascending(entries)
    ensures out == FirstCount(if reverse then Reversed(InRange(entries, start, end)) else InRange(entries, start, end), count)
  {
    if Less(end, start) {
      KeepNone(entries, (e: StreamEntry) => AtMost(start, e.id) && AtMost(e.id, end));
      return [];
    }
    var lo := LowerBound(entries, start);
    var hi := UpperBound(entries, end);
    assert hi < |entries| ==> !AtMost(entries[hi].id, end);
    KeepRun(entries, lo, hi, (e: StreamEntry) => AtMost(start, e.id) && AtMost(e.id, end));
    out := FirstCount(if reverse then Reversed(entries[lo..hi]) else entries[lo..hi], count);
  }

  // ---- The pending history of one consumer ----

  ghost function OwnRows(pel: seq<Pending>, consumer: string, after: StreamId): seq<Pending> {
    if pel == [] then []
    else
      var last := pel[|pel| - 1];
      OwnRows(pel[..|pel| - 1], consumer, after)
      + if last.consumer == consumer && Less(after, last.id) then [last] else []
  }

  /** Exactly the consumer's rows above the ID, in the list's order. */
  lemma {:induction false} OwnRowsAre(pel: seq<Pending>, consumer: string, after: StreamId)
    ensures OwnRows(pel, consumer, after) == Keep(pel, (p: Pending) => p.consumer == consumer && Less(after, p.id))
  {
    if pel != [] {
      var init, last := pel[..|pel| - 1], pel[|pel| - 1];
      OwnRowsAre(init, consumer, after);
      assert pel == init + [last];
      KeepConcat(init, [last], (p: Pending) => p.consumer == consumer && Less(after, p.id));
      assert [last][1..] == [];
    }
  }

  /** An entry still there, or an empty one for an ID whose entry is gone. */
  ghost predicate Shows(entries: seq<StreamEntry>, e: StreamEntry, id: StreamId) {
    e.id == id && if Present(entries, id) then e in entries else e.fields == []
  }

  method Reread(entries: seq<StreamEntry>, pel: seq<Pending>, consumer: string, after: StreamId, count: nat)
    returns (out: seq<StreamEntry>)
    requires Ascending(entries)
    ensures var rows := FirstCount(OwnRows(pel, consumer, after), count);
            |out| == |rows| && forall i | 0 <= i < |out| :: Shows(entries, out[i], rows[i].id)
  {
    hide Present;
    out := [];
    assert pel[..0] == [] && pel[..|pel|] == pel;
    for i := 0 to |pel|
      invariant var rows := OwnRows(pel[..i], consumer, after);
                && |out| == |rows| && (count != 0 ==> |out| <= count)
                && forall j | 0 <= j < |out| :: Shows(entries, out[j], rows[j].id)
    {
      var p := pel[i];
      assert pel[..i + 1][..i] == pel[..i];
      if p.consumer != consumer || AtMost(p.id, after) {
        continue;
      }
      if count != 0 && |out| >= count {
        RowsGrow(pel, consumer, after, i);
        break;
      }
      var at := FindEntry(entries, p.id);
      var e := if at.Some? then entries[at.value] else StreamEntry(p.id, []);
      out := out + [e];
    }
  }

  lemma {:induction false} RowsGrow(pel: seq<Pending>, consumer: string, after: StreamId, i: nat)
    requires i <= |pel|
    ensures OwnRows(pel[..i], consumer, after) <= OwnRows(pel, consumer, after)
    decreases |pel| - i
  {
    if i == |pel| {
      assert pel[..i] == pel;
    } else {
      RowsGrow(pel, consumer, after, i + 1);
      assert pel[..i + 1][..i] == pel[..i];
    }
  }

  // ---- The key ----

  class StreamKey {
    var value: Option<Stream>

    // The IDs assigned so far, whether XSETID was used, and the groups that saw
    // XGROUP SETID or FORCE.
    ghost var issued: seq<StreamId>
    ghost var rewound: bool
    ghost var loose: set<string>

    ghost predicate Valid()
      reads this
    {
      && StreamOk(Loaded(), loose)
      && (!rewound ==> Increasing(issued) && AllUpTo(issued, Loaded().lastId))
    }

    /** The stream, or an empty one when the key is absent. */
    function Loaded(): Stream
      reads this
    {
      if value.Some? then value.value else EMPTY_STREAM
    }

    constructor ()
      ensures Valid() && value == None && issued == [] && !rewound && loose == {}
    {
      value, issued, rewound, loose := None, [], false, {};
    }

    /** XADD. */
    method Add(nowMs: U64, requested: Option<StreamId>, seqAuto: bool, fields: seq<(string, string)>, trim: Option<Trim>,
               noMkStream: bool)
      returns (r: Result<StreamId>)
      requires Valid()
      modifies this
      ensures Valid() && rewound == old(rewound) && loose == old(loose)
      ensures r.Err? ==> unchanged(this)
      ensures r == if old(value).None? && noMkStream then Err(KeyNotFound)
                   else AssignedId(old(Loaded()), nowMs, requested, seqAuto)
      ensures r.Ok? ==>
                var was, entries := old(Loaded()), old(Loaded()).entries + [StreamEntry(r.value, fields)];
                && issued == old(issued) + [r.value]
                && (!rewound ==> forall id | id in old(issued) :: Less(id, r.value))
                && value == Some(was.(entries := if trim.Some? then Trimmed(entries, trim.value) else entries,
                                      lastId := r.value, entriesAdded := was.entriesAdded + 1))
    {
      hide GroupOk;
      var s := Loaded();
      if value.None? && noMkStream {
        return Err(KeyNotFound);
      }
      r := AssignedId(s, nowMs, requested, seqAuto);
      if r.Err? {
        return;
      }
      var entries := s.entries + [StreamEntry(r.value, fields)];
      assert EntriesOk(entries, r.value);
      if trim.Some? {
        TrimKeepsOrder(entries, trim.value, r.value);
        var removed;
        entries, removed := ApplyTrim(entries, trim.value);
      }
      value := Some(s.(entries := entries, lastId := r.value, entriesAdded := s.entriesAdded + 1));
      IssuedGrows(issued, s.lastId, r.value);
      issued := issued + [r.value];
    }

    /** XTRIM. */
    method TrimTo(trim: Trim) returns (evicted: nat)
      requires Valid()
      modifies `value
      ensures Valid() && value.Some? == old(value.Some?)
      ensures Loaded() == old(Loaded()).(entries := Trimmed(old(Loaded()).entries, trim))
      ensures evicted == |old(Loaded()).entries| - |Loaded().entries|
    {
      hide GroupOk;
      var s := Loaded();
      TrimKeepsOrder(s.entries, trim, s.lastId);
      var entries;
      entries, evicted := ApplyTrim(s.entries, trim);
      if evicted > 0 {
        value := Some(s.(entries := entries));
      } else {
        TrimNothing(s.entries, trim);
      }
    }

    /** XDEL. */
    method Delete(ids: seq<StreamId>) returns (removed: nat)
      requires Valid()
      modifies `value
      ensures Valid()
      ensures Loaded().entries == Keep(old(Loaded()).entries, (e: StreamEntry) => e.id !in ids)
      ensures removed == |old(Loaded()).entries| - |Loaded().entries|
      ensures Loaded() == old(Loaded()).(entries := Loaded().entries, maxDeletedId := Loaded().maxDeletedId)
      ensures AtMost(old(Loaded()).maxDeletedId, Loaded().maxDeletedId)
      ensures forall e | e in old(Loaded()).entries && e.id in ids :: AtMost(e.id, Loaded().maxDeletedId)
      ensures Loaded().maxDeletedId != old(Loaded()).maxDeletedId ==>
                exists e | e in old(Loaded()).entries :: e.id in ids && e.id == Loaded().maxDeletedId
      ensures value.Some? == old(value.Some?)
    {
      hide GroupOk, Keep;
      var s := Loaded();
      var entries, top;
      entries, removed, top := DeleteIds(s.entries, ids, s.maxDeletedId, s.lastId);
      if removed > 0 {
        value := Some(s.(entries := entries, maxDeletedId := top));
      }
    }

    /** XSETID: the last ID may go anywhere at or above the newest entry. */
    method SetId(lastId: StreamId, entriesAdded: Option<nat>, maxDeletedId: Option<StreamId>) returns (r: Result<()>)
      requires Valid()
      modifies this
      ensures Valid() && loose == old(loose)
      ensures r.Err? ==> unchanged(this)
      ensures r.Ok? <==> old(value).Some? && (forall e | e in old(Loaded()).entries :: AtMost(e.id, lastId))
      ensures r.Ok? ==> && rewound && issued == old(issued)
                        && Loaded() == old(Loaded()).(lastId := lastId,
                              entriesAdded := entriesAdded.UnwrapOr(old(Loaded()).entriesAdded),
                              maxDeletedId := maxDeletedId.UnwrapOr(old(Loaded()).maxDeletedId))
    {
      hide GroupOk;
      if value.None? {
        return Err(KeyNotFound);
      }
      var s := Loaded();
      if s.entries != [] && Less(lastId, s.entries[|s.entries| - 1].id) {
        assert s.entries[|s.entries| - 1] in s.entries;
        return Err(InvalidArg);
      }
      NewestIsLast(s.entries, lastId);
      value := Some(s.(lastId := lastId, entriesAdded := entriesAdded.UnwrapOr(s.entriesAdded),
                       maxDeletedId := maxDeletedId.UnwrapOr(s.maxDeletedId)));
      rewound := true;
      return Ok(());
    }

    /** XRANGE and XREVRANGE. */
    method Range(start: StreamId, end: StreamId, count: nat, reverse: bool) returns (out: seq<StreamEntry>)
      requires Valid()
      ensures var hits := InRange(Loaded().entries, start, end);
              out == FirstCount(if reverse then Reversed(hits) else hits, count)
    {
      out := ReadRange(Loaded().entries, start, end, count, reverse);
    }

    /** XREAD: everything after an ID; nothing is after the largest one. */
    method Read(after: StreamId, count: nat) returns (out: seq<StreamEntry>)
      requires Valid()
      ensures out == FirstCount(Newer(Loaded().entries, after), count)
    {
      hide GroupOk;
      if after == MAX_ID {
        KeepNone(Loaded().entries, (e: StreamEntry) => Less(after, e.id));
        return [];
      }
      out := ReadRange(Loaded().entries, Next(after), MAX_ID, count, false);
      KeepSame(Loaded().entries, (e: StreamEntry) => AtMost(Next(after), e.id) && AtMost(e.id, MAX_ID),
               (e: StreamEntry) => Less(after, e.id));
    }

    method FindGroup(name: string) returns (r: Option<nat>)
      ensures r.Some? ==> r.value < |Loaded().groups| && Loaded().groups[r.value].name == name
      ensures r.None? ==> forall g | g in Loaded().groups :: g.name != name
    {
      var groups := Loaded().groups;
      for i := 0 to |groups|
        invariant forall j | 0 <= j < i :: groups[j].name != name
      {
        if groups[i].name == name {
          return Some(i);
        }
      }
      return None;
    }

    method GroupCreate(name: string, start: GroupStart, mkStream: bool) returns (r: Result<()>)
      requires Valid()
      modifies this
      ensures Valid() && issued == old(issued) && rewound == old(rewound)
      ensures r.Err? ==> unchanged(this)
      ensures r.Ok? <==> (old(value).Some? || mkStream) && forall g | g in old(Loaded()).groups :: g.name != name
      ensures r.Ok? ==> && loose == old(loose) - {name}
                        && value == Some(old(Loaded()).(groups := old(Loaded()).groups
                               + [Group(name, ResolveCursor(start, old(Loaded())), 0, {}, [])]))
    {
      hide EntriesOk;
      if value.None? && !mkStream {
        return Err(KeyNotFound);
      }
      var at := FindGroup(name);
      if at.Some? {
        assert Loaded().groups[at.value] in Loaded().groups;
        return Err(KeyExists);
      }
      var s := Loaded();
      value := Some(s.(groups := s.groups + [Group(name, ResolveCursor(start, s), 0, {}, [])]));
      loose := loose - {name};
      return Ok(());
    }

    /** XGROUP SETID: the cursor may move back, so the group becomes loose. */
    method GroupSetId(name: string, start: GroupStart) returns (r: Result<()>)
      requires Valid()
      modifies this
      ensures Valid() && issued == old(issued) && rewound == old(rewound)
      ensures r.Err? ==> unchanged(this)
      ensures r.Ok? <==> exists g | g in old(Loaded()).groups :: g.name == name
      ensures r.Ok? ==> && loose == old(loose) + {name}
                        && exists i | 0 <= i < |old(Loaded()).groups| ::
                             && old(Loaded()).groups[i].name == name
                             && Loaded() == old(Loaded()).(groups := old(Loaded()).groups[i :=
                                  old(Loaded()).groups[i].(lastDelivered := ResolveCursor(start, old(Loaded())))])
    {
      hide EntriesOk, SortedPel, StrictPel, UpTo, NonZero;
      var at := FindGroup(name);
      if at.None? {
        return Err(KeyNotFound);
      }
      var s := Loaded();
      var g := s.groups[at.value];
      assert g in s.groups;
      var moved := g.(lastDelivered := ResolveCursor(start, s));
      GroupUpdated(s, at.value, moved, loose, loose + {name});
      value := Some(s.(groups := s.groups[at.value := moved]));
      loose := loose + {name};
      return Ok(());
    }

    /** Store a changed group back. */
    method PutGroup(at: nat, g: Group, ghost loose': set<string>)
      requires Valid() && at < |Loaded().groups| && g.name == Loaded().groups[at].name
      requires loose <= loose' <= loose + {g.name} && GroupOk(g, g.name in loose')
      modifies `value, `loose
      ensures Valid() && loose == loose' && value == Some(old(Loaded()).(groups := old(Loaded()).groups[at := g]))
    {
      hide EntriesOk, GroupOk;
      GroupUpdated(Loaded(), at, g, loose, loose');
      value := Some(Loaded().(groups := Loaded().groups[at := g]));
      loose := loose';
    }

    /** XGROUP DELCONSUMER. */
    method ConsumerDelete(name: string, consumer: string) returns (r: Result<nat>, ghost at: nat)
      requires Valid()
      modifies `value, `loose
      ensures Valid() && loose == old(loose)
      ensures r.Err? ==> unchanged(this)
      ensures r.Ok? <==> exists g | g in old(Loaded()).groups :: g.name == name
      ensures r.Err? ==> r.error == KeyNotFound
      ensures r.Ok? ==>
                && at < |old(Loaded()).groups|
                && var s, g := old(Loaded()), old(Loaded()).groups[at];
                   var left := Keep(g.pel, (p: Pending) => p.consumer != consumer);
                   && g.name == name && r.value == |g.pel| - |left|
                   && Loaded() == s.(groups := s.groups[at := g.(pel := left, consumers := g.consumers - {consumer})])
    {
      hide EntriesOk, GroupOk, Keep;
      at := 0;
      var found := FindGroup(name);
      if found.None? {
        return Err(KeyNotFound), 0;
      }
      at := found.value;
      var g := Loaded().groups[found.value];
      assert g in Loaded().groups;
      var f := (p: Pending) => p.consumer != consumer;
      var pel := Keep(g.pel, f);
      KeepMembers(g.pel, f);
      if pel == g.pel && consumer !in g.consumers {
        SameGroup(Loaded(), at, g.(pel := pel, consumers := g.consumers - {consumer}));
        return Ok(0), at;
      }
      var g' := g.(pel := pel, consumers := g.consumers - {consumer});
      assert GroupOk(g', g'.name in loose) by { PelDropped(g, g', f, g.name in loose); }
      PutGroup(found.value, g', loose);
      return Ok(|g.pel| - |pel|), at;
    }

    /** XGROUP CREATECONSUMER. */
    method ConsumerCreate(name: string, consumer: string) returns (r: Result<bool>, ghost at: nat)
      requires Valid()
      modifies `value, `loose
      ensures Valid() && loose == old(loose)
      ensures r.Err? ==> unchanged(this)
      ensures r.Ok? <==> exists g | g in old(Loaded()).groups :: g.name == name
      ensures r.Err? ==> r.error == KeyNotFound
      ensures r.Ok? ==>
                && at < |old(Loaded()).groups|
                && var s, g := old(Loaded()), old(Loaded()).groups[at];
                   && g.name == name && r.value == (consumer !in g.consumers)
                   && Loaded() == s.(groups := s.groups[at := g.(consumers := g.consumers + {consumer})])
    {
      hide EntriesOk, GroupOk;
      at := 0;
      var found := FindGroup(name);
      if found.None? {
        return Err(KeyNotFound), 0;
      }
      at := found.value;
      var g := Loaded().groups[found.value];
      assert g in Loaded().groups;
      var touched := g.(consumers := g.consumers + {consumer});
      if consumer in g.consumers {
        SameGroup(Loaded(), at, touched);
        return Ok(false), at;
      }
      GroupTouched(g, touched, g.name in loose);
      PutGroup(found.value, touched, loose);
      return Ok(true), at;
    }

    /** XGROUP DESTROY. */
    method GroupDestroy(name: string) returns (r: Result<bool>)
      requires Valid()
      modifies this
      ensures Valid() && issued == old(issued) && rewound == old(rewound) && loose == old(loose)
      ensures r.Ok? <==> old(value).Some?
      ensures r.Err? ==> r.error == KeyNotFound && unchanged(this)
      ensures r.Ok? ==> && Loaded() == old(Loaded()).(groups := Keep(old(Loaded()).groups, (g: Group) => g.name != name))
                        && (r.value <==> exists g | g in old(Loaded()).groups :: g.name == name)
    {
      hide EntriesOk, GroupOk, Keep;
      if value.None? {
        return Err(KeyNotFound);
      }
      var s := Loaded();
      var at := FindGroup(name);
      if at.None? {
        KeepAll(s.groups, (g: Group) => g.name != name);
        return Ok(false);
      }
      assert s.groups[at.value] in s.groups;
      GroupsDropped(s, (g: Group) => g.name != name, loose);
      value := Some(s.(groups := Keep(s.groups, (g: Group) => g.name != name)));
      return Ok(true);
    }

    /** XREADGROUP: with `>` (no `after`) deliver new entries; otherwise show this
        consumer's own pending history after an ID. */
    method ReadGroup(name: string, consumer: string, after: Option<StreamId>, count: nat, noAck: bool, nowMs: U64)
      returns (r: Result<seq<StreamEntry>>, ghost at: nat)
      requires Valid()
      modifies `value, `loose
      ensures Valid() && loose == old(loose)
      ensures r.Err? ==> unchanged(this)
      ensures r.Ok? <==> exists g | g in old(Loaded()).groups :: g.name == name
      ensures r.Err? ==> r.error == KeyNotFound
      ensures r.Ok? ==> at < |old(Loaded()).groups| == |Loaded().groups|
      ensures r.Ok? ==>
                var s, g, g' := old(Loaded()), old(Loaded()).groups[at], Loaded().groups[at];
                && g.name == name && Loaded() == s.(groups := s.groups[at := g'])
                && g'.name == name && g'.consumers == g.consumers + {consumer}
                && (after.None? ==>
                      && g'.entriesRead == g.entriesRead + |r.value|
                      && r.value == FirstCount(Newer(s.entries, g.lastDelivered), count)
                      && g'.lastDelivered == (if r.value == [] then g.lastDelivered else r.value[|r.value| - 1].id)
                      && multiset(g'.pel) == multiset(g.pel + if noAck then [] else Rows(r.value, consumer, nowMs))
                      && (name !in loose ==> g'.pel == g.pel + if noAck then [] else Rows(r.value, consumer, nowMs))
                      && (StrictPel(g'.pel) <==>
                            StrictPel(g.pel) && (noAck || forall e | e in r.value :: !HasId(g.pel, e.id))))
                && (after.Some? ==>
                      && g' == g.(consumers := g.consumers + {consumer})
                      && var rows := FirstCount(OwnRows(g.pel, consumer, after.value), count);
                         |r.value| == |rows| && forall i | 0 <= i < |rows| :: Shows(s.entries, r.value[i], rows[i].id))
    {
      hide EntriesOk, GroupOk, FirstCount, Newer, OwnRows, Shows, SortedPel, StrictPel, Ascending, HasId;
      at := 0;
      var found := FindGroup(name);
      if found.None? {
        return Err(KeyNotFound), 0;
      }
      at := found.value;
      var s := Loaded();
      var g := s.groups[found.value];
      assert g in s.groups;
      var created := consumer !in g.consumers;
      var touched := g.(consumers := g.consumers + {consumer});
      assert Ascending(s.entries) by { OkAscends(s, loose); }
      GroupTouched(g, touched, g.name in loose);
      if after.None? {
        var out, g' := Deliver(s.entries, touched, consumer, count, noAck, nowMs);
        GroupDelivered(s.entries, s.lastId, touched, g', count, out, noAck, consumer, nowMs, g.name in loose);
        if out != [] || created {
          PutGroup(found.value, g', loose);
        } else {
          SameGroup(s, found.value, g');
        }
        return Ok(out), at;
      }
      var out := Reread(s.entries, touched.pel, consumer, after.value, count);
      if created {
        PutGroup(found.value, touched, loose);
      } else {
        SameGroup(s, found.value, touched);
      }
      return Ok(out), at;
    }

    /** XACK. */
    method Ack(name: string, ids: seq<StreamId>) returns (r: Result<nat>, ghost at: nat)
      requires Valid()
      modifies `value, `loose
      ensures Valid() && loose == old(loose)
      ensures r.Err? ==> unchanged(this)
      ensures r.Ok? <==> exists g | g in old(Loaded()).groups :: g.name == name
      ensures r.Err? ==> r.error == KeyNotFound
      ensures r.Ok? ==>
                && at < |old(Loaded()).groups|
                && var s, g := old(Loaded()), old(Loaded()).groups[at];
                   var left := Without(g.pel, ids);
                   && g.name == name && Loaded() == s.(groups := s.groups[at := g.(pel := left)])
                   && r.value == |g.pel| - |left|
    {
      hide EntriesOk, GroupOk, Keep, Without;
      at := 0;
      var found := FindGroup(name);
      if found.None? {
        return Err(KeyNotFound), 0;
      }
      at := found.value;
      var s := Loaded();
      var g := s.groups[found.value];
      assert g in s.groups;
      var pel, acked := Acknowledge(g.pel, ids);
      AckNothing(g.pel, ids);
      if acked == 0 {
        SameGroup(s, found.value, g.(pel := pel));
        return Ok(0), at;
      }
      var g' := g.(pel := pel);
      assert GroupOk(g', g'.name in loose) by { PelWithout(g, g', ids, g.name in loose); }
      PutGroup(found.value, g', loose);
      return Ok(acked), at;
    }

    /** XCLAIM. FORCE may make an entry pending ahead of the cursor, so it makes
        the group loose. */
    method ClaimIds(name: string, consumer: string, minIdleMs: nat, ids: seq<StreamId>, justId: bool, force: bool, nowMs: U64)
      returns (r: Result<ClaimResult>, ghost at: nat, ghost rows: seq<Pending>)
      requires Valid()
      modifies `value, `loose
      ensures Valid() && old(loose) <= loose <= old(loose) + {name} && (!force ==> loose == old(loose))
      ensures r.Err? ==> unchanged(this)
      ensures r.Ok? <==> exists g | g in old(Loaded()).groups :: g.name == name
      ensures r.Err? ==> r.error == KeyNotFound
      ensures r.Ok? ==> at < |old(Loaded()).groups| && old(Loaded()).groups[at].name == name
      ensures r.Ok? ==>
                var s, g := old(Loaded()), old(Loaded()).groups[at];
                if force
                then && (forall id :: HasId(rows, id) <==> HasId(g.pel, id) || (id in ids && Present(s.entries, id)))
                     && (forall p | p in g.pel :: p in rows)
                     && forall q | q in rows && q !in g.pel :: q == Pending(q.id, consumer, nowMs, 0)
                else rows == g.pel
      ensures r.Ok? ==>
                var s, g := old(Loaded()), old(Loaded()).groups[at];
                var c := Claim(s.entries, ByIds(ids), consumer, nowMs, minIdleMs, justId);
                && r.value.ids == c.TakenIds(rows) && r.value.deleted == c.GoneIds(rows)
                && |r.value.entries| == (if justId then 0 else |r.value.ids|)
                && (forall i | 0 <= i < |r.value.entries| ::
                      r.value.entries[i] in s.entries && r.value.entries[i].id == r.value.ids[i])
                && if r.value.ids == [] && r.value.deleted == [] then value == old(value)
                   else && |Loaded().groups| == |s.groups|
                        && var g' := Loaded().groups[at];
                           && Loaded() == s.(groups := s.groups[at := g'])
                           && g' == g.(consumers := g.consumers + {consumer}, pel := g'.pel)
                           && multiset(g'.pel) == multiset(Without(c.Marked(rows), r.value.deleted))
                           && HandsOver(rows, g'.pel, r.value, consumer, nowMs, justId)
    {
      hide EntriesOk, GroupOk, Keep, Without, SortedPel, StrictPel, NonZero, Ascending, Present, HandsOver, HasId;
      at, rows := 0, [];
      var found := FindGroup(name);
      if found.None? {
        return Err(KeyNotFound), 0, [];
      }
      at := found.value;
      var s := Loaded();
      var g := s.groups[found.value];
      assert g in s.groups;
      assert Ascending(s.entries) by { OkAscends(s, loose); }
      ghost var strict := force || name in loose;
      var pel := g.pel;
      if force {
        assert NonZero(g.pel) && forall e | e in s.entries :: e.id != MIN_ID by { OkNonZero(s, g, loose); }
        pel := ForcePending(s.entries, g.pel, ids, consumer, nowMs);
      }
      var forced := g.(pel := pel, consumers := g.consumers + {consumer});
      assert GroupOk(forced, strict) && NonZero(pel) by { ForcedOk(g, forced, name in loose, force); }
      var c := Claim(s.entries, ByIds(ids), consumer, nowMs, minIdleMs, justId);
      var out, claimed;
      ghost var stop;
      out, claimed, stop := ClaimCore(c, pel);
      rows := pel;
      assert pel[..stop] == pel && MarkedSoFar(c, pel, stop) == c.Marked(pel);
      if claimed.ids == [] && claimed.deleted == [] {
        return Ok(claimed), at, rows;
      }
      var sorted := SortPel(out);
      var g' := forced.(pel := sorted);
      ClaimHandsOver(c, pel, stop, sorted, claimed);
      ClaimKeeps(c, forced, g', stop, claimed.deleted, strict);
      PutGroup(found.value, g', if force then loose + {name} else loose);
      return Ok(claimed), at, rows;
    }

    /** XAUTOCLAIM. */
    method AutoClaimFrom(name: string, consumer: string, minIdleMs: nat, start: StreamId, count: nat, justId: bool, nowMs: U64)
      returns (r: Result<ClaimResult>, ghost at: nat, ghost stop: nat)
      requires Valid()
      modifies `value, `loose
      ensures Valid() && loose == old(loose)
      ensures r.Err? ==> unchanged(this)
      ensures r.Ok? <==> exists g | g in old(Loaded()).groups :: g.name == name
      ensures r.Err? ==> r.error == KeyNotFound
      ensures r.Ok? ==> && at < |old(Loaded()).groups| == |Loaded().groups| && old(Loaded()).groups[at].name == name
                        && stop <= |old(Loaded()).groups[at].pel|
      ensures r.Ok? ==>
                var s, g, g' := old(Loaded()), old(Loaded()).groups[at], Loaded().groups[at];
                var c := Claim(s.entries, Scan(start, ClaimLimit(count)), consumer, nowMs, minIdleMs, justId);
                && Loaded() == s.(groups := s.groups[at := g'])
                && (if r.value.ids == [] && r.value.deleted == [] then value == old(value)
                    else g' == g.(consumers := g.consumers + {consumer}, pel := g'.pel))
                && HandsOver(g.pel, g'.pel, r.value, consumer, nowMs, justId)
                && |r.value.entries| == (if justId then 0 else |r.value.ids|)
                && (forall i | 0 <= i < |r.value.entries| ::
                      r.value.entries[i] in s.entries && r.value.entries[i].id == r.value.ids[i])
                && r.value.ids == c.TakenIds(g.pel[..stop]) && r.value.deleted == c.GoneIds(g.pel[..stop])
                && |r.value.ids| <= (if count == 0 then 100 else count)
                && (stop < |g.pel| ==> |r.value.ids| == if count == 0 then 100 else count)
                && (if stop == |g.pel| then r.value.cursor == MIN_ID else r.value.cursor == g.pel[stop].id)
                && (StrictPel(g.pel) ==> g'.pel == Without(MarkedSoFar(c, g.pel, stop), r.value.deleted))
    {
      hide EntriesOk, GroupOk, Keep, Without, MarkedSoFar, SortedPel, StrictPel, Ascending, HandsOver;
      at, stop := 0, 0;
      var found := FindGroup(name);
      if found.None? {
        return Err(KeyNotFound), 0, 0;
      }
      at := found.value;
      var s := Loaded();
      var g := s.groups[found.value];
      assert g in s.groups;
      assert Ascending(s.entries) by { OkAscends(s, loose); }
      var g', claimed;
      g', claimed, stop := AutoClaim(s.entries, g, consumer, nowMs, minIdleMs, start, count, justId, name in loose);
      if claimed.ids != [] || claimed.deleted != [] {
        PutGroup(found.value, g', loose);
      } else {
        SameGroup(s, at, g');
      }
      return Ok(claimed), at, stop;
    }
  }

  // ---- Small steps ----

  lemma IssuedGrows(issued: seq<StreamId>, last: StreamId, id: StreamId)
    requires Less(last, id)
    ensures Increasing(issued) && AllUpTo(issued, last) ==>
              Increasing(issued + [id]) && AllUpTo(issued + [id], id) && forall x | x in issued :: Less(x, id)
  {
    var grown := issued + [id];
    assert forall i | 0 <= i < |issued| :: issued[i] in issued;
    assert forall x | x in grown :: x in issued || x == id;
  }

  lemma NewestIsLast(entries: seq<StreamEntry>, lastId: StreamId)
    requires Ascending(entries) && (entries != [] ==> AtMost(entries[|entries| - 1].id, lastId))
    ensures forall e | e in entries :: AtMost(e.id, lastId)
  {
    forall e | e in entries ensures AtMost(e.id, lastId) {
      var i :| 0 <= i < |entries| && entries[i] == e;
    }
  }

  lemma TrimNothing(entries: seq<StreamEntry>, trim: Trim)
    requires |Trimmed(entries, trim)| == |entries|
    ensures Trimmed(entries, trim) == entries
  {
    if trim.FromId? {
      KeepEverything(entries, (e: StreamEntry) => AtMost(trim.minId, e.id));
    }
  }

  lemma {:induction false} KeepEverything<T>(s: seq<T>, f: T -> bool)
    requires |Keep(s, f)| == |s|
    ensures Keep(s, f) == s
  {
    if s != [] {
      KeepMembers(s[1..], f);
      KeepEverything(s[1..], f);
    }
  }

  lemma OkAscends(s: Stream, loose: set<string>)
    requires StreamOk(s, loose)
    ensures Ascending(s.entries)
  {
  }

  lemma OkNonZero(s: Stream, g: Group, loose: set<string>)
    requires StreamOk(s, loose) && g in s.groups
    ensures NonZero(g.pel) && forall e | e in s.entries :: e.id != MIN_ID
  {
  }

  lemma SameGroup(s: Stream, at: nat, g: Group)
    requires at < |s.groups| && g == s.groups[at]
    ensures s == s.(groups := s.groups[at := g])
  {
    assert s.groups[at := g] == s.groups;
  }

  lemma {:induction false} GroupsDropped(s: Stream, f: Group -> bool, loose: set<string>)
    requires StreamOk(s, loose)
    ensures StreamOk(s.(groups := Keep(s.groups, f)), loose)
  {
    hide GroupOk, EntriesOk;
    KeepMembers(s.groups, f);
    KeepDistinct(s.groups, f);
  }

  lemma {:induction false} KeepDistinct(groups: seq<Group>, f: Group -> bool)
    requires NamesDistinct(groups)
    ensures NamesDistinct(Keep(groups, f))
  {
    if groups != [] {
      KeepDistinct(groups[1..], f);
      KeepMembers(groups[1..], f);
      var rest := Keep(groups[1..], f);
      forall i | 0 <= i < |rest| ensures rest[i].name != groups[0].name {
        assert rest[i] in rest;
        var j :| 0 <= j < |groups[1..]| && groups[1..][j] == rest[i];
        assert groups[1 + j] == rest[i];
      }
    }
  }

  /** When a delivery leaves an ID pending twice. */
  lemma DeliveredTwice(entries: seq<StreamEntry>, g: Group, g': Group, count: nat, out: seq<StreamEntry>, noAck: bool,
                       consumer: string, nowMs: U64)
    requires Ascending(entries) && SortedPel(g.pel) && SortedPel(g'.pel)
    requires out == FirstCount(Newer(entries, g.lastDelivered), count)
    requires multiset(g'.pel) == multiset(g.pel + if noAck then [] else Rows(out, consumer, nowMs))
    ensures StrictPel(g'.pel) <==> StrictPel(g.pel) && (noAck || forall e | e in out :: !HasId(g.pel, e.id))
  {
    hide FirstCount, Newer, SortedPel, StrictPel, Ascending;
    var rows := if noAck then [] else Rows(out, consumer, nowMs);
    DeliveredRange(entries, g.lastDelivered, count);
    RowsOfEntries(out, rows, consumer, nowMs, noAck);
    DeliverDuplicates(g, g', rows);
    forall e | !noAck && e in out ensures HasId(rows, e.id) {
    }
  }

  lemma RowsOfEntries(out: seq<StreamEntry>, rows: seq<Pending>, consumer: string, nowMs: U64, noAck: bool)
    requires Ascending(out) && rows == if noAck then [] else Rows(out, consumer, nowMs)
    ensures StrictPel(rows)
    ensures !noAck ==> forall e | e in out :: HasId(rows, e.id)
    ensures forall r | r in rows :: !noAck && exists e | e in out :: e.id == r.id
  {
    if !noAck {
      forall e | e in out ensures HasId(rows, e.id) {
        var i :| 0 <= i < |out| && out[i] == e;
        assert rows[i] in rows;
      }
      forall r | r in rows ensures exists e | e in out :: e.id == r.id {
        var i :| 0 <= i < |rows| && rows[i] == r;
        assert out[i] in out;
      }
    }
  }

  lemma OneEntry(e: StreamEntry, cursor: StreamId)
    requires Less(cursor, e.id)
    ensures FirstCount(Newer([e], cursor), 0) == [e]
  {
    KeepAll([e], (e: StreamEntry) => Less(cursor, e.id));
  }

  /** No row is gone when every row's entry is there. */
  lemma {:induction false} NoneGone(c: Claim, rows: seq<Pending>)
    requires forall p | p in rows :: Present(c.entries, p.id)
    ensures c.GoneIds(rows) == []
  {
    hide Present;
    if rows != [] {
      assert rows[|rows| - 1] in rows;
      NoneGone(c, rows[..|rows| - 1]);
    }
  }

  lemma ForcedTaken(c: Claim, rows: seq<Pending>, id: StreamId)
    requires c.sel == ByIds([id]) && c.minIdleMs == 0 && Present(c.entries, id) && HasId(rows, id)
    ensures c.TakenIds(rows) != []
  {
    hide Present;
    var p :| p in rows && p.id == id;
    assert c.Taken(p);
    TakenMembers(c, rows, id);
  }

  /** What a forced claim of the only entry leaves pending: that entry. */
  lemma ForcedRow(c: Claim, rows: seq<Pending>, pel: seq<Pending>, id: StreamId)
    requires c.sel == ByIds([id]) && c.minIdleMs == 0 && Present(c.entries, id)
    requires forall x :: HasId(rows, x) <==> x == id && Present(c.entries, x)
    requires multiset(pel) == multiset(Without(c.Marked(rows), c.GoneIds(rows)))
    ensures HasId(pel, id)
  {
    hide Present, Keep;
    assert HasId(rows, id);
    var p :| p in rows && p.id == id;
    forall q | q in rows ensures Present(c.entries, q.id) {
      assert HasId(rows, q.id);
    }
    NoneGone(c, rows);
    KeepAll(c.Marked(rows), (p: Pending) => p.id !in []);
    var i :| 0 <= i < |rows| && rows[i] == p;
    var q := c.Marked(rows)[i];
    assert q in multiset(c.Marked(rows)) && q in multiset(pel);
    assert q in pel && q.id == id;
  }

  /** A claim does not move the cursor: what a read delivers after any claim is what
      it would have delivered before. */
  method ClaimThenRead(key: StreamKey, name: string, claimer: string, reader: string, minIdleMs: nat, scan: Selector,
                       justId: bool, force: bool, t0: U64, t1: U64, count: nat, noAck: bool)
    returns (r: Result<seq<StreamEntry>>, ghost at: nat)
    requires key.Valid()
    modifies key
    ensures key.Valid()
    ensures r.Ok? <==> exists g | g in old(key.Loaded()).groups :: g.name == name
    ensures r.Ok? ==>
              && at < |old(key.Loaded()).groups| && old(key.Loaded()).groups[at].name == name
              && r.value == FirstCount(Newer(old(key.Loaded()).entries, old(key.Loaded()).groups[at].lastDelivered), count)
  {
    hide EntriesOk, GroupOk, Keep, Without, MarkedSoFar, SortedPel, StrictPel, Ascending, HandsOver, Newer, FirstCount, HasId,
         Present;
    ghost var s := key.Loaded();
    ghost var chosen;
    match scan {
      case ByIds(wanted) =>
        var claimed;
        ghost var rows;
        claimed, chosen, rows := key.ClaimIds(name, claimer, minIdleMs, wanted, justId, force, t0);
      case Scan(start, limit) =>
        var claimed;
        ghost var stop;
        claimed, chosen, stop := key.AutoClaimFrom(name, claimer, minIdleMs, start, limit, justId, t0);
    }
    ghost var s' := key.Loaded();
    SameCursors(s, s', chosen, name);
    r, at := key.ReadGroup(name, reader, None, count, noAck, t1);
  }

  lemma SameCursors(s: Stream, s': Stream, at: nat, name: string)
    requires s' == s || (at < |s.groups| && at < |s'.groups| && s'.groups == s.groups[at := s'.groups[at]]
                         && s'.groups[at].name == s.groups[at].name)
    ensures |s'.groups| == |s.groups| && forall i | 0 <= i < |s.groups| :: s'.groups[i].name == s.groups[i].name
    ensures (exists g | g in s'.groups :: g.name == name) <==> exists g | g in s.groups :: g.name == name
  {
    forall i | 0 <= i < |s.groups| ensures s'.groups[i].name == s.groups[i].name && s'.groups[i] in s'.groups {
    }
  }

  /** The run that leaves an ID pending twice: a group that has delivered nothing,
      an entry forced onto its pending list, and then a read. */
  method ForceThenRead(fields: seq<(string, string)>, first: string, second: string, t0: U64, t1: U64, t2: U64)
    returns (key: StreamKey)
    ensures fresh(key) && key.Valid() && |key.Loaded().groups| == 1 && !StrictPel(key.Loaded().groups[0].pel)
  {
    hide Keep, Newer, FirstCount, Without, StrictPel, GroupOk, EntriesOk, HasId, Present;
    key := new StreamKey();
    var id := key.Add(t0, None, false, fields, None, false);
    assert key.Loaded().entries == [StreamEntry(id.value, fields)];
    var created := key.GroupCreate("g", Beginning, false);
    var g0 := Group("g", MIN_ID, 0, {}, []);
    assert key.Loaded().groups == [g0] && g0 in key.Loaded().groups;
    ghost var entries := key.Loaded().entries;
    var claimed;
    ghost var at, rows;
    claimed, at, rows := key.ClaimIds("g", first, 0, [id.value], false, true, t1);
    OnlyEntry(entries[0], g0.pel);
    ghost var c := Claim(entries, ByIds([id.value]), first, t1, 0, false);
    ForcedTaken(c, rows, id.value);
    ghost var g := key.Loaded().groups[0];
    ForcedRow(c, rows, g.pel, id.value);
    assert g in key.Loaded().groups && g.name == "g";
    var out;
    out, at := key.ReadGroup("g", second, None, 0, false, t2);
    OneEntry(entries[0], MIN_ID);
    assert entries[0] in out.value;
  }

  lemma OnlyEntry(e: StreamEntry, none: seq<Pending>)
    requires none == []
    ensures Present([e], e.id) && forall x :: !HasId(none, x)
    ensures forall x :: Present([e], x) ==> x == e.id
  {
    assert e in [e];
  }

  lemma GroupTouched(g: Group, g': Group, loose: bool)
    requires GroupOk(g, loose) && g' == g.(consumers := g'.consumers)
    ensures GroupOk(g', loose)
  {
  }

  lemma PelDropped(g: Group, g': Group, f: Pending -> bool, loose: bool)
    requires GroupOk(g, loose) && g'.pel == Keep(g.pel, f) && g'.lastDelivered == g.lastDelivered
    ensures GroupOk(g', loose)
  {
    hide Less;
    KeepSorted(g.pel, f);
    KeepMembers(g.pel, f);
  }

  lemma PelWithout(g: Group, g': Group, ids: seq<StreamId>, loose: bool)
    requires GroupOk(g, loose) && g'.pel == Without(g.pel, ids) && g'.lastDelivered == g.lastDelivered
    ensures GroupOk(g', loose)
  {
    PelDropped(g, g', (p: Pending) => p.id !in ids, loose);
  }

  lemma AckNothing(pel: seq<Pending>, ids: seq<StreamId>)
    ensures |Without(pel, ids)| == |pel| ==> Without(pel, ids) == pel
  {
    if |Without(pel, ids)| == |pel| {
      KeepEverything(pel, (p: Pending) => p.id !in ids);
    }
  }

  lemma ForcedOk(g: Group, forced: Group, loose: bool, force: bool)
    requires GroupOk(g, loose) && forced.lastDelivered == g.lastDelivered
    requires if force then SortedPel(forced.pel) && NonZero(forced.pel) else forced.pel == g.pel
    ensures GroupOk(forced, force || loose) && NonZero(forced.pel)
  {
  }

  lemma GroupDelivered(entries: seq<StreamEntry>, lastId: StreamId, g: Group, g': Group, count: nat, out: seq<StreamEntry>,
                       noAck: bool, consumer: string, nowMs: U64, loose: bool)
    requires EntriesOk(entries, lastId) && GroupOk(g, loose) && SortedPel(g'.pel)
    requires out == FirstCount(Newer(entries, g.lastDelivered), count)
    requires g'.lastDelivered == if out == [] then g.lastDelivered else out[|out| - 1].id
    requires multiset(g'.pel) == multiset(g.pel + if noAck then [] else Rows(out, consumer, nowMs))
    ensures GroupOk(g', loose)
    ensures !loose ==> g'.pel == g.pel + if noAck then [] else Rows(out, consumer, nowMs)
    ensures StrictPel(g'.pel) <==> StrictPel(g.pel) && (noAck || forall e | e in out :: !HasId(g.pel, e.id))
  {
    hide FirstCount, Newer, SortedPel, StrictPel;
    var rows := if noAck then [] else Rows(out, consumer, nowMs);
    DeliveredTwice(entries, g, g', count, out, noAck, consumer, nowMs);
    if !loose {
      DeliverAppends(g, g', entries, count, rows, noAck, consumer, nowMs);
    } else {
      DeliveredRange(entries, g.lastDelivered, count);
      forall p | p in g'.pel ensures p.id != MIN_ID {
        assert p in multiset(g'.pel) && p in multiset(g.pel + rows);
        assert p in g.pel + rows;
        if p !in g.pel {
          var i :| 0 <= i < |rows| && rows[i] == p;
          assert out[i] in out;
        }
      }
    }
  }

  /** XDEL on the entries: each ID by binary search. */
  method DeleteIds(entries: seq<StreamEntry>, ids: seq<StreamId>, maxDeletedId: StreamId, ghost lastId: StreamId)
    returns (out: seq<StreamEntry>, removed: nat, top: StreamId)
    requires EntriesOk(entries, lastId)
    ensures out == Keep(entries, (e: StreamEntry) => e.id !in ids) && EntriesOk(out, lastId)
    ensures removed + |out| == |entries| && AtMost(maxDeletedId, top) && (removed == 0 ==> top == maxDeletedId && out == entries)
    ensures forall e | e in entries && e.id in ids :: AtMost(e.id, top)
    ensures top != maxDeletedId ==> exists e | e in entries :: e.id in ids && e.id == top
  {
    hide Keep, EntriesOk, Ascending, Present;
    out, removed, top := entries, 0, maxDeletedId;
    assert ids[..0] == [];
    KeepAll(entries, (e: StreamEntry) => e.id !in ids[..0]);
    for i := 0 to |ids|
      invariant out == Keep(entries, (e: StreamEntry) => e.id !in ids[..i]) && EntriesOk(out, lastId)
      invariant removed + |out| == |entries| && AtMost(maxDeletedId, top)
      invariant removed == 0 ==> top == maxDeletedId && out == entries
      invariant forall e | e in entries && e.id in ids[..i] :: AtMost(e.id, top)
      invariant top != maxDeletedId ==> exists e | e in entries :: e.id in ids && e.id == top
    {
      var id := ids[i];
      assert ids[..i + 1] == ids[..i] + [id];
      assert Ascending(out) by { EntriesAscend(out, lastId); }
      var at := FindEntry(out, id);
      DeleteOne(entries, out, ids, i, at, lastId);
      if at.Some? {
        if Less(top, id) {
          top := id;
        }
        out := out[..at.value] + out[at.value + 1..];
        removed := removed + 1;
      }
    }
    assert ids[..|ids|] == ids;
  }

  lemma EntriesAscend(entries: seq<StreamEntry>, lastId: StreamId)
    requires EntriesOk(entries, lastId)
    ensures Ascending(entries)
  {
  }

  lemma DeleteOne(entries: seq<StreamEntry>, out: seq<StreamEntry>, ids: seq<StreamId>, i: nat, at: Option<nat>, lastId: StreamId)
    requires i < |ids| && EntriesOk(out, lastId) && out == Keep(entries, (e: StreamEntry) => e.id !in ids[..i])
    requires at.Some? <==> Present(out, ids[i])
    requires at.Some? ==> at.value < |out| && out[at.value].id == ids[i]
    ensures var left := if at.Some? then out[..at.value] + out[at.value + 1..] else out;
            left == Keep(entries, (e: StreamEntry) => e.id !in ids[..i + 1]) && EntriesOk(left, lastId)
    ensures at.None? ==> forall e | e in entries && e.id == ids[i] :: e.id in ids[..i]
    ensures at.Some? ==> out[at.value] in entries
  {
    hide Keep;
    var id := ids[i];
    assert ids[..i + 1] == ids[..i] + [id];
    KeepKeep(entries, (e: StreamEntry) => e.id !in ids[..i], (e: StreamEntry) => e.id != id,
             (e: StreamEntry) => e.id !in ids[..i + 1]);
    KeepMembers(entries, (e: StreamEntry) => e.id !in ids[..i]);
    if at.Some? {
      KeepButOne(out, at.value);
    } else {
      KeepAll(out, (e: StreamEntry) => e.id != id);
    }
    EntriesDropped(out, (e: StreamEntry) => e.id != id, lastId);
  }

  lemma KeepParts<T>(a: seq<T>, x: T, b: seq<T>, f: T -> bool)
    requires (forall e | e in a :: f(e)) && !f(x) && forall e | e in b :: f(e)
    ensures Keep(a + ([x] + b), f) == a + b
  {
    hide Keep;
    KeepConcat(a, [x] + b, f);
    KeepConcat([x], b, f);
    KeepAll(a, f);
    KeepNone([x], f);
    KeepAll(b, f);
    assert [] + b == b;
  }

  lemma OthersDiffer(out: seq<StreamEntry>, at: nat)
    requires Ascending(out) && at < |out|
    ensures forall e | e in out[..at] :: e.id != out[at].id
    ensures forall e | e in out[at + 1..] :: e.id != out[at].id
  {
    forall e | e in out[..at] ensures e.id != out[at].id {
      var i := SliceMember(out, 0, at, e);
    }
    forall e | e in out[at + 1..] ensures e.id != out[at].id {
      var i := SliceMember(out, at + 1, |out|, e);
    }
  }

  lemma SingledOut<T>(s: seq<T>, at: nat)
    requires at < |s|
    ensures s[..at] + ([s[at]] + s[at + 1..]) == s
  {
  }

  lemma KeepButOne(out: seq<StreamEntry>, at: nat)
    requires Ascending(out) && at < |out|
    ensures Keep(out, (e: StreamEntry) => e.id != out[at].id) == out[..at] + out[at + 1..]
  {
    hide Keep, Ascending;
    var f := (e: StreamEntry) => e.id != out[at].id;
    OthersDiffer(out, at);
    SingledOut(out, at);
    KeepParts(out[..at], out[at], out[at + 1..], f);
  }
}
