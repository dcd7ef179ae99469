/** Tree pages and meta records as bytes: what encoding writes, decoding reads
    back. */
module PageCodec {
  import opened Wrappers
  import opened Keys
  import opened TreeModel
  import opened PageSizes
  import opened Records
  import Crc32c

  type U16 = x: nat | x < 0x1_0000

  const TYPE_LEAF: U8 := 1
  const TYPE_INTERNAL: U8 := 2

  function AsBits(bytes: seq<Byte>): seq<bv8> {
    seq(|bytes|, i requires 0 <= i < |bytes| => bytes[i] as bv8)
  }

  function WordOf(w: bv32): U32 {
    w as nat
  }

  function Crc(bytes: seq<Byte>): U32 {
    WordOf(Crc32c.Checksum(AsBits(bytes)))
  }

  lemma Width2()
    ensures Pow256(2) == 0x1_0000
  {
    assert Pow256(1) == 0x100;
  }

  function Word2(x: U16): (s: seq<Byte>)
    ensures |s| == 2
  {
    Width2();
    Le(x, 2)
  }

  function TakeU16(cursor: seq<Byte>): Option<(U16, seq<Byte>)> {
    Width2();
    match Take(cursor, 2)
    case None => None
    case Some((x, rest)) => Some((x, rest))
  }

  lemma TakeWord2(x: U16, rest: seq<Byte>)
    ensures TakeU16(Word2(x) + rest) == Some((x, rest))
  {
    Width2();
    TakeBack(x, 2, rest);
  }

  /** The next `n` raw bytes. */
  function TakeRaw(cursor: seq<Byte>, n: nat): (r: Option<(seq<Byte>, seq<Byte>)>)
    ensures r.Some? ==> |r.value.1| + n == |cursor|
  {
    if |cursor| < n then None else Some((cursor[..n], cursor[n..]))
  }

  lemma TakeRawBack(a: seq<Byte>, rest: seq<Byte>)
    ensures TakeRaw(a + rest, |a|) == Some((a, rest))
  {
    assert (a + rest)[..|a|] == a && (a + rest)[|a|..] == rest;
  }

  // ---- Leaf entries ----

  predicate ItemFits(e: Entry) {
    |e.key| <= MAX_KEY_LENGTH && |e.value| <= MAX_VALUE_LENGTH
  }

  function ItemBytesOf(e: Entry): (s: seq<Byte>)
    requires ItemFits(e)
  {
    Word2(|e.key|) + (Word4(|e.value|) + (e.key + e.value))
  }

  function LeafBytes(items: seq<Entry>): seq<Byte>
    requires forall e | e in items :: ItemFits(e)
  {
    if items == [] then [] else LeafBytes(items[..|items| - 1]) + ItemBytesOf(items[|items| - 1])
  }

  /** One entry off the cursor; running out is damage. */
  function TakeItem(cursor: seq<Byte>): Option<(Entry, seq<Byte>)> {
    match TakeU16(cursor)
    case None => None
    case Some((keyLen, c1)) => match TakeU32(c1)
    case None => None
    case Some((valueLen, c2)) => match TakeRaw(c2, keyLen)
    case None => None
    case Some((key, c3)) => match TakeRaw(c3, valueLen)
    case None => None
    case Some((value, c4)) => Some((Entry(key, value), c4))
  }

  lemma ItemReadsBack(e: Entry, rest: seq<Byte>)
    requires ItemFits(e)
    ensures TakeItem(ItemBytesOf(e) + rest) == Some((e, rest))
  {
    hide Word2, Word4, TakeU16, TakeU32;
    var s3 := e.value + rest;
    var s2 := e.key + s3;
    var s1 := Word4(|e.value|) + s2;
    assert ItemBytesOf(e) + rest == Word2(|e.key|) + s1;
    TakeWord2(|e.key|, s1);
    TakeWord4(|e.value|, s2);
    TakeRawBack(e.key, s3);
    TakeRawBack(e.value, rest);
  }

  /** Write the entries one behind the other. */
  method WriteLeafEntries(items: seq<Entry>) returns (payload: seq<Byte>)
    requires forall e | e in items :: ItemFits(e)
    ensures payload == LeafBytes(items)
  {
    hide ItemBytesOf;
    payload := [];
    assert items[..0] == [];
    for i := 0 to |items|
      invariant payload == LeafBytes(items[..i])
    {
      assert items[..i + 1][..i] == items[..i];
      payload := payload + ItemBytesOf(items[i]);
    }
    assert items[..|items|] == items;
  }

  /** Read `count` entries. What was written, padding behind it, comes back. */
  method ReadLeafEntries(payload: seq<Byte>, count: nat, ghost items: seq<Entry>, ghost padding: seq<Byte>)
    returns (r: Result<seq<Entry>>)
    ensures r.Err? ==> r.error == Corrupt
    ensures r.Ok? ==> |r.value| == count
    ensures (forall e | e in items :: ItemFits(e)) && payload == LeafBytes(items) + padding && count == |items| ==> r == Ok(items)
  {
    hide TakeItem, ItemBytesOf;
    var cursor, out: seq<Entry> := payload, [];
    ghost var written := (forall e | e in items :: ItemFits(e)) && payload == LeafBytes(items) + padding && count == |items|;
    assert written ==> items[0..] == items && items[..0] == [];
    assert written ==> Tail(items, 0) + padding == payload by {
      if written {
        TailIsAll(items);
      }
    }
    for i := 0 to count
      invariant |out| == i
      invariant written ==> out == items[..i] && cursor == Tail(items, i) + padding
    {
      if written {
        TailStep(items, i);
        ItemReadsBack(items[i], Tail(items, i + 1) + padding);
        assert Tail(items, i) + padding == ItemBytesOf(items[i]) + (Tail(items, i + 1) + padding);
        assert items[..i + 1] == items[..i] + [items[i]];
      }
      var item := TakeItem(cursor);
      if item.None? {
        return Err(Corrupt);
      }
      out := out + [item.value.0];
      cursor := item.value.1;
    }
    assert written ==> items[..|items|] == items;
    return Ok(out);
  }

  /** The bytes of the entries from `i` on. */
  ghost function Tail(items: seq<Entry>, i: nat): seq<Byte>
    requires i <= |items| && forall e | e in items :: ItemFits(e)
    decreases |items| - i
  {
    if i == |items| then [] else ItemBytesOf(items[i]) + Tail(items, i + 1)
  }

  lemma TailStep(items: seq<Entry>, i: nat)
    requires i < |items| && forall e | e in items :: ItemFits(e)
    ensures Tail(items, i) == ItemBytesOf(items[i]) + Tail(items, i + 1)
  {
  }

  lemma {:induction false} TailSplits(items: seq<Entry>, i: nat)
    requires i <= |items| && forall e | e in items :: ItemFits(e)
    ensures LeafBytes(items[..i]) + Tail(items, i) == LeafBytes(items)
    decreases |items| - i
  {
    hide ItemBytesOf;
    if i == |items| {
      assert items[..i] == items;
    } else {
      TailSplits(items, i + 1);
      assert items[..i + 1][..i] == items[..i];
      assert LeafBytes(items[..i]) + (ItemBytesOf(items[i]) + Tail(items, i + 1)) ==
             LeafBytes(items[..i]) + ItemBytesOf(items[i]) + Tail(items, i + 1);
    }
  }

  lemma TailIsAll(items: seq<Entry>)
    requires forall e | e in items :: ItemFits(e)
    ensures Tail(items, 0) == LeafBytes(items)
  {
    TailSplits(items, 0);
    assert items[..0] == [];
  }

  // ---- Page headers ----

  datatype PageHeader = PageHeader(pageType: U8, entryCount: U16, firstChild: U64)

  function Zeros(n: nat): (s: seq<Byte>)
    ensures |s| == n
  {
    seq(n, _ => 0)
  }

  /** The page behind its checksum. */
  function Covered(h: PageHeader, payload: seq<Byte>, padding: seq<Byte>): seq<Byte> {
    Byte1(h.pageType) + (Byte1(0) + (Word2(h.entryCount) + (Word8(h.firstChild) + (payload + padding))))
  }

  function PageBytes(h: PageHeader, payload: seq<Byte>, padding: seq<Byte>): seq<Byte> {
    Word4(Crc(Covered(h, payload, padding))) + Covered(h, payload, padding)
  }

  /** Check the checksum over everything behind it, then the type. */
  function ReadHeader16(page: seq<Byte>): Result<(PageHeader, seq<Byte>)> {
    if |page| < PAGE_HEADER_SIZE then Err(OutOfRange)
    else
      match TakeU32(page)
      case None => Err(OutOfRange)
      case Some((crc, c0)) => match TakeU8(c0)
      case None => Err(OutOfRange)
      case Some((pageType, c1)) => match TakeU8(c1)
      case None => Err(OutOfRange)
      case Some((_, c2)) => match TakeU16(c2)
      case None => Err(OutOfRange)
      case Some((count, c3)) => match TakeU64(c3)
      case None => Err(OutOfRange)
      case Some((first, c4)) =>
        if crc != Crc(c0) || (pageType != TYPE_LEAF && pageType != TYPE_INTERNAL) then Err(Corrupt)
        else Ok((PageHeader(pageType, count, first), c4))
  }

  lemma HeaderSizes(h: PageHeader, payload: seq<Byte>, padding: seq<Byte>)
    ensures |PageBytes(h, payload, padding)| == PAGE_HEADER_SIZE + |payload| + |padding|
  {
  }

  lemma PageHeaderReadsBack(h: PageHeader, payload: seq<Byte>, padding: seq<Byte>)
    requires h.pageType == TYPE_LEAF || h.pageType == TYPE_INTERNAL
    ensures ReadHeader16(PageBytes(h, payload, padding)) == Ok((h, payload + padding))
  {
    hide Word2, Word4, Word8, Byte1, TakeU8, TakeU16, TakeU32, TakeU64, Crc;
    var s4 := payload + padding;
    var s3 := Word8(h.firstChild) + s4;
    var s2 := Word2(h.entryCount) + s3;
    var s1 := Byte1(0) + s2;
    var s0 := Byte1(h.pageType) + s1;
    HeaderSizes(h, payload, padding);
    TakeWord4(Crc(s0), s0);
    TakeByte1(h.pageType, s1);
    TakeByte1(0, s2);
    TakeWord2(h.entryCount, s3);
    TakeWord8(h.firstChild, s4);
  }

  /** A page is read only when its first word is the checksum of all the rest, and its
      type is one of the two. */
  ghost predicate Checked(page: seq<Byte>, pageType: U8) {
    && |page| >= PAGE_HEADER_SIZE && UnLe(page[..4]) == Crc(page[4..]) && page[4] as nat == pageType
  }

  lemma HeaderChecked(page: seq<Byte>)
    ensures ReadHeader16(page).Ok? ==>
              && Checked(page, ReadHeader16(page).value.0.pageType)
              && ReadHeader16(page).value.0.pageType in {TYPE_LEAF, TYPE_INTERNAL}
              && ReadHeader16(page).value.0.entryCount == UnLe(page[6..8])
  {
    hide Crc, UnLe;
    if |page| >= PAGE_HEADER_SIZE {
      var c0 := page[4..];
      assert c0[..1] == [page[4]] && c0[1..][1..][..2] == page[6..8];
      OneByte(page[4]);
    }
  }

  lemma OneByte(b: Byte)
    ensures UnLe([b]) == b as nat
  {
    assert [b][1..] == [];
  }

  // ---- Leaf pages ----

  lemma {:induction false} LeafPayloadSize(items: seq<Entry>)
    requires forall e | e in items :: ItemFits(e)
    ensures |LeafBytes(items)| == Sum(ItemSizes(items))
  {
    hide Sum;
    if items == [] {
      assert Sum([]) == 0 by { SumOfNone(); }
      assert ItemSizes(items) == [];
    } else {
      var n := |items| - 1;
      LeafPayloadSize(items[..n]);
      SumNext(ItemSizes(items), n);
      assert ItemSizes(items)[..n] == ItemSizes(items[..n]) && ItemSizes(items)[..n + 1] == ItemSizes(items);
    }
  }

  lemma SumOfNone()
    ensures Sum([]) == 0
  {
  }

  /** Encode a leaf page, refusing what does not fit. */
  method EncodeLeafPage(items: seq<Entry>, pageSize: nat) returns (r: Result<seq<Byte>>)
    requires pageSize >= PAGE_HEADER_SIZE
    ensures r.Ok? <==> LeafEncodes(items, PagePayloadCapacity(pageSize))
    ensures r.Err? ==> r.error == ValueTooLarge
    ensures r.Ok? ==>
              && |r.value| == pageSize && (forall e | e in items :: ItemFits(e))
              && exists padding :: r.value == PageBytes(PageHeader(TYPE_LEAF, |items|, 0), LeafBytes(items), padding)
  {
    hide Sum, Covered, LeafBytes, Crc;
    if !LeafEncodes(items, PagePayloadCapacity(pageSize)) {
      return Err(ValueTooLarge);
    }
    var payload := WriteLeafEntries(items);
    LeafPayloadSize(items);
    var padding := Zeros(PagePayloadCapacity(pageSize) - |payload|);
    var header := PageHeader(TYPE_LEAF, |items|, 0);
    HeaderSizes(header, payload, padding);
    return Ok(PageBytes(header, payload, padding));
  }

  /** Decode a leaf page: every page the encoder writes gives its entries back. */
  method DecodeLeafPage(page: seq<Byte>, ghost items: seq<Entry>, ghost padding: seq<Byte>) returns (r: Result<seq<Entry>>)
    ensures && (forall e | e in items :: ItemFits(e)) && |items| <= MAX_ENTRIES_PER_PAGE
            && page == PageBytes(PageHeader(TYPE_LEAF, |items|, 0), LeafBytes(items), padding)
            ==> r == Ok(items)
    ensures r.Ok? ==> Checked(page, TYPE_LEAF) && |r.value| == UnLe(page[6..8])
  {
    hide ReadHeader16, PageBytes, LeafBytes, Checked;
    ghost var encoded := && (forall e | e in items :: ItemFits(e)) && |items| <= MAX_ENTRIES_PER_PAGE
                         && page == PageBytes(PageHeader(TYPE_LEAF, |items|, 0), LeafBytes(items), padding);
    if encoded {
      PageHeaderReadsBack(PageHeader(TYPE_LEAF, |items|, 0), LeafBytes(items), padding);
    }
    HeaderChecked(page);
    var header := ReadHeader16(page);
    if header.Err? {
      return Err(header.error);
    }
    if header.value.0.pageType != TYPE_LEAF {
      return Err(Corrupt);
    }
    r := ReadLeafEntries(header.value.1, header.value.0.entryCount, items, padding);
  }

  /** Writing a leaf page and reading it back. */
  method LeafPageRoundTrip(items: seq<Entry>, pageSize: nat) returns (back: Result<seq<Entry>>)
    requires pageSize >= PAGE_HEADER_SIZE
    ensures LeafEncodes(items, PagePayloadCapacity(pageSize)) ==> back == Ok(items)
    ensures !LeafEncodes(items, PagePayloadCapacity(pageSize)) ==> back == Err(ValueTooLarge)
  {
    hide PageBytes, LeafBytes, Sum;
    var page := EncodeLeafPage(items, pageSize);
    if page.Err? {
      return Err(page.error);
    }
    ghost var padding :| page.value == PageBytes(PageHeader(TYPE_LEAF, |items|, 0), LeafBytes(items), padding);
    back := DecodeLeafPage(page.value, items, padding);
  }

  // ---- Internal pages ----

  predicate ChildFits(c: ChildEntry) {
    |c.key| <= MAX_KEY_LENGTH && c.child < 0x1_0000_0000_0000_0000
  }

  function ChildBytesOf(c: ChildEntry): seq<Byte>
    requires ChildFits(c)
  {
    Word8(c.child) + (Word2(|c.key|) + c.key)
  }

  /** The entries from `i` on, one behind the other. */
  function InternalBytes(entries: seq<ChildEntry>, i: nat): seq<Byte>
    requires i <= |entries| && forall c | c in entries :: ChildFits(c)
    decreases |entries| - i
  {
    if i == |entries| then [] else ChildBytesOf(entries[i]) + InternalBytes(entries, i + 1)
  }

  function TakeChild(cursor: seq<Byte>): Option<(ChildEntry, seq<Byte>)> {
    match TakeU64(cursor)
    case None => None
    case Some((child, c1)) => match TakeU16(c1)
    case None => None
    case Some((keyLen, c2)) => match TakeRaw(c2, keyLen)
    case None => None
    case Some((key, c3)) => Some((ChildEntry(key, child), c3))
  }

  lemma ChildReadsBack(c: ChildEntry, rest: seq<Byte>)
    requires ChildFits(c)
    ensures TakeChild(ChildBytesOf(c) + rest) == Some((c, rest))
  {
    hide Word2, Word8, TakeU16, TakeU64;
    var s1 := Word2(|c.key|) + (c.key + rest);
    assert ChildBytesOf(c) + rest == Word8(c.child) + s1;
    TakeWord8(c.child, s1);
    TakeWord2(|c.key|, c.key + rest);
    TakeRawBack(c.key, rest);
  }

  lemma {:induction false} InternalPayloadSize(entries: seq<ChildEntry>, i: nat)
    requires i <= |entries| && forall c | c in entries :: ChildFits(c)
    ensures |InternalBytes(entries, i)| == Sum(SepSizes(KeysOf(entries))[i..])
    decreases |entries| - i
  {
    if i < |entries| {
      InternalPayloadSize(entries, i + 1);
      var sizes := SepSizes(KeysOf(entries));
      assert sizes[i..][0] == sizes[i] == |ChildBytesOf(entries[i])|;
      assert sizes[i..][1..] == sizes[i + 1..];
    }
  }

  /** Write the entries one behind the other. */
  method WriteInternalEntries(entries: seq<ChildEntry>) returns (payload: seq<Byte>)
    requires forall c | c in entries :: ChildFits(c)
    ensures payload == InternalBytes(entries, 0)
  {
    hide ChildBytesOf;
    payload := [];
    for i := 0 to |entries|
      invariant payload + InternalBytes(entries, i) == InternalBytes(entries, 0)
    {
      assert InternalBytes(entries, i) == ChildBytesOf(entries[i]) + InternalBytes(entries, i + 1);
      assert payload + (ChildBytesOf(entries[i]) + InternalBytes(entries, i + 1)) ==
             payload + ChildBytesOf(entries[i]) + InternalBytes(entries, i + 1);
      payload := payload + ChildBytesOf(entries[i]);
    }
    assert payload + [] == payload;
  }

  /** Page ids are 64-bit words in the file. */
  ghost predicate WordIds(first: PageId, entries: seq<ChildEntry>) {
    && first < 0x1_0000_0000_0000_0000
    && forall c | c in entries :: c.child < 0x1_0000_0000_0000_0000
  }

  lemma EncodableChildren(first: PageId, entries: seq<ChildEntry>, cap: nat)
    requires WordIds(first, entries) && InternalEncodes(KeysOf(entries), cap)
    ensures forall c | c in entries :: ChildFits(c)
    ensures |InternalBytes(entries, 0)| <= cap
  {
    hide Sum, InternalBytes, SepSizes;
    forall c | c in entries ensures ChildFits(c) {
      var i :| 0 <= i < |entries| && entries[i] == c;
      assert KeysOf(entries)[i] in KeysOf(entries);
    }
    InternalPayloadSize(entries, 0);
    assert SepSizes(KeysOf(entries))[0..] == SepSizes(KeysOf(entries));
  }

  /** Encode an internal page, refusing what does not fit. */
  method EncodeInternalPage(first: PageId, entries: seq<ChildEntry>, pageSize: nat) returns (r: Result<seq<Byte>>)
    requires pageSize >= PAGE_HEADER_SIZE && WordIds(first, entries)
    ensures r.Ok? <==> InternalEncodes(KeysOf(entries), PagePayloadCapacity(pageSize))
    ensures r.Err? ==> r.error == ValueTooLarge
    ensures r.Ok? ==>
              && |r.value| == pageSize && (forall c | c in entries :: ChildFits(c))
              && exists padding :: r.value == PageBytes(PageHeader(TYPE_INTERNAL, |entries|, first), InternalBytes(entries, 0),
                                                        padding)
  {
    hide Sum, Covered, InternalBytes, Crc;
    if !InternalEncodes(KeysOf(entries), PagePayloadCapacity(pageSize)) {
      return Err(ValueTooLarge);
    }
    EncodableChildren(first, entries, PagePayloadCapacity(pageSize));
    var payload := WriteInternalEntries(entries);
    var padding := Zeros(PagePayloadCapacity(pageSize) - |payload|);
    var header := PageHeader(TYPE_INTERNAL, |entries|, first);
    HeaderSizes(header, payload, padding);
    return Ok(PageBytes(header, payload, padding));
  }

  /** Read `count` entries. What was written, padding behind it, comes back. */
  method ReadInternalEntries(payload: seq<Byte>, count: nat, ghost entries: seq<ChildEntry>, ghost padding: seq<Byte>)
    returns (r: Result<seq<ChildEntry>>)
    ensures r.Err? ==> r.error == Corrupt
    ensures r.Ok? ==> |r.value| == count
    ensures (forall c | c in entries :: ChildFits(c)) && payload == InternalBytes(entries, 0) + padding && count == |entries|
            ==> r == Ok(entries)
  {
    hide TakeChild, ChildBytesOf;
    var cursor, out: seq<ChildEntry> := payload, [];
    ghost var written := (forall c | c in entries :: ChildFits(c)) && payload == InternalBytes(entries, 0) + padding
                         && count == |entries|;
    for i := 0 to count
      invariant |out| == i
      invariant written ==> out == entries[..i] && cursor == InternalBytes(entries, i) + padding
    {
      if written {
        ChildReadsBack(entries[i], InternalBytes(entries, i + 1) + padding);
        assert InternalBytes(entries, i) + padding == ChildBytesOf(entries[i]) + (InternalBytes(entries, i + 1) + padding);
        assert entries[..i + 1] == entries[..i] + [entries[i]];
      }
      var entry := TakeChild(cursor);
      if entry.None? {
        return Err(Corrupt);
      }
      out := out + [entry.value.0];
      cursor := entry.value.1;
    }
    assert written ==> entries[..|entries|] == entries;
    return Ok(out);
  }

  /** Decode an internal page: every page the encoder writes gives its first child
      and its entries back. */
  method DecodeInternalPage(page: seq<Byte>, ghost first: PageId, ghost entries: seq<ChildEntry>, ghost padding: seq<Byte>)
    returns (r: Result<Node>)
    ensures && (forall c | c in entries :: ChildFits(c)) && |entries| <= MAX_ENTRIES_PER_PAGE && first < 0x1_0000_0000_0000_0000
            && page == PageBytes(PageHeader(TYPE_INTERNAL, |entries|, first), InternalBytes(entries, 0), padding)
            ==> r == Ok(Internal(first, entries))
    ensures r.Ok? ==> Checked(page, TYPE_INTERNAL) && r.value.Internal? && |r.value.entries| == UnLe(page[6..8])
  {
    hide ReadHeader16, PageBytes, InternalBytes, Checked;
    ghost var encoded := && (forall c | c in entries :: ChildFits(c)) && |entries| <= MAX_ENTRIES_PER_PAGE
                         && first < 0x1_0000_0000_0000_0000
                         && page == PageBytes(PageHeader(TYPE_INTERNAL, |entries|, first), InternalBytes(entries, 0), padding);
    if encoded {
      PageHeaderReadsBack(PageHeader(TYPE_INTERNAL, |entries|, first), InternalBytes(entries, 0), padding);
    }
    HeaderChecked(page);
    var header := ReadHeader16(page);
    if header.Err? {
      return Err(header.error);
    }
    if header.value.0.pageType != TYPE_INTERNAL {
      return Err(Corrupt);
    }
    var back := ReadInternalEntries(header.value.1, header.value.0.entryCount, entries, padding);
    return if back.Ok? then Ok(Internal(header.value.0.firstChild, back.value)) else Err(back.error);
  }

  /** Writing an internal page and reading it back. */
  method InternalPageRoundTrip(first: PageId, entries: seq<ChildEntry>, pageSize: nat) returns (back: Result<Node>)
    requires pageSize >= PAGE_HEADER_SIZE && WordIds(first, entries)
    ensures back == if InternalEncodes(KeysOf(entries), PagePayloadCapacity(pageSize)) then Ok(Internal(first, entries))
                    else Err(ValueTooLarge)
  {
    hide PageBytes, InternalBytes, Sum;
    var page := EncodeInternalPage(first, entries, pageSize);
    if page.Err? {
      return Err(page.error);
    }
    ghost var padding :|
      page.value == PageBytes(PageHeader(TYPE_INTERNAL, |entries|, first), InternalBytes(entries, 0), padding);
    back := DecodeInternalPage(page.value, first, entries, padding);
  }

  // ---- Meta records ----

  const META_MAGIC: U32 := 0x574F_4346
  const META_VERSION: U32 := 2
  const META_VERSION_1: U32 := 1
  const DATA_PAGES_UNKNOWN: U64 := 0xFFFF_FFFF_FFFF_FFFF

  datatype MetaRecord = MetaRecord(pageSize: U32, keyBytes: U32, txnId: U64, root: U64, freeRoot: U64, itemCount: U64,
                                   valueBytes: U64, dataPages: Option<U64>)

  /** The fields both layouts share, `rest` behind them. */
  function MetaFields(m: MetaRecord, version: U32, rest: seq<Byte>): seq<Byte> {
    Word4(META_MAGIC) + (Word4(version) + (Word4(m.pageSize) + (Word4(m.keyBytes) + (Word8(m.txnId) + (Word8(m.root)
    + (Word8(m.freeRoot) + (Word8(m.itemCount) + (Word8(m.valueBytes) + rest))))))))
  }

  function MetaPayload(m: MetaRecord): (s: seq<Byte>)
    ensures |s| == 64
  {
    MetaFields(m, META_VERSION, Word8(m.dataPages.UnwrapOr(DATA_PAGES_UNKNOWN)))
  }

  /** The layout before `dataPages`. */
  function MetaPayloadV1(m: MetaRecord): (s: seq<Byte>)
    ensures |s| == 56
  {
    MetaFields(m, META_VERSION_1, [])
  }

  function Sealed(payload: seq<Byte>): seq<Byte> {
    payload + Word4(Crc(payload))
  }

  /** Where the fields are, behind magic and version. */
  function ReadMetaFields(cursor: seq<Byte>): Option<(MetaRecord, seq<Byte>)> {
    match TakeU32(cursor)
    case None => None
    case Some((pageSize, c1)) => match TakeU32(c1)
    case None => None
    case Some((keyBytes, c2)) => match TakeU64(c2)
    case None => None
    case Some((txnId, c3)) => match TakeU64(c3)
    case None => None
    case Some((root, c4)) => match TakeU64(c4)
    case None => None
    case Some((freeRoot, c5)) => match TakeU64(c5)
    case None => None
    case Some((itemCount, c6)) => match TakeU64(c6)
    case None => None
    case Some((valueBytes, c7)) =>
      Some((MetaRecord(pageSize, keyBytes, txnId, root, freeRoot, itemCount, valueBytes, None), c7))
  }

  /** The version is read without being trusted: it only selects the layout whose
      checksum decides. */
  function DecodeMeta(src: seq<Byte>): Result<MetaRecord> {
    match TakeU32(src)
    case None => Err(OutOfRange)
    case Some((magic, c0)) => match TakeU32(c0)
    case None => Err(OutOfRange)
    case Some((version, c1)) =>
      var size := if version == META_VERSION_1 then 56 else 64;
      if |src| < size + 4 then Err(OutOfRange)
      else if TakeU32(src[size..]).value.0 != Crc(src[..size]) then Err(Corrupt)
      else if version != META_VERSION && version != META_VERSION_1 then Err(InvalidArg)
      else if magic != META_MAGIC then Err(InvalidArg)
      else
        var (m, c2) := ReadMetaFields(c1).value;
        if version == META_VERSION_1 then Ok(m)
        else
          var pages := TakeU64(c2).value.0;
          Ok(if pages == DATA_PAGES_UNKNOWN then m else m.(dataPages := Some(pages)))
  }

  /** A meta is read only under a known version, with the magic, and a checksum over
      exactly that version's fields. */
  lemma MetaChecked(src: seq<Byte>)
    requires DecodeMeta(src).Ok?
    ensures |src| >= 8 && UnLe(src[..4]) == META_MAGIC
    ensures var version := UnLe(src[4..8]);
            var size := if version == 1 then 56 else 64;
            (version == 1 || version == 2) && |src| >= size + 4 && UnLe(src[size..size + 4]) == Crc(src[..size])
  {
    hide Crc, UnLe, ReadMetaFields;
    assert src[4..][..4] == src[4..8];
    assert forall n | 0 <= n <= |src| - 4 :: src[n..][..4] == src[n..n + 4];
  }

  lemma MetaFieldsReadBack(m: MetaRecord, rest: seq<Byte>)
    ensures var bytes := Word4(m.pageSize) + (Word4(m.keyBytes) + (Word8(m.txnId) + (Word8(m.root)
                         + (Word8(m.freeRoot) + (Word8(m.itemCount) + (Word8(m.valueBytes) + rest))))));
            ReadMetaFields(bytes) == Some((m.(dataPages := None), rest))
  {
    hide Word4, Word8, TakeU32, TakeU64;
    var s7 := Word8(m.valueBytes) + rest;
    var s6 := Word8(m.itemCount) + s7;
    var s5 := Word8(m.freeRoot) + s6;
    var s4 := Word8(m.root) + s5;
    var s3 := Word8(m.txnId) + s4;
    var s2 := Word4(m.keyBytes) + s3;
    TakeWord4(m.pageSize, s2);
    TakeWord4(m.keyBytes, s3);
    TakeWord8(m.txnId, s4);
    TakeWord8(m.root, s5);
    TakeWord8(m.freeRoot, s6);
    TakeWord8(m.itemCount, s7);
    TakeWord8(m.valueBytes, rest);
  }

  /** A meta record reads back from its slot exactly when its page count is not the
      number that spells "unknown". */
  lemma MetaRoundTrip(m: MetaRecord, padding: seq<Byte>)
    ensures DecodeMeta(Sealed(MetaPayload(m)) + padding) == Ok(m) <==> m.dataPages != Some(DATA_PAGES_UNKNOWN)
    ensures DecodeMeta(Sealed(MetaPayload(m)) + padding) ==
            Ok(if m.dataPages == Some(DATA_PAGES_UNKNOWN) then m.(dataPages := None) else m)
  {
    hide Word4, Word8, TakeU32, TakeU64, Crc, ReadMetaFields;
    var payload := MetaPayload(m);
    var crc := Word4(Crc(payload));
    var src := Sealed(payload) + padding;
    var rest := Word8(m.dataPages.UnwrapOr(DATA_PAGES_UNKNOWN)) + (crc + padding);
    MetaPrefix(m, META_VERSION, Word8(m.dataPages.UnwrapOr(DATA_PAGES_UNKNOWN)), crc + padding);
    assert src == payload + (crc + padding);
    SealReadsBack(payload, padding);
    TakeWord8(m.dataPages.UnwrapOr(DATA_PAGES_UNKNOWN), crc + padding);
  }

  lemma SealReadsBack(payload: seq<Byte>, padding: seq<Byte>)
    ensures var src := Sealed(payload) + padding;
            && |src| >= |payload| + 4 && src[..|payload|] == payload
            && TakeU32(src[|payload|..]) == Some((Crc(payload), padding))
  {
    hide Crc;
    var src := Sealed(payload) + padding;
    assert src[|payload|..] == Word4(Crc(payload)) + padding;
    TakeWord4(Crc(payload), padding);
  }

  /** Magic, version and the shared fields, read off the front. */
  lemma MetaPrefix(m: MetaRecord, version: U32, last: seq<Byte>, tail: seq<Byte>)
    ensures var src := MetaFields(m, version, last) + tail;
            && TakeU32(src).Some? && TakeU32(src).value.0 == META_MAGIC
            && TakeU32(TakeU32(src).value.1).Some?
            && TakeU32(TakeU32(src).value.1).value.0 == version
            && ReadMetaFields(TakeU32(TakeU32(src).value.1).value.1) == Some((m.(dataPages := None), last + tail))
  {
    hide Word4, Word8, TakeU32, TakeU64, ReadMetaFields;
    var rest := last + tail;
    var fields := Word4(m.pageSize) + (Word4(m.keyBytes) + (Word8(m.txnId) + (Word8(m.root)
                  + (Word8(m.freeRoot) + (Word8(m.itemCount) + (Word8(m.valueBytes) + rest))))));
    assert MetaFields(m, version, last) + tail == Word4(META_MAGIC) + (Word4(version) + fields);
    TakeWord4(META_MAGIC, Word4(version) + fields);
    TakeWord4(version, fields);
    MetaFieldsReadBack(m, rest);
  }

  /** A version 1 record reads as the same fields with the page count unknown. */
  lemma MetaVersion1Reads(m: MetaRecord, padding: seq<Byte>)
    ensures DecodeMeta(Sealed(MetaPayloadV1(m)) + padding) == Ok(m.(dataPages := None))
  {
    hide Word4, Word8, TakeU32, TakeU64, Crc, ReadMetaFields;
    var payload := MetaPayloadV1(m);
    var crc := Word4(Crc(payload));
    MetaPrefix(m, META_VERSION_1, [], crc + padding);
    assert Sealed(payload) + padding == payload + (crc + padding);
    SealReadsBack(payload, padding);
  }
}
