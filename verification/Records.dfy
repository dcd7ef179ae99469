/** Leaf records of the cache store: the current layout, the one before it, and
    the conversion between them. */
module Records {
  import opened Wrappers
  import opened Keys

  // ---- Little-endian integers ----

  function Pow256(n: nat): nat {
    if n == 0 then 1 else 256 * Pow256(n - 1)
  }

  function UnLe(s: seq<Byte>): nat {
    if s == [] then 0 else s[0] as nat + 256 * UnLe(s[1..])
  }

  function Le(x: nat, n: nat): (s: seq<Byte>)
    requires x < Pow256(n)
    ensures |s| == n && UnLe(s) == x
  {
    if n == 0 then [] else [(x % 256) as Byte] + Le(x / 256, n - 1)
  }

  lemma {:induction false} UnLeBound(s: seq<Byte>)
    ensures UnLe(s) < Pow256(|s|)
  {
    if s != [] {
      UnLeBound(s[1..]);
    }
  }

  type U8 = x: nat | x < 0x100
  type U32 = x: nat | x < 0x1_0000_0000
  type U64 = x: nat | x < 0x1_0000_0000_0000_0000
  type I64 = x: int | -0x8000_0000_0000_0000 <= x < 0x8000_0000_0000_0000

  lemma Widths()
    ensures Pow256(1) == 0x100 && Pow256(4) == 0x1_0000_0000 && Pow256(8) == 0x1_0000_0000_0000_0000
  {
    assert Pow256(2) == 0x1_0000 && Pow256(3) == 0x100_0000;
    assert Pow256(5) == 0x100_0000_0000 && Pow256(6) == 0x1_0000_0000_0000 && Pow256(7) == 0x100_0000_0000_0000;
  }

  function Bits(x: I64): U64 {
    if x < 0 then x + 0x1_0000_0000_0000_0000 else x
  }

  function Signed(b: U64): I64 {
    if b >= 0x8000_0000_0000_0000 then b - 0x1_0000_0000_0000_0000 else b
  }

  // ---- Times ----

  /** A steady-clock instant in nanoseconds; the extremes mean "never". */
  type Time = I64

  const TIME_MAX: Time := 0x7FFF_FFFF_FFFF_FFFF
  const TIME_MIN: Time := -0x8000_0000_0000_0000
  const MAX_MICROS := 9_223_372_036_854_775
  const MIN_MICROS := -9_223_372_036_854_775

  /** Division that truncates toward zero. */
  function Quotient(a: int, b: int): int
    requires b > 0
  {
    if a >= 0 then a / b else -((-a) / b)
  }

  function ToMicros(t: Time): I64 {
    if t == TIME_MAX then TIME_MAX else if t == TIME_MIN then TIME_MIN else Quotient(t, 1000)
  }

  /** Microseconds off the disk, clamped to what the clock can hold. */
  function FromMicros(v: I64): Time {
    if v == TIME_MAX || v >= MAX_MICROS then TIME_MAX
    else if v == TIME_MIN || v <= MIN_MICROS then TIME_MIN
    else v * 1000
  }

  /** What a time reads back as. */
  function Rounded(t: Time): Time {
    FromMicros(ToMicros(t))
  }

  /** The sentinels survive; any other time the clock can hold, short of the last
      started microsecond at either end, loses less than a microsecond, toward zero,
      and reading it back again loses nothing more. */
  lemma RoundedTime(t: Time)
    ensures Rounded(TIME_MAX) == TIME_MAX && Rounded(TIME_MIN) == TIME_MIN
    ensures MIN_MICROS * 1000 < t < MAX_MICROS * 1000 ==>
              Rounded(t) == 1000 * Quotient(t, 1000) && -1000 < t - Rounded(t) < 1000
    ensures Rounded(Rounded(t)) == Rounded(t)
    ensures Rounded(t) == TIME_MAX <==> TIME_MAX - t < 808
    ensures Rounded(t) == TIME_MIN <==> t - TIME_MIN < 809
    ensures TIME_MAX - t >= 808 && t - TIME_MIN >= 809 ==> Rounded(t) == 1000 * Quotient(t, 1000)
  {
    MicrosAreStable(ToMicros(t));
  }

  lemma MicrosAreStable(v: I64)
    ensures Rounded(FromMicros(v)) == FromMicros(v)
  {
    var t := FromMicros(v);
    if t != TIME_MAX && t != TIME_MIN {
      assert t == v * 1000;
      assert Quotient(v * 1000, 1000) == v;
    }
  }

  // ---- Records ----

  datatype Header = Header(flags: U32, cas: U64, expiry: Time, generation: U64, lastAccess: Time, stale: bool)

  datatype Body = Inline(stored: seq<Byte>) | Chained(root: U64, storedLen: U64)

  datatype Record = Record(header: Header, codec: U8, originalLen: U64, body: Body)

  const KIND_INLINE := 0
  const KIND_OVERFLOW := 1
  const IDENTITY: U8 := 0

  /** What the layout can hold: inline lengths are 32 bits. */
  predicate Encodable(r: Record) {
    r.body.Inline? ==> |r.body.stored| < 0x1_0000_0000 && r.originalLen < 0x1_0000_0000
  }

  function Byte1(x: U8): seq<Byte> { Widths(); Le(x, 1) }
  function Word4(x: U32): seq<Byte> { Widths(); Le(x, 4) }
  function Word8(x: U64): seq<Byte> { Widths(); Le(x, 8) }

  function HeaderBytes(h: Header): seq<Byte> {
    Word4(h.flags) + (Word8(h.cas) + (Word8(Bits(ToMicros(h.expiry))) + (Word8(h.generation)
    + (Word8(Bits(ToMicros(h.lastAccess))) + Byte1(if h.stale then 1 else 0)))))
  }

  /** The current layout, version 4. */
  function Encode(r: Record): seq<Byte>
    requires Encodable(r)
  {
    match r.body
    case Inline(stored) =>
      Byte1(KIND_INLINE) + (Byte1(r.codec) + (HeaderBytes(r.header)
      + (Word4(|stored|) + (Word4(r.originalLen) + stored))))
    case Chained(root, storedLen) =>
      Byte1(KIND_OVERFLOW) + (Byte1(r.codec) + (HeaderBytes(r.header)
      + (Word8(storedLen) + (Word8(r.originalLen) + Word8(root)))))
  }

  // ---- Reading ----

  /** The next `n` bytes as an integer, and what follows. */
  function Take(cursor: seq<Byte>, n: nat): (r: Option<(nat, seq<Byte>)>)
    ensures r.Some? ==> |r.value.1| + n == |cursor| && r.value.0 < Pow256(n)
  {
    if |cursor| < n then None
    else
      UnLeBound(cursor[..n]);
      Some((UnLe(cursor[..n]), cursor[n..]))
  }

  function TakeU64(cursor: seq<Byte>): Option<(U64, seq<Byte>)> {
    Widths();
    match Take(cursor, 8)
    case None => None
    case Some((x, rest)) => Some((x, rest))
  }

  function TakeU32(cursor: seq<Byte>): Option<(U32, seq<Byte>)> {
    Widths();
    match Take(cursor, 4)
    case None => None
    case Some((x, rest)) => Some((x, rest))
  }

  function TakeU8(cursor: seq<Byte>): Option<(U8, seq<Byte>)> {
    Widths();
    match Take(cursor, 1)
    case None => None
    case Some((x, rest)) => Some((x, rest))
  }

  function ReadHeader(cursor: seq<Byte>): Option<(Header, seq<Byte>)> {
    match TakeU32(cursor)
    case None => None
    case Some((flags, c1)) => match TakeU64(c1)
    case None => None
    case Some((cas, c2)) => match TakeU64(c2)
    case None => None
    case Some((expiry, c3)) => match TakeU64(c3)
    case None => None
    case Some((generation, c4)) => match TakeU64(c4)
    case None => None
    case Some((lastAccess, c5)) => match TakeU8(c5)
    case None => None
    case Some((stale, c6)) =>
      Some((Header(flags, cas, FromMicros(Signed(expiry)), generation, FromMicros(Signed(lastAccess)), stale != 0), c6))
  }

  /** Version 4: bytes after the value are ignored. */
  function Parse(raw: seq<Byte>): Result<Record> {
    match TakeU8(raw)
    case None => Err(Corrupt)
    case Some((kind, c0)) => match TakeU8(c0)
    case None => Err(Corrupt)
    case Some((codec, c1)) => match ReadHeader(c1)
    case None => Err(Corrupt)
    case Some((header, c2)) =>
      if kind == KIND_INLINE then ParseInline(header, codec, c2)
      else if kind == KIND_OVERFLOW then ParseOverflow(header, codec, c2)
      else Err(Corrupt)
  }

  function ParseInline(header: Header, codec: U8, cursor: seq<Byte>): Result<Record> {
    match TakeU32(cursor)
    case None => Err(Corrupt)
    case Some((len, c1)) => match TakeU32(c1)
    case None => Err(Corrupt)
    case Some((originalLen, c2)) =>
      if |c2| < len then Err(Corrupt) else Ok(Record(header, codec, originalLen, Inline(c2[..len])))
  }

  function ParseOverflow(header: Header, codec: U8, cursor: seq<Byte>): Result<Record> {
    match TakeU64(cursor)
    case None => Err(Corrupt)
    case Some((storedLen, c1)) => match TakeU64(c1)
    case None => Err(Corrupt)
    case Some((originalLen, c2)) => match TakeU64(c2)
    case None => Err(Corrupt)
    case Some((root, _)) => Ok(Record(header, codec, originalLen, Chained(root, storedLen)))
  }

  /** Version 3: no codec, no original length, and no byte left over. */
  function ParseV3(raw: seq<Byte>): Result<Record> {
    match TakeU8(raw)
    case None => Err(Corrupt)
    case Some((kind, c0)) => match ReadHeader(c0)
    case None => Err(Corrupt)
    case Some((header, c1)) =>
      if kind == KIND_INLINE then ParseInlineV3(header, c1)
      else if kind == KIND_OVERFLOW then ParseOverflowV3(header, c1)
      else Err(Corrupt)
  }

  function ParseInlineV3(header: Header, cursor: seq<Byte>): Result<Record> {
    match TakeU32(cursor)
    case None => Err(Corrupt)
    case Some((len, c1)) =>
      if |c1| != len then Err(Corrupt) else Ok(Record(header, IDENTITY, len, Inline(c1)))
  }

  function ParseOverflowV3(header: Header, cursor: seq<Byte>): Result<Record> {
    match TakeU64(cursor)
    case None => Err(Corrupt)
    case Some((storedLen, c1)) => match TakeU64(c1)
    case None => Err(Corrupt)
    case Some((root, rest)) =>
      if rest != [] then Err(Corrupt) else Ok(Record(header, IDENTITY, storedLen, Chained(root, storedLen)))
  }

  // ---- Round trips ----

  lemma TakeBack(x: nat, n: nat, rest: seq<Byte>)
    requires x < Pow256(n)
    ensures Take(Le(x, n) + rest, n) == Some((x, rest))
  {
    var s := Le(x, n) + rest;
    assert s[..n] == Le(x, n) && s[n..] == rest;
  }

  lemma TakeByte1(x: U8, rest: seq<Byte>)
    ensures TakeU8(Byte1(x) + rest) == Some((x, rest))
  {
    Widths();
    TakeBack(x, 1, rest);
  }

  lemma TakeWord4(x: U32, rest: seq<Byte>)
    ensures TakeU32(Word4(x) + rest) == Some((x, rest))
  {
    Widths();
    TakeBack(x, 4, rest);
  }

  lemma TakeWord8(x: U64, rest: seq<Byte>)
    ensures TakeU64(Word8(x) + rest) == Some((x, rest))
  {
    Widths();
    TakeBack(x, 8, rest);
  }

  function RoundedHeader(h: Header): Header {
    h.(expiry := Rounded(h.expiry), lastAccess := Rounded(h.lastAccess))
  }

  function RoundedRecord(r: Record): Record {
    r.(header := RoundedHeader(r.header))
  }

  lemma HeaderReadsBack(h: Header, rest: seq<Byte>)
    ensures ReadHeader(HeaderBytes(h) + rest) == Some((RoundedHeader(h), rest))
  {
    hide Word4, Word8, Byte1, TakeU8, TakeU32, TakeU64, ToMicros, FromMicros;
    var e, a := Bits(ToMicros(h.expiry)), Bits(ToMicros(h.lastAccess));
    var s6 := Byte1(if h.stale then 1 else 0) + rest;
    var s5 := Word8(a) + s6;
    var s4 := Word8(h.generation) + s5;
    var s3 := Word8(e) + s4;
    var s2 := Word8(h.cas) + s3;
    assert HeaderBytes(h) + rest == Word4(h.flags) + s2;
    TakeWord4(h.flags, s2);
    TakeWord8(h.cas, s3);
    TakeWord8(e, s4);
    TakeWord8(h.generation, s5);
    TakeWord8(a, s6);
    TakeByte1(if h.stale then 1 else 0, rest);
    SignedBits(ToMicros(h.expiry));
    SignedBits(ToMicros(h.lastAccess));
  }

  lemma SignedBits(x: I64)
    ensures Signed(Bits(x)) == x
  {
  }

  /** Every record reads back, its times rounded to what is stored. */
  lemma RecordRoundTrip(r: Record)
    requires Encodable(r)
    ensures Parse(Encode(r)) == Ok(RoundedRecord(r))
  {
    hide Word4, Word8, Byte1, TakeU8, TakeU32, TakeU64, HeaderBytes, ReadHeader, Rounded;
    match r.body {
      case Inline(stored) =>
        var tail := Word4(|stored|) + (Word4(r.originalLen) + stored);
        TakeByte1(KIND_INLINE, Byte1(r.codec) + (HeaderBytes(r.header) + tail));
        TakeByte1(r.codec, HeaderBytes(r.header) + tail);
        HeaderReadsBack(r.header, tail);
        TakeWord4(|stored|, Word4(r.originalLen) + stored);
        TakeWord4(r.originalLen, stored);
        assert stored[..|stored|] == stored;
      case Chained(root, storedLen) =>
        var tail := Word8(storedLen) + (Word8(r.originalLen) + Word8(root));
        TakeByte1(KIND_OVERFLOW, Byte1(r.codec) + (HeaderBytes(r.header) + tail));
        TakeByte1(r.codec, HeaderBytes(r.header) + tail);
        HeaderReadsBack(r.header, tail);
        TakeWord8(storedLen, Word8(r.originalLen) + Word8(root));
        TakeWord8(r.originalLen, Word8(root));
        assert Word8(root) + [] == Word8(root);
        TakeWord8(root, []);
    }
  }

  /** A header read off the disk is already rounded. */
  lemma ReadHeaderIsRounded(cursor: seq<Byte>)
    requires ReadHeader(cursor).Some?
    ensures RoundedHeader(ReadHeader(cursor).value.0) == ReadHeader(cursor).value.0
  {
    hide TakeU8, TakeU32, TakeU64, FromMicros, ToMicros;
    var c1 := TakeU32(cursor).value.1;
    var c2 := TakeU64(c1).value.1;
    var c3 := TakeU64(c2).value;
    var c4 := TakeU64(c3.1).value.1;
    var c5 := TakeU64(c4).value;
    MicrosAreStable(Signed(c3.0));
    MicrosAreStable(Signed(c5.0));
  }

  /** A parsed record's times are already rounded, so encoding it again loses
      nothing. */
  lemma ParsedReadsBack(raw: seq<Byte>)
    requires Parse(raw).Ok?
    ensures Encodable(Parse(raw).value) && Parse(Encode(Parse(raw).value)) == Parse(raw)
  {
    hide Encode, ReadHeader, TakeU8, TakeU32, TakeU64, Rounded;
    var c0 := TakeU8(raw).value.1;
    ReadHeaderIsRounded(TakeU8(c0).value.1);
    RecordRoundTrip(Parse(raw).value);
  }

  /** The first byte decides between inline and descriptor, and nothing else reads. */
  lemma KindDecides(raw: seq<Byte>)
    ensures Parse(raw).Ok? ==> raw != [] && raw[0] as nat == (if Parse(raw).value.body.Inline? then 0 else 1)
    ensures ParseV3(raw).Ok? ==> raw != [] && raw[0] as nat == (if ParseV3(raw).value.body.Inline? then 0 else 1)
  {
    hide ReadHeader, TakeU32, TakeU64;
    if raw != [] {
      assert raw[..1] == [raw[0]] && [raw[0]][1..] == [];
    }
  }

  // ---- Conversion ----

  /** What version 3 could hold: values as they are, and one length. */
  predicate EncodableV3(r: Record) {
    && r.codec == IDENTITY
    && match r.body
       case Inline(stored) => |stored| == r.originalLen < 0x1_0000_0000
       case Chained(_, storedLen) => storedLen == r.originalLen
  }

  /** The layout before the codec: kind, header, length, then the bytes or the
      chain's first page. */
  function EncodeV3(r: Record): seq<Byte>
    requires EncodableV3(r)
  {
    match r.body
    case Inline(stored) => Byte1(KIND_INLINE) + (HeaderBytes(r.header) + (Word4(|stored|) + stored))
    case Chained(root, storedLen) => Byte1(KIND_OVERFLOW) + (HeaderBytes(r.header) + (Word8(storedLen) + Word8(root)))
  }

  /** Every version 3 record reads back as its own fields. */
  lemma RecordV3RoundTrip(r: Record)
    requires EncodableV3(r)
    ensures ParseV3(EncodeV3(r)) == Ok(RoundedRecord(r))
  {
    hide Word4, Word8, Byte1, TakeU8, TakeU32, TakeU64, HeaderBytes, ReadHeader, Rounded;
    match r.body {
      case Inline(stored) =>
        var tail := Word4(|stored|) + stored;
        TakeByte1(KIND_INLINE, HeaderBytes(r.header) + tail);
        HeaderReadsBack(r.header, tail);
        TakeWord4(|stored|, stored);
      case Chained(root, storedLen) =>
        var tail := Word8(storedLen) + Word8(root);
        TakeByte1(KIND_OVERFLOW, HeaderBytes(r.header) + tail);
        HeaderReadsBack(r.header, tail);
        TakeWord8(storedLen, Word8(root));
        assert Word8(root) + [] == Word8(root);
        TakeWord8(root, []);
    }
  }

  /** Converting a version 3 record gives the version 4 record of the same fields:
      the value uncompressed, its one length now said twice. */
  lemma ConversionOfFields(r: Record)
    requires EncodableV3(r)
    ensures Encodable(RoundedRecord(r)) && ParseV3(EncodeV3(r)).Ok?
    ensures Encode(ParseV3(EncodeV3(r)).value) == Encode(RoundedRecord(r))
    ensures Parse(Encode(ParseV3(EncodeV3(r)).value)) == Ok(RoundedRecord(r))
  {
    hide Encode, Parse, EncodeV3, ParseV3, Rounded;
    RecordV3RoundTrip(r);
    ConversionPreserves(EncodeV3(r));
  }

  /** Any record that reads as version 3 re-encodes to a version 4 record that
      reads as the same fields and the same value. */
  lemma ConversionPreserves(raw: seq<Byte>)
    requires ParseV3(raw).Ok?
    ensures Encodable(ParseV3(raw).value) && Parse(Encode(ParseV3(raw).value)) == ParseV3(raw)
  {
    hide Encode, Parse, ReadHeader, TakeU8, TakeU32, TakeU64, Rounded;
    var c0 := TakeU8(raw).value.1;
    ReadHeaderIsRounded(c0);
    RecordRoundTrip(ParseV3(raw).value);
  }

  lemma HeaderSize(h: Header, cursor: seq<Byte>)
    ensures |HeaderBytes(h)| == 37
    ensures ReadHeader(cursor).Some? ==> |ReadHeader(cursor).value.1| + 37 == |cursor|
  {
  }

  lemma EncodedSize(r: Record)
    requires Encodable(r)
    ensures |Encode(r)| == 39 + if r.body.Inline? then 8 + |r.body.stored| else 24
  {
    hide HeaderBytes;
    HeaderSize(r.header, []);
  }

  /** A record read off the disk re-encodes to no more bytes than it was read from,
      whatever header it is given. */
  lemma ReencodedSize(raw: seq<Byte>, h: Header)
    requires Parse(raw).Ok?
    ensures var r := Parse(raw).value.(header := h);
            Encodable(r) && |Encode(r)| <= |raw|
  {
    hide Encode, ReadHeader;
    var r := Parse(raw).value;
    var c0 := TakeU8(raw).value.1;
    HeaderSize(r.header, TakeU8(c0).value.1);
    EncodedSize(r.(header := h));
  }

  /** Converting costs five bytes inline and nine in a descriptor. */
  lemma ConversionGrows(raw: seq<Byte>)
    requires ParseV3(raw).Ok?
    ensures Encodable(ParseV3(raw).value)
    ensures |Encode(ParseV3(raw).value)| == |raw| + if ParseV3(raw).value.body.Inline? then 5 else 9
  {
    hide Encode, ReadHeader;
    var r := ParseV3(raw).value;
    HeaderSize(r.header, TakeU8(raw).value.1);
    EncodedSize(r);
  }
}
