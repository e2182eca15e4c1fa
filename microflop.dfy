/**
 * The microflop archive format (crates/microflop): a 4-byte magic, a table of
 * 28-byte header entries closed by an End entry, then the file contents.
 */
module Microflop {
  import opened Wrappers

  type byte = b: int | 0 <= b < 256
  type u32 = x: int | 0 <= x < 0x1_0000_0000

  datatype Error = BadMagic | BadEntry

  /** size_of::<Header>() */
  const HEADER_SIZE: nat := 4
  /** size_of::<FileName>() */
  const NAME_SIZE: nat := 16
  /** size_of::<HeaderEntry>(): name, two offsets, the tag and three bytes of padding */
  const ENTRY_SIZE: nat := 28
  /** u32::from_le_bytes(*b"meww") */
  const MAGIC: u32 := 0x7777_656d

  // ---------------------------------------------------------------------
  // Little-endian u32
  // ---------------------------------------------------------------------

  /** u32::to_le_bytes */
  function Le32(v: u32): (bs: seq<byte>)
    ensures |bs| == 4
  {
    [v % 256, v / 0x100 % 256, v / 0x1_0000 % 256, v / 0x100_0000]
  }

  /** u32::from_le_bytes */
  function FromLe32(bs: seq<byte>): u32
    requires |bs| == 4
  {
    bs[0] as int + 256 * (bs[1] as int + 256 * (bs[2] as int + 256 * bs[3] as int))
  }

  /** Decoding the encoding of a word gives the word. */
  lemma Le32RoundTrip(v: u32)
    ensures FromLe32(Le32(v)) == v
  {
    var q1 := v / 0x100;
    var q2 := q1 / 0x100;
    assert v == v % 256 + 256 * q1;
    assert q1 == q1 % 256 + 256 * q2;
    assert q2 == q2 % 256 + 256 * (q2 / 256);
    assert v / 0x1_0000 == q2;
    assert v / 0x100_0000 == q2 / 256;
  }

  /** Encoding the decoding of four bytes gives the bytes. */
  lemma FromLe32RoundTrip(bs: seq<byte>)
    requires |bs| == 4
    ensures Le32(FromLe32(bs)) == bs
  {
    var v := FromLe32(bs);
    var hi2: int := bs[2] as int + 256 * bs[3] as int;
    var hi1: int := bs[1] as int + 256 * hi2;
    DivMod256(v, hi1, bs[0]);
    DivMod256(hi1, hi2, bs[1]);
    DivMod256(hi2, bs[3], bs[2]);
    assert v / 0x1_0000 == hi1 / 256;
    assert v / 0x100_0000 == hi2 / 256;
  }

  lemma DivMod256(x: int, q: int, r: int)
    requires 0 <= r < 256 && x == r + 256 * q
    ensures x / 256 == q && x % 256 == r
  {
  }

  /** The magic word is the bytes of "meww" read little-endian. */
  lemma MagicIsMeww()
    ensures Le32(MAGIC) == [0x6d, 0x65, 0x77, 0x77]
  {
  }

  // ---------------------------------------------------------------------
  // HeaderEntryType (an int_enum_only! instance over u8)
  // ---------------------------------------------------------------------

  datatype HeaderEntryType = End | Entry

  /** `tag as u8` */
  function TagByte(t: HeaderEntryType): byte {
    match t
    case End => 0
    case Entry => 1
  }

  /** TryFrom<u8> for HeaderEntryType: Ok for a listed number, Err(()) for any other */
  function TagTryFrom(b: byte): (r: Result<HeaderEntryType, ()>)
    ensures r.Ok? <==> b <= 1
    ensures r.Ok? ==> TagByte(r.value) == b
  {
    if b == 0 then Ok(End) else if b == 1 then Ok(Entry) else Err(())
  }

  /** Every tag survives the trip through its byte. */
  lemma TagRoundTrip(t: HeaderEntryType)
    ensures TagTryFrom(TagByte(t)) == Ok(t)
  {
  }

  // ---------------------------------------------------------------------
  // FileName
  // ---------------------------------------------------------------------

  /** The contents of a [u8; 16] */
  type NameBytes = s: seq<byte> | |s| == NAME_SIZE
    witness seq(NAME_SIZE, _ => 0)

  /** FileName([u8; 16]): zero-terminated UTF-8 */
  datatype FileName = FileName(bytes: NameBytes)

  function Zeros(n: nat): (z: seq<byte>)
    ensures |z| == n && forall i | 0 <= i < n :: z[i] == 0
  {
    seq(n, _ => 0)
  }

  /** FileName::EMPTY */
  const EMPTY: FileName := FileName(Zeros(NAME_SIZE))

  /** A continuation byte 10xxxxxx */
  predicate Cont(b: byte) {
    0x80 <= b <= 0xbf
  }

  /** Well-formed UTF-8, byte sequence by byte sequence (Table 3-7 of the Unicode Standard) */
  predicate ValidUtf8(s: seq<byte>)
    decreases |s|
  {
    if |s| == 0 then true
    else if s[0] < 0x80 then ValidUtf8(s[1..])
    else if 0xc2 <= s[0] <= 0xdf then |s| >= 2 && Cont(s[1]) && ValidUtf8(s[2..])
    else if s[0] == 0xe0 then |s| >= 3 && 0xa0 <= s[1] <= 0xbf && Cont(s[2]) && ValidUtf8(s[3..])
    else if 0xe1 <= s[0] <= 0xec || 0xee <= s[0] <= 0xef then
      |s| >= 3 && Cont(s[1]) && Cont(s[2]) && ValidUtf8(s[3..])
    else if s[0] == 0xed then |s| >= 3 && 0x80 <= s[1] <= 0x9f && Cont(s[2]) && ValidUtf8(s[3..])
    else if s[0] == 0xf0 then
      |s| >= 4 && 0x90 <= s[1] <= 0xbf && Cont(s[2]) && Cont(s[3]) && ValidUtf8(s[4..])
    else if 0xf1 <= s[0] <= 0xf3 then
      |s| >= 4 && Cont(s[1]) && Cont(s[2]) && Cont(s[3]) && ValidUtf8(s[4..])
    else if s[0] == 0xf4 then
      |s| >= 4 && 0x80 <= s[1] <= 0x8f && Cont(s[2]) && Cont(s[3]) && ValidUtf8(s[4..])
    else false
  }

  /** `iter().position(|c| *c == 0)`: the first NUL, if any */
  function FirstNul(s: seq<byte>): (r: Option<nat>)
    ensures r.None? <==> 0 !in s
    ensures r.Some? ==> r.value < |s| && s[r.value] == 0 && 0 !in s[..r.value]
  {
    if |s| == 0 then None
    else if s[0] == 0 then Some(0)
    else
      var k := FirstNul(s[1..]);
      if k.None? then None
      else
        assert s[..k.value + 1] == [s[0]] + s[1..][..k.value];
        Some(k.value + 1)
  }

  /** FileName::as_str: the bytes before the first NUL, which must be UTF-8 */
  function AsStr(f: FileName): (r: Result<seq<byte>, Error>)
    ensures 0 !in f.bytes ==> r == Err(BadEntry)
    ensures r.Err? ==> r.error == BadEntry
    ensures r.Ok? ==> r.value + [0] <= f.bytes && 0 !in r.value && ValidUtf8(r.value)
    ensures forall k | 0 <= k < |f.bytes| && f.bytes[k] == 0 && 0 !in f.bytes[..k] ::
      r.Ok? <==> ValidUtf8(f.bytes[..k])
  {
    match FirstNul(f.bytes)
    case None => Err(BadEntry)
    case Some(k) =>
      assert f.bytes[..k] + [0] == f.bytes[..k + 1];
      if ValidUtf8(f.bytes[..k]) then Ok(f.bytes[..k]) else Err(BadEntry)
  }

  /** The name FileName::new makes from `name`: its bytes, then zeros to 16 */
  function Padded(name: seq<byte>): (f: FileName)
    requires |name| <= NAME_SIZE - 1
    ensures f.bytes[..|name|] == name && 0 in f.bytes
  {
    var f := FileName(name + Zeros(NAME_SIZE - |name|));
    assert f.bytes[|name|] == 0;
    f
  }

  /** as_str gives back the name new stored, for a NUL-free UTF-8 name of at most 15 bytes. */
  lemma AsStrPadded(name: seq<byte>)
    requires |name| <= NAME_SIZE - 1 && 0 !in name && ValidUtf8(name)
    ensures AsStr(Padded(name)) == Ok(name)
  {
    var b := Padded(name).bytes;
    assert b[..|name|] == name && b[|name|] == 0;
  }

  /** The empty name reads back as the empty string. */
  lemma EmptyName()
    ensures AsStr(EMPTY) == Ok([])
  {
    assert EMPTY == Padded([]);
    AsStrPadded([]);
  }

  /**
   * FileName::new: names longer than 15 bytes are refused; otherwise the
   * bytes are copied into a zeroed 16-byte array, so a NUL always follows.
   */
  method NewFileName(name: seq<byte>) returns (r: Result<FileName, Error>)
    ensures r.Err? <==> |name| > NAME_SIZE - 1
    ensures r.Err? ==> r.error == BadEntry
    ensures r.Ok? ==> |name| <= NAME_SIZE - 1 && r.value == Padded(name)
  {
    var out := new byte[NAME_SIZE](_ => 0);
    if |name| > NAME_SIZE - 1 {
      return Err(BadEntry);
    }
    var i := 0;
    while i < |name|
      invariant 0 <= i <= |name|
      invariant out[..i] == name[..i]
      invariant forall j | i <= j < NAME_SIZE :: out[j] == 0
    {
      out[i] := name[i];
      i := i + 1;
    }
    assert out[..] == name + Zeros(NAME_SIZE - |name|);
    r := Ok(FileName(out[..]));
  }

  // ---------------------------------------------------------------------
  // HeaderEntry
  // ---------------------------------------------------------------------

  datatype HeaderEntry = HeaderEntry(fname: FileName, begin: u32, end: u32, tag: HeaderEntryType)

  /** The 28 bytes HeaderEntry::serialize writes */
  function EntryBytes(e: HeaderEntry): (bs: seq<byte>)
    ensures |bs| == ENTRY_SIZE
  {
    e.fname.bytes + Le32(e.begin) + Le32(e.end) + [TagByte(e.tag)] + [0, 0, 0]
  }

  /**
   * What HeaderEntry::deserialize needs to finish without a panic: the splits
   * need 25 bytes, and when the tag is good, skipping the padding needs 28.
   */
  predicate DeserializeDefined(s: seq<byte>) {
    |s| >= 25 && (s[24] <= 1 ==> |s| >= ENTRY_SIZE)
  }

  /** HeaderEntry::deserialize: the entry, and the bytes after its 28 */
  function Deserialize(s: seq<byte>): (r: Result<(HeaderEntry, seq<byte>), Error>)
    requires DeserializeDefined(s)
    ensures r.Err? <==> s[24] > 1
    ensures r.Err? ==> r.error == BadEntry
    ensures r.Ok? ==> |s| >= ENTRY_SIZE && r.value.1 == s[ENTRY_SIZE..]
    ensures r.Ok? ==> EntryBytes(r.value.0)[..25] == s[..25]
  {
    var fname := FileName(s[..16]);
    var begin := FromLe32(s[16..20]);
    var end := FromLe32(s[20..24]);
    match TagTryFrom(s[24])
    case Err(_) => Err(BadEntry)
    case Ok(tag) =>
      var e := HeaderEntry(fname, begin, end, tag);
      FromLe32RoundTrip(s[16..20]);
      FromLe32RoundTrip(s[20..24]);
      assert EntryBytes(e)[..25] == s[..16] + s[16..20] + s[20..24] + [s[24]] == s[..25];
      Ok((e, s[ENTRY_SIZE..]))
  }

  /** Deserializing what serialize wrote gives the entry back and the rest untouched. */
  lemma DeserializeSerialize(e: HeaderEntry, rest: seq<byte>)
    ensures DeserializeDefined(EntryBytes(e) + rest)
    ensures Deserialize(EntryBytes(e) + rest) == Ok((e, rest))
  {
    var s := EntryBytes(e) + rest;
    assert s[..16] == e.fname.bytes;
    assert s[16..20] == Le32(e.begin);
    assert s[20..24] == Le32(e.end);
    assert s[24] == TagByte(e.tag);
    assert s[ENTRY_SIZE..] == rest;
    Le32RoundTrip(e.begin);
    Le32RoundTrip(e.end);
    TagRoundTrip(e.tag);
  }

  // ---------------------------------------------------------------------
  // Serialization to a writer
  // ---------------------------------------------------------------------

  /** An output stream (std::io::Write): the bytes written so far */
  class Writer {
    var out: seq<byte>

    constructor ()
      ensures out == []
    {
      out := [];
    }

    /** write_all */
    method WriteAll(bs: seq<byte>)
      modifies this
      ensures out == old(out) + bs
    {
      out := out + bs;
    }
  }

  /** FileName::serialize */
  method SerializeFileName(f: FileName, w: Writer)
    modifies w
    ensures w.out == old(w.out) + f.bytes
  {
    w.WriteAll(f.bytes);
  }

  /** Offset::serialize */
  method SerializeOffset(v: u32, w: Writer)
    modifies w
    ensures w.out == old(w.out) + Le32(v)
  {
    w.WriteAll(Le32(v));
  }

  /** HeaderEntryType::serialize */
  method SerializeTag(t: HeaderEntryType, w: Writer)
    modifies w
    ensures w.out == old(w.out) + [TagByte(t)]
  {
    w.WriteAll([TagByte(t)]);
  }

  /** HeaderEntry::serialize: name, begin, end, tag, then three zero bytes of padding */
  method SerializeEntry(e: HeaderEntry, w: Writer)
    modifies w
    ensures w.out == old(w.out) + EntryBytes(e)
  {
    SerializeFileName(e.fname, w);
    SerializeOffset(e.begin, w);
    SerializeOffset(e.end, w);
    SerializeTag(e.tag, w);
    w.WriteAll([0, 0, 0]);
  }

  // ---------------------------------------------------------------------
  // Microflop and IterFiles
  // ---------------------------------------------------------------------

  /** A client over the whole archive */
  datatype Microflop = Microflop(region: seq<byte>)

  /**
   * Microflop::new: the first four bytes must read as MAGIC; a region shorter
   * than four bytes makes the slice panic.
   */
  function New(region: seq<byte>): (r: Result<Microflop, Error>)
    requires |region| >= HEADER_SIZE
    ensures r.Ok? <==> region[..HEADER_SIZE] == Le32(MAGIC)
    ensures r.Ok? ==> r.value.region == region
    ensures r.Err? ==> r.error == BadMagic
  {
    FromLe32RoundTrip(region[..HEADER_SIZE]);
    Le32RoundTrip(MAGIC);
    if FromLe32(region[..HEADER_SIZE]) != MAGIC then Err(BadMagic) else Ok(Microflop(region))
  }

  /** A file yielded by the iterator: its name and its bytes */
  type Item = (FileName, seq<byte>)

  /** What IterFiles::next needs to finish without a panic: a whole entry, and an in-range file slice */
  predicate NextDefined(region: seq<byte>, start: seq<byte>) {
    && DeserializeDefined(start)
    && match Deserialize(start)
       case Ok((e, _)) => e.tag == Entry ==> e.begin <= e.end <= |region|
       case Err(_) => true
  }

  /**
   * One call of IterFiles::next: the result, and where the iterator then
   * stands. Only an Entry moves it on, by exactly one entry.
   */
  function NextStep(region: seq<byte>, start: seq<byte>): (res: (Result<Option<Item>, Error>, seq<byte>))
    requires NextDefined(region, start)
    ensures res.0.Ok? && res.0.value.Some? ==> |start| >= ENTRY_SIZE && res.1 == start[ENTRY_SIZE..]
    ensures !(res.0.Ok? && res.0.value.Some?) ==> res.1 == start
    ensures res.0.Err? <==> start[24] > 1
    ensures res.0 == Ok(None) <==> start[24] == 0
    ensures start[24] == 1 ==>
      && FromLe32(start[16..20]) <= FromLe32(start[20..24]) <= |region|
      && res.0 == Ok(Some((FileName(start[..16]), region[FromLe32(start[16..20])..FromLe32(start[20..24])])))
  {
    match Deserialize(start)
    case Err(err) => (Err(err), start)
    case Ok((e, rest)) =>
      match e.tag
      case End => (Ok(None), start)
      case Entry => (Ok(Some((e.fname, region[e.begin..e.end]))), rest)
  }

  /** The iterator over an archive's files */
  class IterFiles {
    const region: seq<byte>
    var start: seq<byte>

    /** Microflop::files: the entries start right after the magic */
    constructor Files(m: Microflop)
      requires |m.region| >= HEADER_SIZE
      ensures region == m.region && start == m.region[HEADER_SIZE..]
    {
      region := m.region;
      start := m.region[HEADER_SIZE..];
    }

    /** IterFiles::next */
    method Next() returns (r: Result<Option<Item>, Error>)
      requires NextDefined(region, start)
      modifies this
      ensures (r, start) == NextStep(region, old(start))
    {
      var d := Deserialize(start);
      if d.Err? {
        return Err(d.error);
      }
      var (entry, rest) := d.value;
      match entry.tag {
        case End =>
          r := Ok(None);
        case Entry =>
          start := rest;
          r := Ok(Some((entry.fname, region[entry.begin..entry.end])));
      }
    }
  }
}
