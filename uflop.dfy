/**
 * The archive builder of tools/uflop (`uflop new`): file names and contents
 * come in as values, and the archive comes out as bytes.
 */
module Uflop {
  import opened Wrappers
  import opened Microflop

  /** Where `new` stops: the file whose name is too long, or whose offsets do not fit a u32 */
  datatype BuildError = BadName(index: nat) | OffsetOverflow(index: nat)

  const U32_LIMIT: int := 0x1_0000_0000

  /** remain_align: the zero bytes that bring a file's length to a multiple of 8 */
  function Pad(len: nat): (p: nat)
    ensures p < 8 && (len + p) % 8 == 0
  {
    (8 - len % 8) % 8
  }

  /** headers_end: the magic, then one entry per file and the End entry */
  function HeadersEnd(n: nat): nat {
    ENTRY_SIZE * (n + 1) + HEADER_SIZE
  }

  lemma TakeDrop<T>(s: seq<T>, k: nat)
    requires k <= |s|
    ensures s[..k] + s[k..] == s
  {
  }

  lemma TakeSnoc<T>(s: seq<T>, k: nat)
    requires k < |s|
    ensures s[..k + 1] == s[..k] + [s[k]]
  {
  }

  /** The bytes the contents take up, each padded */
  function DataSize(contents: seq<seq<byte>>): nat {
    if |contents| == 0 then 0 else |contents[0]| + Pad(|contents[0]|) + DataSize(contents[1..])
  }

  lemma {:induction false} DataSizeConcat(a: seq<seq<byte>>, b: seq<seq<byte>>)
    ensures DataSize(a + b) == DataSize(a) + DataSize(b)
  {
    if |a| > 0 {
      assert (a + b)[1..] == a[1..] + b;
      DataSizeConcat(a[1..], b);
    } else {
      assert a + b == b;
    }
  }

  /** The running out_pos when file i is reached: where its bytes begin */
  function FileBegin(contents: seq<seq<byte>>, i: nat): nat
    requires i <= |contents|
  {
    HeadersEnd(|contents|) + DataSize(contents[..i])
  }

  /** file_end for file i */
  function FileEnd(contents: seq<seq<byte>>, i: nat): nat
    requires i < |contents|
  {
    FileBegin(contents, i) + |contents[i]|
  }

  /** Each file moves out_pos on by its length and its padding. */
  lemma FileBeginStep(contents: seq<seq<byte>>, i: nat)
    requires i < |contents|
    ensures FileBegin(contents, i + 1) == FileEnd(contents, i) + Pad(|contents[i]|)
  {
    TakeSnoc(contents, i);
    DataSizeConcat(contents[..i], [contents[i]]);
  }

  /** Files lie in input order, one after the other, without overlapping. */
  lemma {:induction false} FilesOrdered(contents: seq<seq<byte>>, i: nat, j: nat)
    requires i < j < |contents|
    ensures FileEnd(contents, i) <= FileEnd(contents, i) + Pad(|contents[i]|) <= FileBegin(contents, j)
    ensures FileBegin(contents, i) < FileBegin(contents, j) || |contents[i]| == 0
    decreases j - i
  {
    FileBeginStep(contents, i);
    if i + 1 < j {
      FilesOrdered(contents, i + 1, j);
    }
  }

  /** The last file ends inside the archive's data. */
  lemma FileEndBound(contents: seq<seq<byte>>, i: nat)
    requires i < |contents|
    ensures FileEnd(contents, i) <= HeadersEnd(|contents|) + DataSize(contents)
  {
    FileBeginStep(contents, i);
    TakeDrop(contents, i + 1);
    DataSizeConcat(contents[..i + 1], contents[i + 1..]);
  }

  /** File i can be archived: its name fits and so do its offsets */
  predicate Fits(names: seq<seq<byte>>, contents: seq<seq<byte>>, i: nat)
    requires i < |names| == |contents|
  {
    |names[i]| <= NAME_SIZE - 1 && FileEnd(contents, i) < U32_LIMIT
  }

  predicate AllFit(names: seq<seq<byte>>, contents: seq<seq<byte>>)
    requires |names| == |contents|
  {
    forall i | 0 <= i < |names| :: Fits(names, contents, i)
  }

  /** The header entry of file i */
  function FileEntry(names: seq<seq<byte>>, contents: seq<seq<byte>>, i: nat): (e: HeaderEntry)
    requires i < |names| == |contents| && Fits(names, contents, i)
    ensures e.tag == Entry && e.begin <= e.end
  {
    HeaderEntry(Padded(names[i]), FileBegin(contents, i), FileEnd(contents, i), Entry)
  }

  /** The closing entry: empty name, zero offsets */
  const END_ENTRY: HeaderEntry := HeaderEntry(EMPTY, 0, 0, End)

  /** The header table: every file's entry in input order, then the End entry */
  function Entries(names: seq<seq<byte>>, contents: seq<seq<byte>>): (hs: seq<HeaderEntry>)
    requires |names| == |contents| && AllFit(names, contents)
    ensures |hs| == |names| + 1 && hs[|names|] == END_ENTRY
    ensures forall i | 0 <= i < |names| :: hs[i] == FileEntry(names, contents, i)
  {
    seq(|names|, i requires 0 <= i < |names| => FileEntry(names, contents, i)) + [END_ENTRY]
  }

  /** The serialized header table */
  function HeaderBytes(hs: seq<HeaderEntry>): (bs: seq<byte>)
    ensures |bs| == ENTRY_SIZE * |hs|
  {
    if |hs| == 0 then [] else EntryBytes(hs[0]) + HeaderBytes(hs[1..])
  }

  lemma {:induction false} HeaderBytesConcat(a: seq<HeaderEntry>, b: seq<HeaderEntry>)
    ensures HeaderBytes(a + b) == HeaderBytes(a) + HeaderBytes(b)
  {
    if |a| > 0 {
      assert (a + b)[1..] == a[1..] + b;
      HeaderBytesConcat(a[1..], b);
    } else {
      assert a + b == b;
    }
  }

  /** The table serializes as its first k entries, then the rest. */
  lemma HeaderBytesSplit(hs: seq<HeaderEntry>, k: nat)
    requires k <= |hs|
    ensures HeaderBytes(hs) == HeaderBytes(hs[..k]) + HeaderBytes(hs[k..])
  {
    TakeDrop(hs, k);
    HeaderBytesConcat(hs[..k], hs[k..]);
  }


  /** Serializing one more entry appends its bytes. */
  lemma HeaderBytesSnoc(hs: seq<HeaderEntry>, k: nat)
    requires k < |hs|
    ensures HeaderBytes(hs[..k + 1]) == HeaderBytes(hs[..k]) + EntryBytes(hs[k])
  {
    TakeSnoc(hs, k);
    HeaderBytesConcat(hs[..k], [hs[k]]);
    assert HeaderBytes([hs[k]]) == EntryBytes(hs[k]);
  }

  /** The file contents, each followed by its zero padding */
  function DataBytes(contents: seq<seq<byte>>): (bs: seq<byte>)
    ensures |bs| == DataSize(contents)
  {
    if |contents| == 0 then [] else contents[0] + Zeros(Pad(|contents[0]|)) + DataBytes(contents[1..])
  }

  lemma {:induction false} DataBytesConcat(a: seq<seq<byte>>, b: seq<seq<byte>>)
    ensures DataBytes(a + b) == DataBytes(a) + DataBytes(b)
  {
    if |a| > 0 {
      assert (a + b)[1..] == a[1..] + b;
      DataBytesConcat(a[1..], b);
    } else {
      assert a + b == b;
    }
  }

  /** Writing one more file appends its bytes and its padding. */
  lemma DataBytesSnoc(cs: seq<seq<byte>>, k: nat)
    requires k < |cs|
    ensures DataBytes(cs[..k + 1]) == DataBytes(cs[..k]) + cs[k] + Zeros(Pad(|cs[k]|))
  {
    TakeSnoc(cs, k);
    DataBytesConcat(cs[..k], [cs[k]]);
    assert DataBytes([cs[k]]) == cs[k] + Zeros(Pad(|cs[k]|)) + DataBytes([]);
    Assoc(DataBytes(cs[..k]), cs[k], Zeros(Pad(|cs[k]|)));
  }

  /** The archive `new` writes: the magic, the header table, then the padded contents */
  function Archive(names: seq<seq<byte>>, contents: seq<seq<byte>>): (out: seq<byte>)
    requires |names| == |contents| && AllFit(names, contents)
    ensures |out| == HeadersEnd(|names|) + DataSize(contents)
  {
    Le32(MAGIC) + HeaderBytes(Entries(names, contents)) + DataBytes(contents)
  }

  /**
   * `new`: lay out the header table while advancing out_pos, refusing a long
   * name or an offset past u32, then write magic, headers and padded files.
   */
  method Build(names: seq<seq<byte>>, contents: seq<seq<byte>>) returns (r: Result<seq<byte>, BuildError>)
    requires |names| == |contents|
    ensures r.Ok? <==> AllFit(names, contents)
    ensures r.Ok? ==> r.value == Archive(names, contents)
    ensures r.Err? ==> r.error.index < |names| && !Fits(names, contents, r.error.index)
    ensures r.Err? ==> forall j | 0 <= j < r.error.index :: Fits(names, contents, j)
    ensures r.Err? && r.error.BadName? ==> |names[r.error.index]| > NAME_SIZE - 1
  {
    var headers := LayOut(names, contents);
    if headers.Err? {
      return Err(headers.error);
    }
    var out := WriteOut(headers.value, contents);
    r := Ok(out);
  }

  /** The first half of `new`: the header entries, or the first file that does not fit */
  method LayOut(names: seq<seq<byte>>, contents: seq<seq<byte>>) returns (r: Result<seq<HeaderEntry>, BuildError>)
    requires |names| == |contents|
    ensures r.Ok? <==> AllFit(names, contents)
    ensures r.Ok? ==> r.value == Entries(names, contents)
    ensures r.Err? ==> r.error.index < |names| && !Fits(names, contents, r.error.index)
    ensures r.Err? ==> forall j | 0 <= j < r.error.index :: Fits(names, contents, j)
    ensures r.Err? && r.error.BadName? ==> |names[r.error.index]| > NAME_SIZE - 1
  {
    var n := |names|;
    var headers: seq<HeaderEntry> := [];
    var outPos: nat := HeadersEnd(n);
    for i := 0 to n
      invariant outPos == FileBegin(contents, i)
      invariant |headers| == i
      invariant forall j | 0 <= j < i :: Fits(names, contents, j) && headers[j] == FileEntry(names, contents, j)
    {
      var fc := contents[i];
      var remainAlign := (8 - |fc| % 8) % 8;
      var fileEnd := outPos + |fc|;
      var newEnd := fileEnd + remainAlign;
      var fname := NewFileName(names[i]);
      if fname.Err? {
        assert !Fits(names, contents, i);
        return Err(BadName(i));
      }
      if outPos >= U32_LIMIT || fileEnd >= U32_LIMIT {
        assert !Fits(names, contents, i);
        return Err(OffsetOverflow(i));
      }
      headers := headers + [HeaderEntry(fname.value, outPos, fileEnd, Entry)];
      FileBeginStep(contents, i);
      outPos := newEnd;
    }
    headers := headers + [END_ENTRY];
    r := Ok(headers);
  }

  /** The second half of `new`: magic, the serialized headers, then each file and its zero padding */
  method WriteOut(headers: seq<HeaderEntry>, contents: seq<seq<byte>>) returns (out: seq<byte>)
    ensures out == Le32(MAGIC) + HeaderBytes(headers) + DataBytes(contents)
  {
    var w := new Writer();
    w.WriteAll(Le32(MAGIC));
    for k := 0 to |headers|
      invariant w.out == Le32(MAGIC) + HeaderBytes(headers[..k])
    {
      SerializeEntry(headers[k], w);
      HeaderBytesSnoc(headers, k);
      Assoc(Le32(MAGIC), HeaderBytes(headers[..k]), EntryBytes(headers[k]));
    }
    assert headers[..|headers|] == headers;
    var zeros := Zeros(7);
    for k := 0 to |contents|
      invariant w.out == Le32(MAGIC) + HeaderBytes(headers) + DataBytes(contents[..k])
    {
      var fc := contents[k];
      w.WriteAll(fc);
      var remainAlign := (8 - |fc| % 8) % 8;
      assert zeros[..remainAlign] == Zeros(Pad(|fc|));
      w.WriteAll(zeros[..remainAlign]);
      DataBytesSnoc(contents, k);
      Assoc(Le32(MAGIC) + HeaderBytes(headers), DataBytes(contents[..k]), fc);
      Assoc(Le32(MAGIC) + HeaderBytes(headers), DataBytes(contents[..k]) + fc, Zeros(Pad(|fc|)));
    }
    assert contents[..|contents|] == contents;
    out := w.out;
  }

  // ---------------------------------------------------------------------
  // Reading the archive back
  // ---------------------------------------------------------------------

  /** Behind the magic, from entry k on: the rest of the header table, then the data. */
  lemma SuffixAt(a: seq<byte>, hs: seq<HeaderEntry>, d: seq<byte>, k: nat)
    requires k <= |hs| && a == Le32(MAGIC) + HeaderBytes(hs) + d
    ensures |a| >= HEADER_SIZE + ENTRY_SIZE * k
    ensures a[HEADER_SIZE + ENTRY_SIZE * k..] == HeaderBytes(hs[k..]) + d
  {
    HeaderBytesSplit(hs, k);
    DropMiddle(a, Le32(MAGIC), HeaderBytes(hs[..k]), HeaderBytes(hs[k..]), d, HEADER_SIZE + ENTRY_SIZE * k);
  }

  lemma DropMiddle<T>(s: seq<T>, a: seq<T>, b: seq<T>, c: seq<T>, d: seq<T>, n: nat)
    requires s == a + (b + c) + d && n == |a| + |b|
    ensures |s| >= n && s[n..] == c + d
  {
    assert s == (a + b) + (c + d);
  }

  /** From entry k on, the archive is entry k's bytes, then the archive from entry k + 1 on. */
  lemma EntryAt(a: seq<byte>, hs: seq<HeaderEntry>, d: seq<byte>, k: nat)
    requires k < |hs| && a == Le32(MAGIC) + HeaderBytes(hs) + d
    ensures |a| >= HEADER_SIZE + ENTRY_SIZE * (k + 1)
    ensures a[HEADER_SIZE + ENTRY_SIZE * k..] == EntryBytes(hs[k]) + a[HEADER_SIZE + ENTRY_SIZE * (k + 1)..]
  {
    SuffixAt(a, hs, d, k);
    HeaderBytesCons(hs, k);
    ConsAt(a, HEADER_SIZE + ENTRY_SIZE * k, EntryBytes(hs[k]), HeaderBytes(hs[k + 1..]), d, HEADER_SIZE + ENTRY_SIZE * (k + 1));
  }

  lemma ConsAt<T>(s: seq<T>, i: nat, e: seq<T>, r: seq<T>, d: seq<T>, j: nat)
    requires i <= |s| && s[i..] == e + r + d && j == i + |e|
    ensures j <= |s| && s[i..] == e + s[j..]
  {
    assert s[j..] == s[i..][|e|..];
    assert e + r + d == e + (r + d);
  }

  lemma HeaderBytesCons(hs: seq<HeaderEntry>, k: nat)
    requires k < |hs|
    ensures HeaderBytes(hs[k..]) == EntryBytes(hs[k]) + HeaderBytes(hs[k + 1..])
  {
    assert hs[k..][1..] == hs[k + 1..];
  }

  /** Entry k of a serialized table deserializes to hs[k], leaving the archive from entry k + 1 on. */
  lemma ParseEntry(a: seq<byte>, hs: seq<HeaderEntry>, d: seq<byte>, k: nat)
    requires k < |hs| && a == Le32(MAGIC) + HeaderBytes(hs) + d
    ensures |a| >= HEADER_SIZE + ENTRY_SIZE * (k + 1)
    ensures DeserializeDefined(a[HEADER_SIZE + ENTRY_SIZE * k..])
    ensures Deserialize(a[HEADER_SIZE + ENTRY_SIZE * k..]) == Ok((hs[k], a[HEADER_SIZE + ENTRY_SIZE * (k + 1)..]))
  {
    EntryAt(a, hs, d, k);
    DeserializeSerialize(hs[k], a[HEADER_SIZE + ENTRY_SIZE * (k + 1)..]);
  }

  lemma Assoc<T>(a: seq<T>, b: seq<T>, c: seq<T>)
    ensures a + b + c == a + (b + c)
  {
  }

  /** File i's bytes sit at [begin, end) of the archive. */
  lemma ArchiveFile(names: seq<seq<byte>>, contents: seq<seq<byte>>, i: nat)
    requires |names| == |contents| && AllFit(names, contents) && i < |names|
    ensures FileEnd(contents, i) <= |Archive(names, contents)|
    ensures Archive(names, contents)[FileBegin(contents, i)..FileEnd(contents, i)] == contents[i]
  {
    FileEndBound(contents, i);
    var hs := Entries(names, contents);
    var head := Le32(MAGIC) + HeaderBytes(hs);
    assert |head| == HeadersEnd(|names|);
    TakeDrop(contents, i);
    DataBytesConcat(contents[..i], contents[i..]);
    var d := DataBytes(contents);
    assert d == DataBytes(contents[..i]) + (contents[i] + Zeros(Pad(|contents[i]|)) + DataBytes(contents[i + 1..]));
    var a := Archive(names, contents);
    assert a == head + d;
    var b := FileBegin(contents, i);
    assert b == |head| + |DataBytes(contents[..i])|;
    assert a[b..b + |contents[i]|] == contents[i];
  }

  /**
   * Parsing what `new` built: Microflop::new accepts it, files() starts at
   * entry 0, the k-th call of next yields the k-th file's name and bytes and
   * moves on one entry, and after the last file next yields None.
   */
  lemma ParseBuilt(names: seq<seq<byte>>, contents: seq<seq<byte>>, k: nat)
    requires |names| == |contents| && AllFit(names, contents) && k <= |names|
    ensures |Archive(names, contents)| >= HEADER_SIZE
    ensures New(Archive(names, contents)) == Ok(Microflop(Archive(names, contents)))
    ensures NextDefined(Archive(names, contents), Archive(names, contents)[HEADER_SIZE + ENTRY_SIZE * k..])
    ensures k < |names| ==> Fits(names, contents, k)
    ensures k < |names| ==>
      NextStep(Archive(names, contents), Archive(names, contents)[HEADER_SIZE + ENTRY_SIZE * k..])
        == (Ok(Some((Padded(names[k]), contents[k]))),
            Archive(names, contents)[HEADER_SIZE + ENTRY_SIZE * (k + 1)..])
    ensures k == |names| ==>
      NextStep(Archive(names, contents), Archive(names, contents)[HEADER_SIZE + ENTRY_SIZE * k..])
        == (Ok(None), Archive(names, contents)[HEADER_SIZE + ENTRY_SIZE * k..])
  {
    var hs := Entries(names, contents);
    var a := Archive(names, contents);
    assert a[..HEADER_SIZE] == Le32(MAGIC);
    ParseEntry(a, hs, DataBytes(contents), k);
    if k < |names| {
      assert Fits(names, contents, k);
      ArchiveFile(names, contents, k);
    }
  }

  /** The names read back as the names given, when they are NUL-free UTF-8. */
  lemma NamesReadBack(names: seq<seq<byte>>, contents: seq<seq<byte>>, k: nat)
    requires |names| == |contents| && AllFit(names, contents) && k < |names|
    requires 0 !in names[k] && ValidUtf8(names[k])
    ensures AsStr(Entries(names, contents)[k].fname) == Ok(names[k])
  {
    assert Fits(names, contents, k);
    AsStrPadded(names[k]);
  }
}
