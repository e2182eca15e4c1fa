/**
 * The ELF loader of shoo: PF_* flags to page-table attributes, the total
 * size of the segments, mapping the PT_LOAD segments, the span the loaded
 * kernel occupies, and copying the segments into one contiguous buffer.
 * The constants are those of the Program Header section of the System V
 * gABI.
 */
module Loader {
  import opened Wrappers
  import Spanner
  import Paging

  const PT_LOAD: bv32 := 1
  const PT_NOTE: bv32 := 4

  const PF_X: bv32 := 1
  const PF_W: bv32 := 2
  const PF_R: bv32 := 4

  const PAGE: nat := 4096
  const WORD: int := Spanner.WORD

  type usize = Spanner.usize
  type Span = Spanner.Span

  /** An Elf64_Phdr, reduced to the fields the loader reads */
  datatype ProgramHeader = ProgramHeader(
    p_type: bv32, p_flags: bv32, p_offset: usize, p_vaddr: usize, p_filesz: usize, p_memsz: usize)

  predicate IsLoad(h: ProgramHeader) {
    h.p_type == PT_LOAD
  }

  // ---------------------------------------------------------------------
  // flags_to_riscv
  // ---------------------------------------------------------------------

  /** The attributes flags_to_riscv builds: R, W and X for PF_R, PF_W and PF_X */
  function RiscvAttrs(p_flags: bv32): (a: bv8)
  {
    (if p_flags & PF_R != 0 then Paging.ATTR_R else 0)
    | (if p_flags & PF_W != 0 then Paging.ATTR_W else 0)
    | (if p_flags & PF_X != 0 then Paging.ATTR_X else 0)
  }

  /** R, W and X are set exactly for PF_R, PF_W and PF_X, and no other attribute ever is. */
  lemma RiscvAttrsBits(p_flags: bv32)
    ensures RiscvAttrs(p_flags) & Paging.ATTR_R != 0 <==> p_flags & PF_R != 0
    ensures RiscvAttrs(p_flags) & Paging.ATTR_W != 0 <==> p_flags & PF_W != 0
    ensures RiscvAttrs(p_flags) & Paging.ATTR_X != 0 <==> p_flags & PF_X != 0
    ensures RiscvAttrs(p_flags) & (Paging.ATTR_V | Paging.ATTR_USER | Paging.ATTR_GLOBAL
                                   | Paging.ATTR_ACCESSED | Paging.ATTR_DIRTY) == 0
  {
  }

  /** flags_to_riscv: starts from no attributes and ors in one per flag */
  method FlagsToRiscv(p_flags: bv32) returns (out: bv8)
    ensures out == RiscvAttrs(p_flags)
  {
    out := 0;
    if p_flags & PF_R != 0 {
      out := out | Paging.ATTR_R;
    }
    if p_flags & PF_W != 0 {
      out := out | Paging.ATTR_W;
    }
    if p_flags & PF_X != 0 {
      out := out | Paging.ATTR_X;
    }
  }

  // ---------------------------------------------------------------------
  // get_total_size
  // ---------------------------------------------------------------------

  /** Rounding a size up to whole 4 KiB pages */
  function RoundUp4k(n: nat): (r: nat)
    ensures r % PAGE == 0 && n <= r < n + PAGE
  {
    n + (PAGE - n % PAGE) % PAGE
  }

  /** The round-up of every header's p_memsz fits a usize, so no unwrap panics */
  predicate SizesRound(headers: seq<ProgramHeader>) {
    forall i | 0 <= i < |headers| :: RoundUp4k(headers[i].p_memsz) < WORD
  }

  /** The plain sum of p_memsz over the headers */
  function MemSum(headers: seq<ProgramHeader>): nat {
    if |headers| == 0 then 0 else headers[0].p_memsz + MemSum(headers[1..])
  }

  /**
   * get_total_size: every header's p_memsz (of any type) rounded up to 4 KiB,
   * summed; a multiple of the page size, at least the plain sum, and less
   * than a page more per header.
   */
  function TotalSize(headers: seq<ProgramHeader>): (t: nat)
    requires SizesRound(headers)
    ensures t % PAGE == 0
    ensures MemSum(headers) <= t <= MemSum(headers) + (PAGE - 1) * |headers|
  {
    if |headers| == 0 then 0 else RoundUp4k(headers[0].p_memsz) + TotalSize(headers[1..])
  }

  // ---------------------------------------------------------------------
  // map_executable
  // ---------------------------------------------------------------------

  /** The PT_LOAD headers, in order: `headers.iter().filter(|h| h.p_type == PT_LOAD)` */
  function Loads(headers: seq<ProgramHeader>): (ls: seq<ProgramHeader>)
    ensures |ls| <= |headers|
    ensures forall h | h in ls :: IsLoad(h) && h in headers
    ensures forall h | h in headers && IsLoad(h) :: h in ls
  {
    if |headers| == 0 then []
    else if IsLoad(headers[0]) then [headers[0]] + Loads(headers[1..])
    else Loads(headers[1..])
  }

  /** One call of virt_map: physical and virtual start, length, attributes */
  datatype MapRequest = MapRequest(pa: bv64, va: bv64, len: bv64, attrs: bv8)

  /** The memory size rounds up to whole pages without overflow, so the unwrap succeeds */
  predicate MemRounds(h: ProgramHeader) {
    Paging.RoundUp(h.p_memsz as bv64).Some?
  }

  /**
   * The virt_map call map_executable makes for a PT_LOAD header: the frame at
   * p_vaddr - virt.begin + phys.begin (usize arithmetic, wrapping), the page
   * p_vaddr, p_memsz rounded to pages, and the segment's flags or-ed with the
   * extra ones.
   */
  function Request(h: ProgramHeader, phys: Span, virt: Span, extra: bv8): (q: MapRequest)
    requires MemRounds(h)
  {
    MapRequest((h.p_vaddr as bv64) - (virt.begin as bv64) + (phys.begin as bv64),
               h.p_vaddr as bv64,
               Paging.RoundUp(h.p_memsz as bv64).value,
               RiscvAttrs(h.p_flags) | extra)
  }

  /**
   * What virt_map demands of the call: len > 0 (its assert), both addresses
   * page aligned (virt_map_one's asserts), and an attribute set with R or X,
   * so the leaf written is not pointer-shaped.
   */
  predicate Ready(q: MapRequest) {
    q.len > 0 && Paging.IsPageAligned(q.pa) && Paging.IsPageAligned(q.va)
    && q.attrs & (Paging.ATTR_R | Paging.ATTR_X) != 0
  }

  /** Every PT_LOAD header rounds and makes a call virt_map accepts */
  predicate AllMappable(loads: seq<ProgramHeader>, phys: Span, virt: Span, extra: bv8) {
    forall k | 0 <= k < |loads| :: MemRounds(loads[k]) && Ready(Request(loads[k], phys, virt, extra))
  }

  /** Every page of the request is mapped to the frame at the same offset, with attrs | V. */
  ghost predicate RangeMapped(frames: Paging.Frames, root: Paging.PageTable, q: MapRequest) {
    Paging.RoundUp(q.len).Some?
    && forall i | 0 <= i < Paging.PageCount(Paging.RoundUp(q.len).value) ::
         Paging.PageMappedAt(frames, root, q.pa, q.va, q.attrs, i)
  }

  /** A mapped range stays mapped through any change that keeps the valid entries. */
  lemma RangeKept(f: Paging.Frames, g: Paging.Frames, root: Paging.PageTable, q: MapRequest)
    requires Paging.ValidKept(f, g) && RangeMapped(f, root, q)
    ensures RangeMapped(g, root, q)
  {
    forall i | 0 <= i < Paging.PageCount(Paging.RoundUp(q.len).value)
      ensures Paging.PageMappedAt(g, root, q.pa, q.va, q.attrs, i)
    {
      assert Paging.PageMappedAt(f, root, q.pa, q.va, q.attrs, i);
      Paging.PageKept(f, g, root, q.pa, q.va, q.attrs, Paging.Offset(i));
    }
  }

  /** One more virt_map keeps the ranges mapped before it. */
  lemma KeepRanges(F0: Paging.Frames, f: Paging.Frames, g: Paging.Frames, pt: Paging.PageTable,
                   qs: seq<MapRequest>, j: nat)
    requires j <= |qs|
    requires Paging.ValidKept(F0, f) && Paging.ValidKept(f, g)
    requires forall k | 0 <= k < j :: RangeMapped(f, pt, qs[k])
    ensures Paging.ValidKept(F0, g)
    ensures forall k | 0 <= k < j :: RangeMapped(g, pt, qs[k])
  {
    Paging.ValidKeptTrans(F0, f, g);
    forall k | 0 <= k < j
      ensures RangeMapped(g, pt, qs[k])
    {
      RangeKept(f, g, pt, qs[k]);
    }
  }

  /** The pages virt_map maps for a request: its length rounded up to pages, none when the rounding overflows. */
  function RequestPages(q: MapRequest): nat {
    match Paging.RoundUp(q.len)
    case None => 0
    case Some(n) => Paging.PageCount(n)
  }

  /** The tables and supply after virt_map has mapped all the pages of request `q`, starting from `m`. */
  ghost function RequestState(m: Paging.MemState, pt: Paging.PageTable, q: MapRequest): Paging.MemState {
    Paging.RangeState(m.frames, m.supply, pt, q.pa, q.va, q.attrs, RequestPages(q))
  }

  /** The virt_map calls map_executable makes, one per PT_LOAD header, in order. */
  function Requests(loads: seq<ProgramHeader>, phys: Span, virt: Span, extra: bv8): (qs: seq<MapRequest>)
    requires forall k | 0 <= k < |loads| :: MemRounds(loads[k])
    ensures |qs| == |loads|
    decreases |loads|, 2
  {
    RequestsSplit(loads, phys, virt, extra)
  }

  function RequestsSplit(loads: seq<ProgramHeader>, phys: Span, virt: Span, extra: bv8): (qs: seq<MapRequest>)
    requires forall k | 0 <= k < |loads| :: MemRounds(loads[k])
    ensures |qs| == |loads|
    decreases |loads|, 1
  {
    if loads == [] then [] else RequestsSnoc(loads, phys, virt, extra)
  }

  function RequestsSnoc(loads: seq<ProgramHeader>, phys: Span, virt: Span, extra: bv8): (qs: seq<MapRequest>)
    requires loads != [] && forall k | 0 <= k < |loads| :: MemRounds(loads[k])
    ensures |qs| == |loads|
    decreases |loads|, 0
  {
    Requests(loads[..|loads| - 1], phys, virt, extra) + [Request(loads[|loads| - 1], phys, virt, extra)]
  }

  /** Call k is the Request of PT_LOAD header k. */
  lemma {:induction false} RequestsAt(loads: seq<ProgramHeader>, phys: Span, virt: Span, extra: bv8, k: nat)
    requires forall k | 0 <= k < |loads| :: MemRounds(loads[k])
    requires k < |loads|
    ensures Requests(loads, phys, virt, extra)[k] == Request(loads[k], phys, virt, extra)
    decreases |loads|
  {
    var init := loads[..|loads| - 1];
    assert Requests(loads, phys, virt, extra) == RequestsSplit(loads, phys, virt, extra)
                                               == RequestsSnoc(loads, phys, virt, extra);
    if k < |loads| - 1 {
      RequestsAt(init, phys, virt, extra, k);
      assert init[k] == loads[k];
    }
  }

  /** Every call of mappable PT_LOAD headers is one virt_map accepts, with a length that rounds to pages. */
  lemma RequestsReady(loads: seq<ProgramHeader>, phys: Span, virt: Span, extra: bv8)
    requires AllMappable(loads, phys, virt, extra)
    ensures forall k | 0 <= k < |loads| ::
              Ready(Requests(loads, phys, virt, extra)[k]) && Paging.RoundUp(Requests(loads, phys, virt, extra)[k].len).Some?
  {
    forall k | 0 <= k < |loads|
      ensures Ready(Requests(loads, phys, virt, extra)[k]) && Paging.RoundUp(Requests(loads, phys, virt, extra)[k].len).Some?
    {
      RequestsAt(loads, phys, virt, extra, k);
      Paging.RoundUpCovers(Request(loads[k], phys, virt, extra).len);
    }
  }

  /**
   * The tables and supply after the first `n` of the requests `qs` have each
   * mapped all their pages, starting from `m`: RequestState folded over them
   * in order.
   */
  ghost function RequestsState(m: Paging.MemState, pt: Paging.PageTable, qs: seq<MapRequest>, n: nat): Paging.MemState
    requires n <= |qs|
    decreases n, 2
  {
    RequestsCase(m, pt, qs, n)
  }

  /**
   * No request at all, or the first n - 1 and then request n - 1.  The case
   * split and the last request are each one unfolding below RequestsState,
   * so that a state named through RequestsState brings neither with it.
   */
  ghost function RequestsCase(m: Paging.MemState, pt: Paging.PageTable, qs: seq<MapRequest>, n: nat): Paging.MemState
    requires n <= |qs|
    decreases n, 1
  {
    if n == 0 then m else RequestsThen(m, pt, qs, n - 1)
  }

  /** The first `n` requests and then request `n` */
  ghost function RequestsThen(m: Paging.MemState, pt: Paging.PageTable, qs: seq<MapRequest>, n: nat): Paging.MemState
    requires n < |qs|
    decreases n + 1, 0
  {
    RequestState(RequestsState(m, pt, qs, n), pt, qs[n])
  }

  /** The state after request `n` is RequestState of the state before it. */
  lemma RequestsStateLast(m: Paging.MemState, pt: Paging.PageTable, qs: seq<MapRequest>, n: nat)
    requires n < |qs|
    ensures RequestsState(m, pt, qs, n + 1) == RequestState(RequestsState(m, pt, qs, n), pt, qs[n])
  {
    assert RequestsState(m, pt, qs, n + 1) == RequestsCase(m, pt, qs, n + 1) == RequestsThen(m, pt, qs, n);
  }

  /** No request leaves the state as it is. */
  lemma RequestsStateNone(m: Paging.MemState, pt: Paging.PageTable, qs: seq<MapRequest>)
    ensures RequestsState(m, pt, qs, 0) == m
  {
    assert RequestsState(m, pt, qs, 0) == RequestsCase(m, pt, qs, 0);
  }

  /** The tables `f` and supply `s` are those after the first `n` requests from `F` and `S` (RequestsState). */
  ghost predicate RequestsReached(f: Paging.Frames, s: seq<bv64>, F: Paging.Frames, S: seq<bv64>, pt: Paging.PageTable,
                                  qs: seq<MapRequest>, n: nat)
    requires n <= |qs|
  {
    var m := RequestsState(Paging.MemState(F, S), pt, qs, n);
    f == m.frames && s == m.supply
  }

  /** Across all the requests too, the supply only loses frames from its front. */
  lemma {:induction false} RequestsSupplySuffix(F: Paging.Frames, S: seq<bv64>, pt: Paging.PageTable,
                                                qs: seq<MapRequest>, n: nat)
    requires n <= |qs|
    ensures IsSuffix(RequestsState(Paging.MemState(F, S), pt, qs, n).supply, S)
    decreases n
  {
    if n == 0 {
      RequestsStateNone(Paging.MemState(F, S), pt, qs);
    } else {
      RequestsSupplySuffix(F, S, pt, qs, n - 1);
      var prev := RequestsState(Paging.MemState(F, S), pt, qs, n - 1);
      RequestsStateLast(Paging.MemState(F, S), pt, qs, n - 1);
      RequestSupplySuffix(prev, pt, qs[n - 1]);
      SuffixOfSuffix(S, prev.supply, RequestsState(Paging.MemState(F, S), pt, qs, n).supply);
    }
  }

  /** A request mapped in full from the state after the first `j` takes the fold to `j + 1`. */
  lemma RequestsNext(f: Paging.Frames, s: seq<bv64>, F: Paging.Frames, S: seq<bv64>, pt: Paging.PageTable,
                     qs: seq<MapRequest>, j: nat, F1: Paging.Frames, S1: seq<bv64>, pages: nat)
    requires j < |qs| && RequestsReached(F1, S1, F, S, pt, qs, j) && pages == RequestPages(qs[j])
    requires Paging.RangeReached(f, s, F1, S1, pt, qs[j].pa, qs[j].va, qs[j].attrs, pages)
    ensures RequestsReached(f, s, F, S, pt, qs, j + 1)
  {
    var m := RequestsState(Paging.MemState(F, S), pt, qs, j);
    assert Paging.MemState(F1, S1) == m;
    RequestsStateLast(Paging.MemState(F, S), pt, qs, j);
  }

  /** One request's pages only take frames from the front of the supply. */
  lemma RequestSupplySuffix(m: Paging.MemState, pt: Paging.PageTable, q: MapRequest)
    ensures IsSuffix(RequestState(m, pt, q).supply, m.supply)
  {
    Paging.RangeSupplySuffix(m.frames, m.supply, pt, q.pa, q.va, q.attrs, RequestPages(q));
  }

  /** `t` is what is left of `s` once some of its front is dropped. */
  ghost predicate IsSuffix<T>(t: seq<T>, s: seq<T>) {
    |t| <= |s| && t == s[|s| - |t|..]
  }

  /** A suffix of a suffix is a suffix. */
  lemma SuffixOfSuffix<T>(s: seq<T>, t: seq<T>, u: seq<T>)
    requires IsSuffix(t, s) && IsSuffix(u, t)
    ensures IsSuffix(u, s)
  {
  }

  /**
   * One round of map_executable's loop: the virt_map call `q`, call j of
   * `qs`. The ranges of the calls before it stay mapped, and on Ok its own
   * range is mapped too and the tables and supply are those after the first
   * j + 1 calls. On Err, `before` holds the tables and supply the call
   * started from.
   */
  method MapSegment(mem: Paging.PhysMemory, pt: Paging.PageTable, q: MapRequest, ghost qs: seq<MapRequest>,
                    ghost j: nat, ghost F0: Paging.Frames, ghost S0: seq<bv64>)
    returns (res: Result<(), Paging.MapError>, ghost page: nat, ghost before: Paging.MemState)
    requires j < |qs| && q == qs[j] && Ready(q) && Paging.RoundUp(q.len).Some?
    requires mem.Valid() && Paging.Layered(mem.frames, mem.level) && Paging.RootAt(mem.frames, mem.level, pt)
    requires Paging.ValidKept(F0, mem.frames)
    requires forall k | 0 <= k < j :: RangeMapped(mem.frames, pt, qs[k])
    requires RequestsReached(mem.frames, mem.supply, F0, S0, pt, qs, j)
    modifies mem
    ensures mem.Valid() && Paging.Layered(mem.frames, mem.level) && Paging.RootAt(mem.frames, mem.level, pt)
    ensures Paging.ValidKept(F0, mem.frames)
    ensures forall k | 0 <= k < j :: RangeMapped(mem.frames, pt, qs[k])
    ensures res.Ok? ==> forall k | 0 <= k < j + 1 :: RangeMapped(mem.frames, pt, qs[k])
    ensures res.Ok? ==> RequestsReached(mem.frames, mem.supply, F0, S0, pt, qs, j + 1)
    ensures before == Paging.MemState(old(mem.frames), old(mem.supply))
    ensures res.Err? ==> RequestsReached(before.frames, before.supply, F0, S0, pt, qs, j)
    ensures res.Err? ==> Paging.VirtMapStopped(mem.frames, mem.supply, before.frames, before.supply, pt, q.pa, q.va,
                                              q.len, q.attrs, page, res.error)
    ensures res.Err? ==> forall i | 0 <= i < page :: Paging.PageMappedAt(mem.frames, pt, q.pa, q.va, q.attrs, i)
    ensures |mem.flushed| == |old(mem.flushed)| + page && mem.flushed[..|old(mem.flushed)|] == old(mem.flushed)
  {
    before := Paging.MemState(mem.frames, mem.supply);
    res, page := Paging.VirtMap(mem, pt, q.pa, q.va, q.len, q.attrs);
    KeepRanges(F0, before.frames, mem.frames, pt, qs, j);
    if res.Ok? {
      AddRange(mem.frames, pt, qs, j, page);
      RequestsNext(mem.frames, mem.supply, F0, S0, pt, qs, j, before.frames, before.supply, page);
    }
  }

  /** A virt_map call that returned Ok adds its range to those mapped before. */
  lemma AddRange(g: Paging.Frames, pt: Paging.PageTable, qs: seq<MapRequest>, j: nat, done: nat)
    requires j < |qs|
    requires forall k | 0 <= k < j :: RangeMapped(g, pt, qs[k])
    requires Paging.RoundUp(qs[j].len).Some? && done == Paging.PageCount(Paging.RoundUp(qs[j].len).value)
    requires forall i | 0 <= i < done :: Paging.PageMappedAt(g, pt, qs[j].pa, qs[j].va, qs[j].attrs, i)
    ensures forall k | 0 <= k < j + 1 :: RangeMapped(g, pt, qs[k])
  {
    assert RangeMapped(g, pt, qs[j]);
  }

  /**
   * map_executable: virt_map for each PT_LOAD header in order, returning the
   * first error; `qs` are the calls (Requests), their arguments computed as
   * the loop computes them. `mapped` counts the calls that returned Ok: all
   * of them on Ok, and on Err the ones before the call that failed. No valid
   * entry is ever overwritten. The tables and supply left are those of the
   * calls made: on Ok the fold of RequestState over all the calls
   * (RequestsReached); on Err that fold over the first `mapped` calls gives
   * `before`, and the failing call leads from `before` to the state left,
   * its failure showing there (VirtMapStopped).
   */
  method MapExecutable(mem: Paging.PhysMemory, pt: Paging.PageTable, phys: Span, virt: Span,
                       headers: seq<ProgramHeader>, extra: bv8)
    returns (r: Result<(), Paging.MapError>, ghost mapped: nat, ghost page: nat, ghost qs: seq<MapRequest>,
             ghost before: Paging.MemState)
    requires mem.Valid() && Paging.Layered(mem.frames, mem.level) && Paging.RootAt(mem.frames, mem.level, pt)
    requires AllMappable(Loads(headers), phys, virt, extra)
    modifies mem
    ensures mem.Valid() && Paging.Layered(mem.frames, mem.level) && Paging.RootAt(mem.frames, mem.level, pt)
    ensures Paging.ValidKept(old(mem.frames), mem.frames)
    ensures qs == Requests(Loads(headers), phys, virt, extra)
    ensures mapped <= |qs| && (r.Ok? <==> mapped == |qs|)
    ensures forall j | 0 <= j < mapped :: RangeMapped(mem.frames, pt, qs[j])
    ensures r.Ok? ==> RequestsReached(mem.frames, mem.supply, old(mem.frames), old(mem.supply), pt, qs, mapped)
    ensures r.Err? ==> RequestsReached(before.frames, before.supply, old(mem.frames), old(mem.supply), pt, qs, mapped)
    ensures r.Err? ==> Paging.VirtMapStopped(mem.frames, mem.supply, before.frames, before.supply, pt, qs[mapped].pa,
                                            qs[mapped].va, qs[mapped].len, qs[mapped].attrs, page, r.error)
    ensures r.Err? ==> forall i | 0 <= i < page ::
                         Paging.PageMappedAt(mem.frames, pt, qs[mapped].pa, qs[mapped].va, qs[mapped].attrs, i)
    ensures |old(mem.flushed)| <= |mem.flushed| && mem.flushed[..|old(mem.flushed)|] == old(mem.flushed)
  {
    var loads := Loads(headers);
    var calls := Requests(loads, phys, virt, extra);
    qs := calls;
    mapped, page, before := 0, 0, Paging.MemState(mem.frames, mem.supply);
    RequestsStateNone(Paging.MemState(mem.frames, mem.supply), pt, qs);
    RequestsReady(loads, phys, virt, extra);
    for j := 0 to |loads|
      invariant mapped == j
      invariant mem.Valid() && Paging.Layered(mem.frames, mem.level) && Paging.RootAt(mem.frames, mem.level, pt)
      invariant Paging.ValidKept(old(mem.frames), mem.frames)
      invariant |old(mem.flushed)| <= |mem.flushed| && mem.flushed[..|old(mem.flushed)|] == old(mem.flushed)
      invariant forall k | 0 <= k < mapped :: RangeMapped(mem.frames, pt, qs[k])
      invariant RequestsReached(mem.frames, mem.supply, old(mem.frames), old(mem.supply), pt, qs, mapped)
    {
      r, page, before := MapSegment(mem, pt, calls[j], qs, mapped, old(mem.frames), old(mem.supply));
      if r.Err? {
        return;
      }
      mapped := mapped + 1;
    }
    r := Ok(());
  }

  // ---------------------------------------------------------------------
  // load_image: the kernel's span
  // ---------------------------------------------------------------------

  /** A PT_LOAD segment's span ends, rounded up to 4 KiB, inside the address space */
  predicate SpanFits(h: ProgramHeader) {
    IsLoad(h) ==> RoundUp4k(h.p_vaddr + h.p_memsz) < WORD
  }

  predicate SpansFit(headers: seq<ProgramHeader>) {
    forall i | 0 <= i < |headers| :: SpanFits(headers[i])
  }

  /** header_to_span: [p_vaddr, p_vaddr + p_memsz rounded up) for PT_LOAD, None for the rest */
  function HeaderToSpan(h: ProgramHeader): (s: Option<Span>)
    requires SpanFits(h)
    ensures s.Some? <==> IsLoad(h)
    ensures s.Some? ==> Spanner.Valid(s.value) && s.value.begin == h.p_vaddr
  {
    if h.p_type != PT_LOAD then None
    else Some(Spanner.New(h.p_vaddr, RoundUp4k(h.p_vaddr + h.p_memsz)))
  }

  /** `filter_map(header_to_span)`: the spans of the PT_LOAD headers, in order */
  function LoadSpans(headers: seq<ProgramHeader>): (ss: seq<Span>)
    requires SpansFit(headers)
    ensures |ss| <= |headers|
    ensures forall i | 0 <= i < |ss| :: Spanner.Valid(ss[i])
    ensures forall x :: InAny(ss, x) <==> InLoad(headers, x)
    decreases |headers|
  {
    if |headers| == 0 then []
    else
      var tail := headers[1..];
      assert SpansFit(tail) by {
        forall i | 0 <= i < |tail| ensures SpanFits(tail[i]) {
          assert tail[i] == headers[i + 1];
        }
      }
      var rest := LoadSpans(tail);
      var ss := match HeaderToSpan(headers[0])
        case None => rest
        case Some(s) => [s] + rest;
      assert forall x :: InAny(ss, x) <==> InLoad(headers, x) by {
        forall x ensures InAny(ss, x) <==> InLoad(headers, x) {
          InLoadCons(headers, x);
          if IsLoad(headers[0]) {
            InAnyCons(ss, x);
            assert ss[1..] == rest;
          }
        }
      }
      ss
  }

  /** Address x lies in the rounded-up span of one of the PT_LOAD headers */
  predicate InLoad(headers: seq<ProgramHeader>, x: int) {
    exists i | 0 <= i < |headers| ::
      IsLoad(headers[i]) && headers[i].p_vaddr <= x < RoundUp4k(headers[i].p_vaddr + headers[i].p_memsz)
  }

  /** A header list's PT_LOAD addresses are its head's and its tail's. */
  lemma InLoadCons(headers: seq<ProgramHeader>, x: int)
    requires |headers| > 0
    ensures InLoad(headers, x) <==>
      (IsLoad(headers[0]) && headers[0].p_vaddr <= x < RoundUp4k(headers[0].p_vaddr + headers[0].p_memsz))
      || InLoad(headers[1..], x)
  {
    if InLoad(headers, x) {
      var i :| 0 <= i < |headers| && IsLoad(headers[i])
        && headers[i].p_vaddr <= x < RoundUp4k(headers[i].p_vaddr + headers[i].p_memsz);
      if i > 0 {
        assert headers[1..][i - 1] == headers[i];
      }
    }
    if InLoad(headers[1..], x) {
      var i :| 0 <= i < |headers[1..]| && IsLoad(headers[1..][i])
        && headers[1..][i].p_vaddr <= x < RoundUp4k(headers[1..][i].p_vaddr + headers[1..][i].p_memsz);
      assert headers[1..][i] == headers[i + 1];
    }
  }

  /** Address x lies in one of the spans */
  predicate InAny(ss: seq<Span>, x: int) {
    exists i | 0 <= i < |ss| :: Spanner.In(ss[i], x)
  }

  /** A span list covers its head's addresses and its tail's. */
  lemma InAnyCons(ss: seq<Span>, x: int)
    requires |ss| > 0
    ensures InAny(ss, x) <==> Spanner.In(ss[0], x) || InAny(ss[1..], x)
  {
    if InAny(ss, x) {
      var i :| 0 <= i < |ss| && Spanner.In(ss[i], x);
      if i > 0 {
        assert Spanner.In(ss[1..][i - 1], x);
      }
    }
    if InAny(ss[1..], x) {
      var i :| 0 <= i < |ss[1..]| && Spanner.In(ss[1..][i], x);
      assert Spanner.In(ss[i + 1], x);
    }
  }

  predicate NonEmpty(s: Span) {
    Spanner.Valid(s) && Spanner.Len(s) != 0
  }

  /** `filter(|s| s.len() != 0)` */
  function NonEmptySpans(ss: seq<Span>): (ne: seq<Span>)
    requires forall i | 0 <= i < |ss| :: Spanner.Valid(ss[i])
    ensures |ne| <= |ss|
    ensures forall i | 0 <= i < |ne| :: NonEmpty(ne[i])
    ensures forall x :: InAny(ne, x) <==> InAny(ss, x)
    decreases |ss|
  {
    if |ss| == 0 then []
    else
      var rest := NonEmptySpans(ss[1..]);
      var ne := if Spanner.Len(ss[0]) != 0 then [ss[0]] + rest else rest;
      assert forall x :: InAny(ne, x) <==> InAny(ss, x) by {
        forall x ensures InAny(ne, x) <==> InAny(ss, x) {
          InAnyCons(ss, x);
          if Spanner.Len(ss[0]) != 0 {
            InAnyCons(ne, x);
            assert ne[1..] == rest;
          }
        }
      }
      ne
  }

  /** The position of the first non-empty span: `position(|s| s.len() != 0)` */
  function FirstNonEmpty(ss: seq<Span>): (p: Option<nat>)
    requires forall i | 0 <= i < |ss| :: Spanner.Valid(ss[i])
    ensures p.Some? ==> p.value < |ss| && Spanner.Len(ss[p.value]) != 0
    ensures p.Some? ==> forall i | 0 <= i < p.value :: Spanner.Len(ss[i]) == 0
    ensures p.None? ==> forall i | 0 <= i < |ss| :: Spanner.Len(ss[i]) == 0
  {
    if |ss| == 0 then None
    else if Spanner.Len(ss[0]) != 0 then Some(0)
    else match FirstNonEmpty(ss[1..])
      case None => None
      case Some(p) => Some(p + 1)
  }

  /** `try_fold(acc, |s1, s2| s1.merge(s2))`: None as soon as a merge finds a gap */
  function MergeAll(acc: Span, ss: seq<Span>): Option<Span>
    decreases |ss|
  {
    if |ss| == 0 then Some(acc)
    else match Spanner.Merge(acc, ss[0])
      case None => None
      case Some(m) => MergeAll(m, ss[1..])
  }

  /** A successful fold covers exactly the addresses of its start and of every span folded in. */
  lemma {:induction false} MergeAllUnion(acc: Span, ss: seq<Span>)
    requires Spanner.Valid(acc) && forall i | 0 <= i < |ss| :: Spanner.Valid(ss[i])
    ensures MergeAll(acc, ss).Some? ==>
      Spanner.Valid(MergeAll(acc, ss).value)
      && forall x :: Spanner.In(MergeAll(acc, ss).value, x) <==> Spanner.In(acc, x) || InAny(ss, x)
    decreases |ss|
  {
    if |ss| > 0 {
      var m := Spanner.Merge(acc, ss[0]);
      if m.Some? {
        MergeAllUnion(m.value, ss[1..]);
        forall x {
          InAnyCons(ss, x);
        }
      }
    }
  }

  /**
   * The kernel's virtual span as intended: the merge of every non-empty
   * PT_LOAD span, starting from the first; None where load_image panics
   * with "kernel regions not contiguous".
   */
  function KernelRange(headers: seq<ProgramHeader>): (r: Option<Span>)
    requires SpansFit(headers) && |NonEmptySpans(LoadSpans(headers))| > 0
    ensures r.Some? ==> Spanner.Valid(r.value)
  {
    var ne := NonEmptySpans(LoadSpans(headers));
    MergeAllUnion(ne[0], ne[1..]);
    MergeAll(ne[0], ne[1..])
  }

  /**
   * The kernel's span is non-empty and covers exactly the addresses of the
   * PT_LOAD segments' rounded-up spans: no more, and no less.
   */
  lemma KernelRangeCovers(headers: seq<ProgramHeader>)
    requires SpansFit(headers) && |NonEmptySpans(LoadSpans(headers))| > 0
    requires KernelRange(headers).Some?
    ensures NonEmpty(KernelRange(headers).value)
    ensures forall x :: Spanner.In(KernelRange(headers).value, x) <==> InAny(LoadSpans(headers), x)
    ensures forall x :: Spanner.In(KernelRange(headers).value, x) <==> InLoad(headers, x)
  {
    var ne := NonEmptySpans(LoadSpans(headers));
    MergeAllUnion(ne[0], ne[1..]);
    forall x {
      InAnyCons(ne, x);
    }
    var r := KernelRange(headers).value;
    assert Spanner.In(r, ne[0].begin);
  }

  /**
   * What load_image's span code needs, as written, to get past its panics:
   * a non-empty PT_LOAD span exists, and the header at that span's position
   * among the PT_LOAD spans, taken as an index into all headers, is itself
   * PT_LOAD (the unwrap).
   */
  predicate AsWrittenDefined(headers: seq<ProgramHeader>)
    requires SpansFit(headers)
  {
    var first := FirstNonEmpty(LoadSpans(headers));
    first.Some? && IsLoad(headers[first.value])
  }

  /** The span computation of load_image as written: `headers[first_header]` with the filtered position */
  function KernelRangeAsWritten(headers: seq<ProgramHeader>): Option<Span>
    requires SpansFit(headers) && AsWrittenDefined(headers)
  {
    var first := FirstNonEmpty(LoadSpans(headers)).value;
    var rest := headers[first + 1..];
    assert SpansFit(rest) by {
      forall i | 0 <= i < |rest| ensures SpanFits(rest[i]) {
        assert rest[i] == headers[first + 1 + i];
      }
    }
    MergeAll(HeaderToSpan(headers[first]).value, NonEmptySpans(LoadSpans(rest)))
  }

  /** A PT_NOTE header ahead of one loadable page */
  const NOTE_THEN_LOAD: seq<ProgramHeader> := [
    ProgramHeader(PT_NOTE, 0, 0, 0, 0, 0),
    ProgramHeader(PT_LOAD, PF_R | PF_X, 0x1000, 0x1000, 0x800, 0x1000)
  ]

  /**
   * With a PT_NOTE header first, the single non-empty PT_LOAD span is at
   * position 0 among the PT_LOAD spans, but headers[0] is the note: the code
   * as written panics where the intended span is [0x1000, 0x2000).
   */
  lemma FirstHeaderMisindexed()
    ensures SpansFit(NOTE_THEN_LOAD)
    ensures !AsWrittenDefined(NOTE_THEN_LOAD)
    ensures |NonEmptySpans(LoadSpans(NOTE_THEN_LOAD))| > 0
    ensures KernelRange(NOTE_THEN_LOAD) == Some(Spanner.Span(0x1000, 0x2000))
  {
    var hs := NOTE_THEN_LOAD;
    assert SpanFits(hs[0]) && SpanFits(hs[1]);
    assert LoadSpans(hs[1..][1..]) == [];
    assert LoadSpans(hs[1..]) == [Spanner.Span(0x1000, 0x2000)];
    assert LoadSpans(hs) == [Spanner.Span(0x1000, 0x2000)];
    assert FirstNonEmpty(LoadSpans(hs)) == Some(0);
    assert NonEmptySpans([Spanner.Span(0x1000, 0x2000)]) == [Spanner.Span(0x1000, 0x2000)];
  }

  /** When every header is PT_LOAD, the code as written computes the intended span. */
  lemma AsWrittenAllLoads(headers: seq<ProgramHeader>)
    requires SpansFit(headers) && forall i | 0 <= i < |headers| :: IsLoad(headers[i])
    requires |NonEmptySpans(LoadSpans(headers))| > 0
    ensures AsWrittenDefined(headers)
    ensures KernelRangeAsWritten(headers) == KernelRange(headers)
  {
    AllLoadsSkip(headers);
  }

  /** With only PT_LOAD headers, skipping the leading empty spans and the first non-empty one */
  lemma {:induction false} AllLoadsSkip(headers: seq<ProgramHeader>)
    requires SpansFit(headers) && forall i | 0 <= i < |headers| :: IsLoad(headers[i])
    requires |NonEmptySpans(LoadSpans(headers))| > 0
    ensures FirstNonEmpty(LoadSpans(headers)).Some?
    ensures var p := FirstNonEmpty(LoadSpans(headers)).value;
      p < |headers| && IsLoad(headers[p])
      && SpansFit(headers[p + 1..])
      && HeaderToSpan(headers[p]).value == NonEmptySpans(LoadSpans(headers))[0]
      && NonEmptySpans(LoadSpans(headers[p + 1..])) == NonEmptySpans(LoadSpans(headers))[1..]
  {
    assert |headers| > 0;
    var s := HeaderToSpan(headers[0]).value;
    assert LoadSpans(headers) == [s] + LoadSpans(headers[1..]);
    assert LoadSpans(headers)[1..] == LoadSpans(headers[1..]);
    assert SpansFit(headers[1..]) by {
      forall i | 0 <= i < |headers[1..]| ensures SpanFits(headers[1..][i]) {
        assert headers[1..][i] == headers[i + 1];
      }
    }
    if Spanner.Len(s) == 0 {
      assert NonEmptySpans(LoadSpans(headers)) == NonEmptySpans(LoadSpans(headers[1..]));
      AllLoadsSkip(headers[1..]);
      var p := FirstNonEmpty(LoadSpans(headers[1..])).value;
      assert FirstNonEmpty(LoadSpans(headers)) == Some(p + 1);
      assert headers[1..][p + 1..] == headers[p + 2..];
    } else {
      assert FirstNonEmpty(LoadSpans(headers)) == Some(0);
    }
  }

  /** `offs as isize`: the two's-complement reading of a usize */
  function AsIsize(x: usize): (v: Spanner.isize)
    ensures (v - x) % WORD == 0
  {
    if x <= Spanner.ISIZE_MAX then x else x - WORD
  }

  /**
   * The physical span: the kernel span shifted down by its begin and up by
   * start_at (both as isize, so wrapping); it begins at start_at and, unless
   * it wraps, has the kernel span's length.
   */
  function PhysSpan(virt: Span, startAt: usize): (phys: Span)
    requires Spanner.Valid(virt) && AsIsize(virt.begin) != Spanner.ISIZE_MIN
    ensures phys == Spanner.Span(startAt, (startAt + Spanner.Len(virt)) % WORD)
    ensures startAt + Spanner.Len(virt) < WORD ==>
      Spanner.Valid(phys) && Spanner.Len(phys) == Spanner.Len(virt)
  {
    Spanner.Offset(Spanner.Offset(virt, -AsIsize(virt.begin)), AsIsize(startAt))
  }

  // ---------------------------------------------------------------------
  // load_image: copying the segments
  // ---------------------------------------------------------------------

  /** Segment h's place in the buffer: from p_vaddr - base, file bytes then zeros to the rounded end */
  function SegStart(h: ProgramHeader, base: nat): int {
    h.p_vaddr - base
  }

  function SegFileEnd(h: ProgramHeader, base: nat): int {
    h.p_vaddr - base + h.p_filesz
  }

  function SegEnd(h: ProgramHeader, base: nat): int
    requires h.p_vaddr >= base
  {
    RoundUp4k(h.p_vaddr - base + h.p_memsz)
  }

  /**
   * The slicing and subtractions of the copy loop stay in bounds: p_vaddr
   * at or above base, p_filesz at most p_memsz, the file bytes inside the
   * image, and the rounded end inside the buffer.
   */
  predicate SegmentFits(h: ProgramHeader, base: nat, bufLen: nat, imageLen: nat) {
    base <= h.p_vaddr && h.p_filesz <= h.p_memsz
    && h.p_offset + h.p_filesz <= imageLen
    && SegEnd(h, base) <= bufLen
  }

  /** Index j of the buffer is written by segment h */
  predicate Covers(h: ProgramHeader, base: nat, j: int) {
    h.p_vaddr >= base && SegStart(h, base) <= j < SegEnd(h, base)
  }

  /** The byte segment h leaves at index j: from the image before the file end, zero after */
  function SegByte(h: ProgramHeader, base: nat, image: seq<bv8>, j: int): bv8
    requires Covers(h, base, j) && h.p_offset + h.p_filesz <= |image|
  {
    if j < SegFileEnd(h, base) then image[h.p_offset + (j - SegStart(h, base))] else 0
  }

  /** One round of the copy loop: copy_from_slice, then fill with zeros */
  function WriteSegment(buf: seq<bv8>, image: seq<bv8>, h: ProgramHeader, base: nat): (b: seq<bv8>)
    requires SegmentFits(h, base, |buf|, |image|)
    ensures |b| == |buf|
    ensures forall j | 0 <= j < |b| :: b[j] == if Covers(h, base, j) then SegByte(h, base, image, j) else buf[j]
  {
    var s, f, e := SegStart(h, base), SegFileEnd(h, base), SegEnd(h, base);
    buf[..s] + image[h.p_offset..h.p_offset + h.p_filesz] + seq(e - f, _ => 0) + buf[e..]
  }

  predicate AllFit(loads: seq<ProgramHeader>, base: nat, bufLen: nat, imageLen: nat) {
    forall k | 0 <= k < |loads| :: SegmentFits(loads[k], base, bufLen, imageLen)
  }

  /** The whole copy loop: each PT_LOAD segment in order, a later one overwriting an earlier one */
  function LoadAll(buf: seq<bv8>, image: seq<bv8>, loads: seq<ProgramHeader>, base: nat): (b: seq<bv8>)
    requires AllFit(loads, base, |buf|, |image|)
    ensures |b| == |buf|
    decreases |loads|
  {
    if |loads| == 0 then buf
    else LoadAll(WriteSegment(buf, image, loads[0], base), image, loads[1..], base)
  }

  /** A byte no segment covers keeps its old value. */
  lemma {:induction false} LoadAllOutside(buf: seq<bv8>, image: seq<bv8>, loads: seq<ProgramHeader>, base: nat, j: nat)
    requires AllFit(loads, base, |buf|, |image|) && j < |buf|
    requires forall k | 0 <= k < |loads| :: !Covers(loads[k], base, j)
    ensures LoadAll(buf, image, loads, base)[j] == buf[j]
    decreases |loads|
  {
    if |loads| > 0 {
      assert !Covers(loads[0], base, j);
      LoadAllOutside(WriteSegment(buf, image, loads[0], base), image, loads[1..], base, j);
    }
  }

  /**
   * A byte covered by segment k and by no later segment holds what segment k
   * wrote: its file byte, or zero past the file end.
   */
  lemma {:induction false} LoadAllLast(buf: seq<bv8>, image: seq<bv8>, loads: seq<ProgramHeader>, base: nat,
                                       k: nat, j: nat)
    requires AllFit(loads, base, |buf|, |image|) && j < |buf| && k < |loads|
    requires Covers(loads[k], base, j)
    requires forall m | k < m < |loads| :: !Covers(loads[m], base, j)
    ensures LoadAll(buf, image, loads, base)[j] == SegByte(loads[k], base, image, j)
    decreases k
  {
    var b := WriteSegment(buf, image, loads[0], base);
    if k == 0 {
      LoadAllOutside(b, image, loads[1..], base, j);
    } else {
      LoadAllLast(b, image, loads[1..], base, k - 1, j);
    }
  }

  /** copy_from_slice and fill for one segment, in place */
  method LoadSegment(buf: array<bv8>, image: seq<bv8>, h: ProgramHeader, base: nat)
    requires SegmentFits(h, base, buf.Length, |image|)
    modifies buf
    ensures buf[..] == WriteSegment(old(buf[..]), image, h, base)
  {
    var startIdx := h.p_vaddr - base;
    var endIdx := startIdx + h.p_filesz;
    var extra := h.p_memsz - h.p_filesz;
    var endExtraAlign := RoundUp4k(endIdx + extra);
    for i := startIdx to endIdx
      invariant forall j | 0 <= j < buf.Length ::
        buf[j] == if startIdx <= j < i then image[h.p_offset + (j - startIdx)] else old(buf[j])
    {
      buf[i] := image[h.p_offset + (i - startIdx)];
    }
    for i := endIdx to endExtraAlign
      invariant forall j | 0 <= j < buf.Length ::
        buf[j] == if startIdx <= j < endIdx then image[h.p_offset + (j - startIdx)]
                  else if endIdx <= j < i then 0
                  else old(buf[j])
    {
      buf[i] := 0;
    }
    assert buf[..] == WriteSegment(old(buf[..]), image, h, base);
  }

  /**
   * load_image's copy loop: for each PT_LOAD header in order, its file bytes
   * go to p_vaddr - base in the buffer, then zeros to the 4 KiB-rounded end
   * of its memory size.
   */
  method LoadSegments(buf: array<bv8>, image: seq<bv8>, headers: seq<ProgramHeader>, base: nat)
    requires AllFit(Loads(headers), base, buf.Length, |image|)
    modifies buf
    ensures buf[..] == LoadAll(old(buf[..]), image, Loads(headers), base)
  {
    var loads := Loads(headers);
    for k := 0 to |loads|
      invariant LoadAll(old(buf[..]), image, loads, base) == LoadAll(buf[..], image, loads[k..], base)
    {
      assert SegmentFits(loads[k], base, buf.Length, |image|);
      LoadSegment(buf, image, loads[k], base);
      assert loads[k..][1..] == loads[k + 1..];
    }
    assert loads[|loads|..] == [];
  }

  // ---------------------------------------------------------------------
  // load_image
  // ---------------------------------------------------------------------

  /** ImageLoadInfo, without the ELF header that is not part of this model */
  datatype ImageLoadInfo = ImageLoadInfo(virtSpan: Span, physSpan: Span, headers: seq<ProgramHeader>)

  /**
   * load_image, with the kernel span computed as intended: the virtual span
   * of the non-empty PT_LOAD segments, the physical span of the same length
   * at start_at, and the buffer at start_at filled segment by segment.
   */
  method LoadImage(image: seq<bv8>, headers: seq<ProgramHeader>, startAt: usize, buf: array<bv8>)
    returns (info: ImageLoadInfo)
    requires SpansFit(headers) && |NonEmptySpans(LoadSpans(headers))| > 0
    requires KernelRange(headers).Some?
    requires AsIsize(KernelRange(headers).value.begin) != Spanner.ISIZE_MIN
    requires buf.Length == Spanner.Len(KernelRange(headers).value)
    requires AllFit(Loads(headers), KernelRange(headers).value.begin, buf.Length, |image|)
    modifies buf
    ensures info.virtSpan == KernelRange(headers).value && info.headers == headers
    ensures info.physSpan == PhysSpan(info.virtSpan, startAt)
    ensures buf[..] == LoadAll(old(buf[..]), image, Loads(headers), info.virtSpan.begin)
  {
    var kernelRange := KernelRange(headers).value;
    var physRange := PhysSpan(kernelRange, startAt);
    LoadSegments(buf, image, headers, kernelRange.begin);
    info := ImageLoadInfo(kernelRange, physRange, headers);
  }
}
