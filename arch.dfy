/**
 * The RISC-V architecture support of crates/riscv: the satp and status
 * register codecs, the scause decoder with its two integer enums, and the
 * free list of physical pages behind PhysMem.
 */
module Arch {
  import opened Wrappers
  import Paging

  const PAGE_SIZE: bv64 := 4096
  /** Where all of physical memory is mapped once paging is on */
  const PHYSMEM_MAP: bv64 := 0xffff_ffe0_0000_0000

  // ---------------------------------------------------------------------
  // satp
  // ---------------------------------------------------------------------

  datatype TranslationMode = Bare | Sv39 | Other(o: bv8)

  /** Bits 0-59 of satp: PPN and ASID */
  const LOW60: bv64 := 0x0fff_ffff_ffff_ffff
  const PPN_BITS: bv64 := 0xfff_ffff_ffff

  /** The number set_mode stores for a mode */
  function ModeCode(m: TranslationMode): bv8 {
    match m
    case Bare => 0
    case Sv39 => 8
    case Other(o) => o
  }

  /** A mode set_mode can store and mode reads back: Other only with a free 4-bit code */
  predicate Storable(m: TranslationMode) {
    m.Other? ==> m.o < 16 && m.o != 0 && m.o != 8
  }

  /** Satp::mode on a raw register: the 4-bit field at 60-63 */
  function ModeOf(bits: bv64): (m: TranslationMode)
    ensures Storable(m)
    ensures ModeCode(m) as bv64 == bits >> 60
  {
    var raw := (bits >> 60) as bv8;
    if raw == 0 then Bare else if raw == 8 then Sv39 else TranslationMode.Other(raw)
  }

  /**
   * Satp::set_mode on a raw register: the field at 60-63 receives the low four
   * bits of the mode's code, and nothing else changes.
   */
  function WithMode(bits: bv64, m: TranslationMode): (r: bv64)
    ensures r & LOW60 == bits & LOW60
    ensures r >> 60 == (ModeCode(m) & 0xf) as bv64
  {
    (bits & LOW60) | (((ModeCode(m) & 0xf) as bv64) << 60)
  }

  /** Satp::ppn on a raw register: bits 0-43 */
  function PpnOf(bits: bv64): (ppn: bv64)
    ensures ppn < 0x1000_0000_0000
  {
    bits & PPN_BITS
  }

  /** The ASID field, bits 44-59 */
  function AsidOf(bits: bv64): bv16 {
    ((bits >> 44) & 0xffff) as bv16
  }

  /** base / PAGE_SIZE, as a shift (the two agree on unsigned words) */
  function PageNumber(base: bv64): bv64 {
    base >> 12
  }

  /** ppn * PAGE_SIZE, as a shift: the page-aligned address of page `ppn` */
  function PageBase(ppn: bv64): (base: bv64)
    requires ppn < 0x1000_0000_0000
    ensures Paging.IsPageAligned(base) && PageNumber(base) == ppn
  {
    PageBaseAligned(ppn);
    PageBaseNumber(ppn);
    ppn << 12
  }

  lemma PageBaseAligned(ppn: bv64)
    ensures Paging.IsPageAligned(ppn << 12)
  {
  }

  lemma PageBaseNumber(ppn: bv64)
    requires ppn < 0x1000_0000_0000
    ensures PageNumber(ppn << 12) == ppn
  {
  }

  /** Below 2^44 the shift is the product ppn * PAGE_SIZE: nothing is shifted out. */
  lemma PageBaseProduct(ppn: bv64)
    requires ppn < 0x1000_0000_0000
    ensures PageBase(ppn) == ppn * 0x1000
  {
  }

  /** Satp::new before set_mode: ppn in bits 0-43, asid in 44-59 */
  function SatpRaw(ppn: bv64, asid: bv16): bv64 {
    ppn | ((asid as bv64) << 44)
  }

  /** Satp::new: the page number of `base` and the ASID, then set_mode */
  function SatpBits(base: bv64, asid: bv16, m: TranslationMode): bv64
    requires PageNumber(base) < 0x800_0000_0000
  {
    WithMode(SatpRaw(PageNumber(base), asid), m)
  }

  /** Storing a storable mode and reading it back gives the mode. */
  lemma ModeRoundTrip(bits: bv64, m: TranslationMode)
    requires Storable(m)
    ensures ModeOf(WithMode(bits, m)) == m
  {
    assert WithMode(bits, m) >> 60 == (ModeCode(m) & 0xf) as bv64;
    assert ModeCode(m) & 0xf == ModeCode(m);
  }

  /** Reading the mode and storing it back leaves the register unchanged. */
  lemma ModeStoreRead(bits: bv64)
    ensures WithMode(bits, ModeOf(bits)) == bits
  {
  }

  /** set_mode keeps only four bits of Other(o): a code of 0x18 reads back as Sv39. */
  lemma ModeTruncates(bits: bv64)
    ensures ModeOf(WithMode(bits, TranslationMode.Other(0x18))) == Sv39
  {
  }

  /** set_mode leaves the page number and the ASID alone. */
  lemma ModeKeepsFields(bits: bv64, m: TranslationMode)
    ensures PpnOf(WithMode(bits, m)) == PpnOf(bits) && AsidOf(WithMode(bits, m)) == AsidOf(bits)
  {
    ModeKeepsPpn(bits, m);
    ModeKeepsAsid(bits, m);
  }

  lemma ModeKeepsPpn(bits: bv64, m: TranslationMode)
    ensures PpnOf(WithMode(bits, m)) == PpnOf(bits)
  {
  }

  lemma ModeKeepsAsid(bits: bv64, m: TranslationMode)
    ensures AsidOf(WithMode(bits, m)) == AsidOf(bits)
  {
  }

  /** The raw register holds the page number and the ASID. */
  lemma RawFields(ppn: bv64, asid: bv16)
    requires ppn < 0x800_0000_0000
    ensures PpnOf(SatpRaw(ppn, asid)) == ppn
    ensures AsidOf(SatpRaw(ppn, asid)) == asid
  {
    RawPpn(ppn, asid);
    RawAsid(ppn, asid);
  }

  lemma RawPpn(ppn: bv64, asid: bv16)
    requires ppn < 0x800_0000_0000
    ensures PpnOf(SatpRaw(ppn, asid)) == ppn
  {
  }

  lemma RawAsid(ppn: bv64, asid: bv16)
    requires ppn < 0x800_0000_0000
    ensures AsidOf(SatpRaw(ppn, asid)) == asid
  {
  }

  /** Satp::new puts the page number, the ASID and the mode where the register layout says. */
  lemma SatpFields(base: bv64, asid: bv16, m: TranslationMode)
    requires PageNumber(base) < 0x800_0000_0000
    ensures PpnOf(SatpBits(base, asid, m)) == PageNumber(base)
    ensures AsidOf(SatpBits(base, asid, m)) == asid
    ensures Storable(m) ==> ModeOf(SatpBits(base, asid, m)) == m
  {
    SatpLowFields(SatpRaw(PageNumber(base), asid), PageNumber(base), asid, m);
    if Storable(m) {
      ModeRoundTrip(SatpRaw(PageNumber(base), asid), m);
    }
  }

  lemma SatpLowFields(raw: bv64, ppn: bv64, asid: bv16, m: TranslationMode)
    requires ppn < 0x800_0000_0000 && raw == SatpRaw(ppn, asid)
    ensures PpnOf(WithMode(raw, m)) == ppn && AsidOf(WithMode(raw, m)) == asid
  {
    RawFields(ppn, asid);
    ModeKeepsFields(raw, m);
  }

  /** The satp CSR as a value the kernel updates in place */
  class Satp {
    var bits: bv64

    /** Satp::new for the table at `base` */
    constructor (base: bv64, asid: bv16, m: TranslationMode)
      requires PageNumber(base) < 0x800_0000_0000
      ensures bits == SatpBits(base, asid, m)
    {
      bits := SatpRaw(PageNumber(base), asid);
      new;
      SetMode(m);
    }

    function Ppn(): bv64
      reads this
    {
      PpnOf(bits)
    }

    function Mode(): TranslationMode
      reads this
    {
      ModeOf(bits)
    }

    method SetMode(m: TranslationMode)
      modifies this
      ensures bits == WithMode(old(bits), m)
      ensures Storable(m) ==> Mode() == m
    {
      bits := WithMode(bits, m);
      if Storable(m) {
        ModeRoundTrip(old(bits), m);
      }
    }

    function PagingEnabled(): (on: bool)
      reads this
      ensures on <==> bits >> 60 != 0
    {
      Mode() != Bare
    }

    /** Satp::as_pagetable: the root table when the mode is Sv39 */
    function AsPageTable(): (pt: Option<Paging.PageTable>)
      reads this
      ensures pt.Some? <==> bits >> 60 == 8
      ensures pt.Some? ==> PageNumber(pt.value.base) == Ppn()
      ensures pt.Some? ==> pt.value.base == Ppn() * 0x1000 && Paging.IsPageAligned(pt.value.base)
    {
      PageBaseProduct(Ppn());
      if Mode() == Sv39 then Some(Paging.FromRaw(PageBase(Ppn()))) else None
    }
  }

  // ---------------------------------------------------------------------
  // mstatus / sstatus
  // ---------------------------------------------------------------------

  /** mstatus.MIE */
  const MSTATUS_MIE: bv64 := 1 << 3
  /** mstatus.SUM */
  const MSTATUS_SUM: bv64 := 1 << 18
  /** sstatus.SIE */
  const SSTATUS_SIE: bv64 := 1 << 1
  /** mstatus.MPP, bits 11-12 */
  const MSTATUS_MPP: bv64 := 3 << 11

  datatype PrivilegeLevel = User | Supervisor | Reserved | Machine

  function PrivilegeCode(p: PrivilegeLevel): bv64 {
    match p
    case User => 0
    case Supervisor => 1
    case Reserved => 2
    case Machine => 3
  }

  /** The level whose code is the two-bit field at 11-12; every value names one */
  function MppOf(bits: bv64): (p: PrivilegeLevel)
    ensures PrivilegeCode(p) == (bits & MSTATUS_MPP) >> 11
  {
    var raw := (bits & MSTATUS_MPP) >> 11;
    if raw == 0 then User else if raw == 1 then Supervisor else if raw == 2 then Reserved else Machine
  }

  /** The register with the MPP field replaced */
  function WithMpp(bits: bv64, p: PrivilegeLevel): bv64 {
    (bits & !MSTATUS_MPP) | (PrivilegeCode(p) << 11)
  }

  /** The register with the bits of `mask` all set or all cleared */
  function WithBits(bits: bv64, mask: bv64, on: bool): bv64 {
    if on then bits | mask else bits & !mask
  }

  /** Setting MPP and reading it back gives the level; no other bit changes. */
  lemma MppRoundTrip(bits: bv64, p: PrivilegeLevel)
    ensures MppOf(WithMpp(bits, p)) == p
    ensures WithMpp(bits, p) & !MSTATUS_MPP == bits & !MSTATUS_MPP
  {
    MppField(bits, PrivilegeCode(p));
  }

  /** A two-bit code stored at 11-12 reads back, and the other bits stay. */
  lemma MppField(bits: bv64, code: bv64)
    requires code < 4
    ensures ((bits & !MSTATUS_MPP) | (code << 11)) & MSTATUS_MPP == code << 11
    ensures ((code << 11) >> 11) == code
    ensures ((bits & !MSTATUS_MPP) | (code << 11)) & !MSTATUS_MPP == bits & !MSTATUS_MPP
  {
  }

  /** A one-bit setter reads back as written and changes no other bit. */
  lemma BitRoundTrip(bits: bv64, mask: bv64, on: bool)
    requires mask != 0
    ensures (WithBits(bits, mask, on) & mask != 0) == on
    ensures WithBits(bits, mask, on) & !mask == bits & !mask
  {
  }

  /** mstatus / sstatus as the kernel updates it in place */
  class StatusReg {
    var bits: bv64

    constructor (bits: bv64)
      ensures this.bits == bits
    {
      this.bits := bits;
    }

    /** mstatus.MPP */
    function MPrevPl(): PrivilegeLevel
      reads this
    {
      MppOf(bits)
    }

    method SetSum(on: bool)
      modifies this
      ensures bits == WithBits(old(bits), MSTATUS_SUM, on)
    {
      bits := WithBits(bits, MSTATUS_SUM, on);
    }

    method SetMPrevPl(p: PrivilegeLevel)
      modifies this
      ensures bits == WithMpp(old(bits), p)
      ensures MPrevPl() == p
    {
      bits := WithMpp(bits, p);
      MppRoundTrip(old(bits), p);
    }

    /** mstatus.MIE */
    function MInts(): bool
      reads this
    {
      bits & MSTATUS_MIE != 0
    }

    method SetMInts(on: bool)
      modifies this
      ensures bits == WithBits(old(bits), MSTATUS_MIE, on)
      ensures MInts() == on
    {
      bits := WithBits(bits, MSTATUS_MIE, on);
      BitRoundTrip(old(bits), MSTATUS_MIE, on);
    }

    method SetSInts(on: bool)
      modifies this
      ensures bits == WithBits(old(bits), SSTATUS_SIE, on)
    {
      bits := WithBits(bits, SSTATUS_SIE, on);
    }
  }

  // ---------------------------------------------------------------------
  // scause
  // ---------------------------------------------------------------------

  /** usize with only the top bit set */
  const TOP: bv64 := 0x8000_0000_0000_0000

  /** The int_enum! instance ExceptionType(usize) */
  datatype ExceptionType =
    | InsnAddressMisaligned | InsnAccessFault | IllegalInsn | Breakpoint
    | LoadAddressMisaligned | LoadAccessFault | StoreAmoAddressMisaligned | StoreAmoAccessFault
    | EnvCallU | EnvCallS | InsnPageFault | LoadPageFault | StoreAmoPageFault
    | Other(code: bv64)

  /** The numbers ExceptionType lists */
  const EXCEPTION_CODES: set<bv64> := {0, 1, 2, 3, 4, 5, 6, 7, 8, 9, 12, 13, 15}

  /** From<ExceptionType> for usize */
  function ExceptionCode(e: ExceptionType): bv64 {
    match e
    case InsnAddressMisaligned => 0
    case InsnAccessFault => 1
    case IllegalInsn => 2
    case Breakpoint => 3
    case LoadAddressMisaligned => 4
    case LoadAccessFault => 5
    case StoreAmoAddressMisaligned => 6
    case StoreAmoAccessFault => 7
    case EnvCallU => 8
    case EnvCallS => 9
    case InsnPageFault => 12
    case LoadPageFault => 13
    case StoreAmoPageFault => 15
    case Other(o) => o
  }

  /** From<usize> for ExceptionType: a listed number gives its variant, any other t gives Other(t) */
  function ExceptionFrom(t: bv64): (e: ExceptionType)
    ensures e.Other? <==> t !in EXCEPTION_CODES
    ensures ExceptionCode(e) == t
  {
    if t == 0 then InsnAddressMisaligned
    else if t == 1 then InsnAccessFault
    else if t == 2 then IllegalInsn
    else if t == 3 then Breakpoint
    else if t == 4 then LoadAddressMisaligned
    else if t == 5 then LoadAccessFault
    else if t == 6 then StoreAmoAddressMisaligned
    else if t == 7 then StoreAmoAccessFault
    else if t == 8 then EnvCallU
    else if t == 9 then EnvCallS
    else if t == 12 then InsnPageFault
    else if t == 13 then LoadPageFault
    else if t == 15 then StoreAmoPageFault
    else ExceptionType.Other(t)
  }

  /** Converting an exception to its number and back gives it again, unless it is Other of a listed number. */
  lemma ExceptionRoundTrip(e: ExceptionType)
    requires e.Other? ==> e.code !in EXCEPTION_CODES
    ensures ExceptionFrom(ExceptionCode(e)) == e
  {
  }

  /** The int_enum! instance InterruptType(usize) */
  datatype InterruptType =
    | SSoftware | MSoftware | STimer | MTimer | SExternal | MExternal
    | Other(code: bv64)

  /** The numbers InterruptType lists */
  const INTERRUPT_CODES: set<bv64> := {1, 3, 5, 7, 9, 11}

  /** From<InterruptType> for usize */
  function InterruptCode(i: InterruptType): bv64 {
    match i
    case SSoftware => 1
    case MSoftware => 3
    case STimer => 5
    case MTimer => 7
    case SExternal => 9
    case MExternal => 11
    case Other(o) => o
  }

  /** From<usize> for InterruptType */
  function InterruptFrom(t: bv64): (i: InterruptType)
    ensures i.Other? <==> t !in INTERRUPT_CODES
    ensures InterruptCode(i) == t
  {
    if t == 1 then SSoftware
    else if t == 3 then MSoftware
    else if t == 5 then STimer
    else if t == 7 then MTimer
    else if t == 9 then SExternal
    else if t == 11 then MExternal
    else InterruptType.Other(t)
  }

  /** Converting an interrupt to its number and back gives it again, unless it is Other of a listed number. */
  lemma InterruptRoundTrip(i: InterruptType)
    requires i.Other? ==> i.code !in INTERRUPT_CODES
    ensures InterruptFrom(InterruptCode(i)) == i
  {
  }

  datatype SCause = Exception(exception: ExceptionType) | Interrupt(interrupt: InterruptType)

  /** `v as isize < 0`: the top bit is the sign */
  predicate NegativeAsIsize(v: bv64) {
    v >= TOP
  }

  /**
   * From<usize> for SCause: a set top bit marks an interrupt, whose code is the
   * rest of the word; otherwise the whole word is the exception code.
   */
  function SCauseFrom(v: bv64): (c: SCause)
    ensures c.Interrupt? <==> v & TOP != 0
    ensures c.Interrupt? ==> InterruptCode(c.interrupt) | TOP == v && InterruptCode(c.interrupt) < TOP
    ensures c.Exception? ==> ExceptionCode(c.exception) == v
  {
    if NegativeAsIsize(v) then Interrupt(InterruptFrom(!TOP & v)) else Exception(ExceptionFrom(v))
  }

  /** A supervisor timer interrupt (code 5 with the top bit) and a load page fault (code 13). */
  lemma SCauseExamples()
    ensures SCauseFrom(TOP | 5) == Interrupt(STimer)
    ensures SCauseFrom(13) == Exception(LoadPageFault)
    ensures SCauseFrom(TOP | 13) == Interrupt(InterruptType.Other(13))
  {
  }

  // ---------------------------------------------------------------------
  // PhysMem
  // ---------------------------------------------------------------------

  /** pm_base: the virtual address of physical address 0 under the given satp */
  function PmBase(satp: bv64): (b: bv64)
    ensures b == 0 <==> ModeOf(satp) == Bare
  {
    if ModeOf(satp) != Bare then PHYSMEM_MAP else 0
  }

  /** PhysMem::address: pm_base() + pa, wrapping */
  function Address(satp: bv64, pa: bv64): (p: bv64)
    ensures p - PmBase(satp) == pa
    ensures ModeOf(satp) == Bare ==> p == pa
  {
    PmBase(satp) + pa
  }

  /** A physical address, as the PhysAddr newtype */
  datatype PhysAddr = PhysAddr(addr: bv64)

  /**
   * The free list PHYS_FREELIST: `head` is the first free page, and `next`
   * holds, for each page that has been freed, the PhysPageMetadata record
   * written at its start (the page after it in the list).
   */
  class FreeList {
    var head: Option<PhysAddr>
    var next: map<PhysAddr, Option<PhysAddr>>

    /** Every page on the list holds a record, and every freed page is page aligned. */
    ghost predicate Valid()
      reads this
    {
      && (head.Some? ==> head.value in next)
      && (forall p | p in next :: Paging.IsPageAligned(p.addr))
      && (forall p | p in next && next[p].Some? :: next[p].value in next)
    }

    constructor ()
      ensures Valid() && head == None && next == map[]
    {
      head := None;
      next := map[];
    }

    /** PhysMem::free: write {next: head} into the page and push it */
    method Free(addr: PhysAddr)
      requires Valid() && Paging.IsPageAligned(addr.addr)
      modifies this
      ensures Valid()
      ensures head == Some(addr) && next == old(next)[addr := old(head)]
    {
      next := next[addr := head];
      head := Some(addr);
    }

    /**
     * PhysMem::alloc: pop the head, unless the list is empty or the head's
     * record has no successor; in that case the last page stays on the list.
     */
    method Alloc() returns (r: Option<PhysAddr>)
      requires Valid()
      modifies this
      ensures Valid() && next == old(next)
      ensures old(head).None? ==> r.None? && head == old(head)
      ensures old(head).Some? && old(next)[old(head).value].None? ==> r.None? && head == old(head)
      ensures old(head).Some? && old(next)[old(head).value].Some? ==>
                r == old(head) && head == old(next)[old(head).value]
      ensures r.Some? ==> Paging.IsPageAligned(r.value.addr)
    {
      if head.None? {
        return None;
      }
      var ret := head.value;
      var mine := next[ret];
      if mine.None? {
        return None;
      }
      var following := mine.value;
      // the alignment assert on the successor always holds: only aligned pages are freed
      assert Paging.IsPageAligned(following.addr);
      head := Some(following);
      r := Some(ret);
    }
  }

  /**
   * Freeing A then B onto an empty list, alloc returns B and then nothing:
   * A, the last page, is never handed out.
   */
  method LastPageKept(a: PhysAddr, b: PhysAddr) returns (first: Option<PhysAddr>, second: Option<PhysAddr>)
    requires Paging.IsPageAligned(a.addr) && Paging.IsPageAligned(b.addr) && a != b
    ensures first == Some(b) && second == None
  {
    var list := new FreeList();
    list.Free(a);
    list.Free(b);
    first := list.Alloc();
    second := list.Alloc();
  }
}
