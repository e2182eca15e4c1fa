/**
 * Sv39 page tables (crates/riscv_paging): the page-table-entry codec, the
 * virtual-address helpers, page-table allocation, and the walk-and-map
 * algorithm of section 4.4 of the RISC-V Privileged Architecture.
 */
module Paging {
  import opened Wrappers

  const PAGE_SIZE: bv64 := 4096
  const PAGE_MASK: bv64 := 0xfff
  const PT_ENTRIES: nat := 512

  /** 44-bit physical page number mask */
  const PPN_MASK: bv64 := 0xfff_ffff_ffff
  /** the low 39 bits that Sv39 translates */
  const VA_MASK: bv64 := 0x7f_ffff_ffff

  // PteAttrs
  const ATTR_V: bv8 := 0x01
  const ATTR_R: bv8 := 0x02
  const ATTR_W: bv8 := 0x04
  const ATTR_X: bv8 := 0x08
  const ATTR_USER: bv8 := 0x10
  const ATTR_GLOBAL: bv8 := 0x20
  const ATTR_ACCESSED: bv8 := 0x40
  const ATTR_DIRTY: bv8 := 0x80

  /** Errors of the mapping operations */
  datatype MapError =
    | NoneError      // an allocation or an arithmetic check failed
    | AlreadyMapped  // a leaf is already present on the path

  // ---------------------------------------------------------------------
  // Page-table-entry codec

  /**
   * A page table entry, the 64-bit word
   *   bits 63..54 zero | 53..10 PPN | 9..8 RSW | 7..0 DAGUXWRV
   */
  datatype Pte = Pte(bits: bv64)

  /**
   * Pte::new: bits 12..55 of `pa` become the PPN in bits 10..53, the
   * attributes fill bits 0..7; no validation.
   */
  function PteNew(pa: bv64, attrs: bv8): Pte {
    Pte((((pa >> 12) & PPN_MASK) << 10) | (attrs as bv64))
  }

  /** Pte::decompose: total on every word; (bits 10..53, bits 0..7) */
  function Decompose(pte: Pte): (bv64, bv8) {
    ((pte.bits >> 10) & PPN_MASK, (pte.bits & 0xff) as bv8)
  }

  /** Decompose recovers the page number and the attributes given to PteNew; bits 8, 9 and 54..63 stay clear. */
  lemma DecomposePteNew(pa: bv64, attrs: bv8)
    ensures Decompose(PteNew(pa, attrs)) == ((pa >> 12) & PPN_MASK, attrs)
    ensures PteNew(pa, attrs).bits & 0x300 == 0 && PteNew(pa, attrs).bits >> 54 == 0
  {
  }

  /** Decompose reads exactly bits 0..7 and 10..53: they recompose to the word with the others cleared. */
  lemma DecomposeBits(pte: Pte)
    ensures Decompose(pte).0 <= PPN_MASK
    ensures (Decompose(pte).0 << 10) | (Decompose(pte).1 as bv64) == pte.bits & 0x003f_ffff_ffff_fcff
  {
  }

  /** A word whose reserved bits are clear is rebuilt from its decomposition. */
  lemma PteRoundTrip(pte: Pte)
    requires pte.bits & 0xffc0_0000_0000_0300 == 0
    ensures PteNew(Decompose(pte).0 << 12, Decompose(pte).1) == pte
  {
  }

  /** Valid bit of an entry */
  predicate IsValid(pte: Pte) {
    pte.bits & 0x1 != 0
  }

  /** A valid entry with R or X set terminates the walk. */
  predicate IsLeaf(pte: Pte) {
    IsValid(pte) && pte.bits & 0xa != 0
  }

  /** A valid entry with neither R nor X points to the next-level table. */
  predicate IsPointer(pte: Pte) {
    pte.bits & 0xb == 0x1
  }

  /** Physical base of the table an entry points to: next_ppn * PAGE_SIZE */
  function Target(pte: Pte): bv64 {
    (pte.bits << 2) & 0x00ff_ffff_ffff_f000
  }

  /** The classification and target read off the decomposition, as virt_map_one does. */
  lemma DecomposeEntry(pte: Pte)
    ensures IsValid(pte) <==> Decompose(pte).1 & ATTR_V != 0
    ensures IsLeaf(pte) <==> Decompose(pte).1 & ATTR_V != 0 && Decompose(pte).1 & (ATTR_R | ATTR_X) != 0
    ensures IsPointer(pte) <==> Decompose(pte).1 & ATTR_V != 0 && Decompose(pte).1 & (ATTR_R | ATTR_X) == 0
    ensures Target(pte) == Decompose(pte).0 << 12
  {
  }

  /** A V-only entry for a table below 2^56 points back at that table. */
  lemma LinkEntry(table: bv64)
    requires IsPageAligned(table) && table < 0x100_0000_0000_0000
    ensures IsPointer(PteNew(table, ATTR_V))
    ensures Target(PteNew(table, ATTR_V)) == table
  {
  }

  /** The leaf written for a mapping is valid, and is a leaf when R or X is requested. */
  lemma LeafEntry(pa: bv64, attrs: bv8)
    ensures IsValid(PteNew(pa, attrs | ATTR_V))
    ensures attrs & (ATTR_R | ATTR_X) != 0 ==> IsLeaf(PteNew(pa, attrs | ATTR_V)) && !IsPointer(PteNew(pa, attrs | ATTR_V))
    ensures attrs & (ATTR_R | ATTR_X) == 0 ==> IsPointer(PteNew(pa, attrs | ATTR_V))
  {
  }

  // ---------------------------------------------------------------------
  // Addresses

  /** PhysAddr::is_page_aligned and VirtAddr::is_page_aligned */
  predicate IsPageAligned(a: bv64) {
    a & PAGE_MASK == 0
  }

  /** A virtual address, as the newtype passed to invalidate_cache */
  datatype VirtAddr = VirtAddr(addr: bv64)

  /** VirtAddr::canonicalize: keeps the low 39 bits */
  function Canonicalize(va: bv64): bv64 {
    va & VA_MASK
  }

  /** The canonical address is below 2^39 and agrees with `va` in the low 39 bits. */
  lemma CanonicalizeBounds(va: bv64)
    ensures Canonicalize(va) < 0x80_0000_0000
    ensures (va - Canonicalize(va)) & VA_MASK == 0
  {
  }

  lemma CanonicalizeIdempotent(va: bv64)
    ensures Canonicalize(Canonicalize(va)) == Canonicalize(va)
  {
  }

  /** The unit test of canonicalize (lib.rs, test_canonicalize) */
  lemma CanonicalizeExample()
    ensures Canonicalize(0xff00_0010_1234_5789) == 0x0000_0010_1234_5789
  {
  }

  /** VirtAddr::page_aligned: rounds down to the page */
  function PageAligned(va: bv64): bv64 {
    va & !PAGE_MASK
  }

  /** The page-aligned address is the start of the page holding `va`. */
  lemma PageAlignedBounds(va: bv64)
    ensures IsPageAligned(PageAligned(va))
    ensures PageAligned(va) <= va && va - PageAligned(va) < PAGE_SIZE
  {
  }

  /** VirtAddr::parts: [VPN0, VPN1, VPN2] */
  function Parts(va: bv64): (vpn: seq<bv64>)
    ensures |vpn| == 3
    ensures forall l | 0 <= l < 3 :: vpn[l] < 512
  {
    [(va >> 12) & 0x1ff, (va >> 21) & 0x1ff, (va >> 30) & 0x1ff]
  }

  /** VPN2, VPN1, VPN0 and the page offset recompose the canonical address. */
  lemma PartsRecompose(va: bv64)
    ensures var vpn := Parts(va);
      (vpn[2] << 30) | (vpn[1] << 21) | (vpn[0] << 12) | (va & PAGE_MASK) == Canonicalize(va)
  {
  }

  /** The index into the level-`l` table that the walk for `va` uses */
  function Vpn(va: bv64, l: nat): (i: nat)
    requires l < 3
    ensures i < PT_ENTRIES
  {
    Slot(Parts(va)[l])
  }

  /** A 9-bit table index as a sequence position */
  function Slot(part: bv64): (i: nat)
    ensures i < PT_ENTRIES
  {
    (part & 0x1ff) as nat
  }

  /** The index bits of the walk ignore the page offset and the bits above bit 38. */
  lemma IndexBitsOfPage(va: bv64, shift: bv64)
    requires shift == 12 || shift == 21 || shift == 30
    ensures ((va & VA_MASK & !PAGE_MASK) >> shift) & 0x1ff == (va >> shift) & 0x1ff
  {
  }

  /** virt_map_one walks with the parts of the canonical page address: the same as those of `va`. */
  lemma PartsOfPage(va: bv64)
    ensures Parts(PageAligned(Canonicalize(va))) == Parts(va)
  {
    IndexBitsOfPage(va, 12);
    IndexBitsOfPage(va, 21);
    IndexBitsOfPage(va, 30);
  }

  // ---------------------------------------------------------------------
  // Page tables in physical memory

  /** A page table: 512 entries in the page at a physical base address */
  datatype PageTable = PageTable(base: bv64)

  /** PageTable::from_raw: asserts that the base is page aligned */
  function FromRaw(base: bv64): (pt: PageTable)
    requires IsPageAligned(base)
    ensures pt.base == base && IsPageAligned(pt.base)
  {
    PageTable(base)
  }

  /** The contents of a freshly zeroed table: every entry invalid */
  function ZeroTable(): (t: seq<Pte>)
    ensures |t| == PT_ENTRIES
    ensures forall i | 0 <= i < PT_ENTRIES :: t[i] == Pte(0) && !IsValid(t[i])
  {
    seq(PT_ENTRIES, _ => Pte(0))
  }

  /** The tables present in physical memory, by the page that holds them */
  type Frames = map<PageTable, seq<Pte>>

  /**
   * Every table is a page-aligned frame of 512 entries; the supply frames are
   * page aligned, below 2^56 (so that Pte::new keeps their address), distinct,
   * and not tables yet.
   */
  ghost predicate MemoryValid(frames: Frames, supply: seq<bv64>) {
    && (forall t | t in frames :: IsPageAligned(t.base) && |frames[t]| == PT_ENTRIES)
    && (forall j | 0 <= j < |supply| ::
          IsPageAligned(supply[j]) && supply[j] < 0x100_0000_0000_0000 && PageTable(supply[j]) !in frames)
    && (forall j, k | 0 <= j < k < |supply| :: supply[j] != supply[k])
  }

  /** Writing one entry of a table keeps the memory well formed. */
  lemma MemoryValidWrite(frames: Frames, supply: seq<bv64>, t: PageTable, i: nat, pte: Pte)
    requires MemoryValid(frames, supply) && t in frames && i < PT_ENTRIES
    ensures MemoryValid(frames[t := frames[t][i := pte]], supply)
  {
  }

  /**
   * Physical memory as the page-table code sees it through PhysAccess: the
   * frames that hold tables, and an allocator that hands out the frames of
   * `supply` in order and fails once it is exhausted.
   */
  class PhysMemory {
    /** table frames */
    var frames: Frames
    /** the frames P::alloc will return, in order */
    var supply: seq<bv64>
    /** the level each table is used at (2 for a root) */
    ghost var level: map<PageTable, nat>
    /** the virtual addresses whose cached translations were invalidated, in order */
    ghost var flushed: seq<VirtAddr>

    ghost predicate Valid()
      reads this
    {
      MemoryValid(frames, supply)
    }

    constructor (frames: Frames, level: map<PageTable, nat>, supply: seq<bv64>)
      ensures this.frames == frames && this.level == level && this.supply == supply
      ensures this.flushed == []
    {
      this.frames, this.level, this.supply := frames, level, supply;
      this.flushed := [];
    }

    /** P::alloc: the next frame of the supply, or None once it is exhausted */
    method Alloc() returns (frame: Option<bv64>)
      requires Valid()
      modifies this`supply
      ensures Valid()
      ensures frame.None? <==> old(supply) == []
      ensures frame.None? ==> supply == old(supply)
      ensures frame.Some? ==> frame.value == old(supply)[0] && supply == old(supply)[1..]
    {
      if supply == [] {
        frame := None;
      } else {
        frame := Some(supply[0]);
        supply := supply[1..];
      }
    }

    /**
     * PageTable::alloc: None exactly when P::alloc fails; otherwise a table
     * whose 512 entries are all zero.  `lvl` records the level it is for.
     */
    method AllocTable(ghost lvl: nat) returns (pt: Option<PageTable>)
      requires Valid()
      modifies this
      ensures Valid()
      ensures pt.None? <==> old(supply) == []
      ensures pt.None? ==> frames == old(frames) && supply == old(supply) && level == old(level)
      ensures pt.Some? ==>
        && pt.value == PageTable(old(supply)[0]) && pt.value !in old(frames)
        && IsPageAligned(pt.value.base) && pt.value.base < 0x100_0000_0000_0000
        && supply == old(supply)[1..]
        && frames == old(frames)[pt.value := ZeroTable()]
        && level == old(level)[pt.value := lvl]
      ensures flushed == old(flushed)
    {
      var allocation := Alloc();
      if allocation.None? {
        return None;
      }
      var table := FromRaw(allocation.value);
      frames := frames[table := ZeroTable()];
      level := level[table := lvl];
      pt := Some(table);
    }

    /** PageTable::clear: every entry of the table becomes invalid */
    method Clear(pt: PageTable)
      requires Valid() && pt in frames
      modifies this`frames
      ensures Valid()
      ensures frames == old(frames)[pt := ZeroTable()]
      ensures forall i | 0 <= i < PT_ENTRIES :: !IsValid(frames[pt][i])
    {
      frames := frames[pt := ZeroTable()];
    }
  }

  // ---------------------------------------------------------------------
  // The walk, as a read-only ghost function used to state the contracts

  /** Entry `i` of table `t`, reading an absent table as zero */
  ghost function EntryAt(frames: Frames, t: PageTable, i: nat): Pte {
    if t in frames && i < |frames[t]| then frames[t][i] else Pte(0)
  }

  /** The table the walk for `va` reaches at level `l`, following pointer entries from `root` */
  ghost function TableAt(frames: Frames, root: PageTable, va: bv64, l: nat): (t: Option<PageTable>)
    requires l <= 2
    ensures t.Some? ==> t.value in frames
    decreases 2 - l
  {
    if l == 2 then
      if root in frames then Some(root) else None
    else
      match TableAt(frames, root, va, l + 1)
      case None => None
      case Some(t) =>
        var e := EntryAt(frames, t, Vpn(va, l + 1));
        if IsPointer(e) && PageTable(Target(e)) in frames then Some(PageTable(Target(e))) else None
  }

  /** The entry on `va`'s path at level `l` (zero when the walk does not get there) */
  ghost function PathEntry(frames: Frames, root: PageTable, va: bv64, l: nat): Pte
    requires l <= 2
  {
    match TableAt(frames, root, va, l)
    case None => Pte(0)
    case Some(t) => EntryAt(frames, t, Vpn(va, l))
  }

  /** The level at which the walk stops: the first path entry that is not a pointer */
  ghost function StopLevel(frames: Frames, root: PageTable, va: bv64): (l: nat)
    ensures l <= 2
  {
    if !IsPointer(PathEntry(frames, root, va, 2)) then 2
    else if !IsPointer(PathEntry(frames, root, va, 1)) then 1
    else 0
  }

  /** Every pointer on `va`'s path leads to a table that is present */
  ghost predicate PathPresent(frames: Frames, root: PageTable, va: bv64) {
    && root in frames
    && forall l | 1 <= l <= 2 ::
         IsPointer(PathEntry(frames, root, va, l)) ==> PageTable(Target(PathEntry(frames, root, va, l))) in frames
  }

  /** The walk for `va` reaches a level-0 table whose entry for `va` is `pte` */
  ghost predicate Mapped(frames: Frames, root: PageTable, va: bv64, pte: Pte) {
    TableAt(frames, root, va, 0).Some? && PathEntry(frames, root, va, 0) == pte
  }

  /** No valid entry of `f` is overwritten in `g`, and no table disappears */
  ghost predicate ValidKept(f: Frames, g: Frames) {
    && f.Keys <= g.Keys
    && forall t, i | t in f && 0 <= i < |f[t]| && IsValid(f[t][i]) :: i < |g[t]| && g[t][i] == f[t][i]
  }

  /**
   * The level discipline of the tables: a pointer entry sits only in a table
   * of level 1 or 2, and leads to a present table one level down.
   */
  ghost predicate Layered(frames: Frames, level: map<PageTable, nat>) {
    forall t | t in frames ::
      && t in level && level[t] <= 2
      && forall i | 0 <= i < |frames[t]| && IsPointer(frames[t][i]) ::
           && level[t] >= 1
           && PageTable(Target(frames[t][i])) in frames && PageTable(Target(frames[t][i])) in level
           && level[PageTable(Target(frames[t][i]))] == level[t] - 1
  }

  ghost predicate RootAt(frames: Frames, level: map<PageTable, nat>, root: PageTable) {
    root in frames && root in level && level[root] == 2
  }

  // ---------------------------------------------------------------------
  // Lemmas about the walk

  /** A path through valid entries survives any change that keeps valid entries. */
  lemma {:induction false} PathPersists(f: Frames, g: Frames, root: PageTable, va: bv64, l: nat)
    requires ValidKept(f, g) && l <= 2
    requires TableAt(f, root, va, l).Some?
    ensures TableAt(g, root, va, l) == TableAt(f, root, va, l)
    decreases 2 - l
  {
    if l < 2 {
      PathPersists(f, g, root, va, l + 1);
      var t := TableAt(f, root, va, l + 1).value;
      var i := Vpn(va, l + 1);
      assert IsPointer(EntryAt(f, t, i));
      assert EntryAt(g, t, i) == EntryAt(f, t, i);
    }
  }

  /** A valid translation survives any change that keeps valid entries. */
  lemma MappingPersists(f: Frames, g: Frames, root: PageTable, va: bv64, pte: Pte)
    requires ValidKept(f, g) && Mapped(f, root, va, pte) && IsValid(pte)
    ensures Mapped(g, root, va, pte)
  {
    PathPersists(f, g, root, va, 0);
  }

  /** Under the level discipline, the table the walk reaches at level `l` is a level-`l` table. */
  lemma {:induction false} TableAtLevel(frames: Frames, level: map<PageTable, nat>, root: PageTable, va: bv64, l: nat)
    requires Layered(frames, level) && RootAt(frames, level, root) && l <= 2
    requires TableAt(frames, root, va, l).Some?
    ensures TableAt(frames, root, va, l).value in level
    ensures level[TableAt(frames, root, va, l).value] == l
    decreases 2 - l
  {
    if l < 2 {
      TableAtLevel(frames, level, root, va, l + 1);
    }
  }

  /**
   * Under the level discipline every table on a path is present, and the
   * level-0 entry is never a pointer, so the walk of VirtMapOne cannot panic.
   */
  lemma LayeredWalk(frames: Frames, level: map<PageTable, nat>, root: PageTable, va: bv64)
    requires Layered(frames, level) && RootAt(frames, level, root)
    ensures PathPresent(frames, root, va)
    ensures !IsPointer(PathEntry(frames, root, va, 0))
  {
    forall l | 1 <= l <= 2 && IsPointer(PathEntry(frames, root, va, l))
      ensures PageTable(Target(PathEntry(frames, root, va, l))) in frames
    {
      TableAtLevel(frames, level, root, va, l);
    }
    if TableAt(frames, root, va, 0).Some? {
      TableAtLevel(frames, level, root, va, 0);
    }
  }

  /** Writing an invalid slot keeps every valid entry. */
  lemma WriteInvalidKeeps(f: Frames, t: PageTable, i: nat, pte: Pte)
    requires t in f && i < |f[t]| && !IsValid(f[t][i])
    ensures ValidKept(f, f[t := f[t][i := pte]])
  {
  }

  /**
   * One step of the second loop of virt_map_one: the walk for `va` stopped at
   * the invalid slot of table `t` at level `lvl`; a fresh zeroed table `nt` is
   * added and the slot is pointed at it.  The path down to `lvl` is unchanged
   * and now continues into `nt`.
   */
  lemma LinkStep(f: Frames, root: PageTable, va: bv64, lvl: nat, t: PageTable, nt: bv64)
    requires 1 <= lvl <= 2 && TableAt(f, root, va, lvl) == Some(t)
    requires !IsValid(EntryAt(f, t, Vpn(va, lvl)))
    requires Vpn(va, lvl) < |f[t]|
    requires PageTable(nt) !in f && IsPageAligned(nt) && nt < 0x100_0000_0000_0000
    ensures var g := f[PageTable(nt) := ZeroTable()][t := f[t][Vpn(va, lvl) := PteNew(nt, ATTR_V)]];
      && ValidKept(f, g)
      && (forall l | lvl <= l <= 2 :: TableAt(g, root, va, l) == TableAt(f, root, va, l))
      && (forall l | lvl < l <= 2 :: PathEntry(g, root, va, l) == PathEntry(f, root, va, l))
      && PathEntry(g, root, va, lvl) == PteNew(nt, ATTR_V)
      && TableAt(g, root, va, lvl - 1) == Some(PageTable(nt))
  {
    var f1 := f[PageTable(nt) := ZeroTable()];
    var g := f1[t := f[t][Vpn(va, lvl) := PteNew(nt, ATTR_V)]];
    assert f1[t] == f[t];
    WriteInvalidKeeps(f1, t, Vpn(va, lvl), PteNew(nt, ATTR_V));
    assert ValidKept(f, g);
    PathAbove(f, g, root, va, lvl);
    LinkEntry(nt);
    var i := Vpn(va, lvl);
    assert g[t][i] == PteNew(nt, ATTR_V);
    assert EntryAt(g, t, i) == PteNew(nt, ATTR_V);
    assert PageTable(Target(PteNew(nt, ATTR_V))) in g;
  }

  /** A walk that reaches level `l` crossed a valid pointer at every level above it. */
  lemma {:induction false} TableAtAboveValid(frames: Frames, root: PageTable, va: bv64, l: nat, m: nat)
    requires l < m <= 2 && TableAt(frames, root, va, l).Some?
    ensures TableAt(frames, root, va, m).Some? && IsPointer(PathEntry(frames, root, va, m))
    decreases m - l
  {
    if m > l + 1 {
      TableAtAboveValid(frames, root, va, l + 1, m);
    }
  }

  /** The last step of virt_map_one: writing the leaf into the invalid level-0 slot maps `va`. */
  lemma LeafStep(f: Frames, root: PageTable, va: bv64, t: PageTable, pte: Pte)
    requires TableAt(f, root, va, 0) == Some(t)
    requires !IsValid(EntryAt(f, t, Vpn(va, 0))) && Vpn(va, 0) < |f[t]|
    ensures var g := f[t := f[t][Vpn(va, 0) := pte]];
      && ValidKept(f, g)
      && (forall l | 0 <= l <= 2 :: TableAt(g, root, va, l) == TableAt(f, root, va, l))
      && (forall l | 0 < l <= 2 :: PathEntry(g, root, va, l) == PathEntry(f, root, va, l))
      && Mapped(g, root, va, pte)
  {
    var g := f[t := f[t][Vpn(va, 0) := pte]];
    WriteInvalidKeeps(f, t, Vpn(va, 0), pte);
    PathAbove(f, g, root, va, 0);
  }

  /**
   * When no valid entry changes, a walk that reaches level `lvl` is the same
   * walk afterwards: the tables from the root down to `lvl` and the entries
   * crossed above `lvl` are unchanged.
   */
  lemma PathAbove(f: Frames, g: Frames, root: PageTable, va: bv64, lvl: nat)
    requires ValidKept(f, g) && lvl <= 2 && TableAt(f, root, va, lvl).Some?
    ensures forall l | lvl <= l <= 2 :: TableAt(g, root, va, l) == TableAt(f, root, va, l)
    ensures forall l | lvl < l <= 2 :: PathEntry(g, root, va, l) == PathEntry(f, root, va, l)
  {
    forall l | lvl <= l <= 2
      ensures TableAt(g, root, va, l) == TableAt(f, root, va, l)
    {
      if l > lvl {
        TableAtAboveValid(f, root, va, lvl, l);
      }
      PathPersists(f, g, root, va, l);
    }
    forall l | lvl < l <= 2
      ensures PathEntry(g, root, va, l) == PathEntry(f, root, va, l)
    {
      TableAtAboveValid(f, root, va, lvl, l);
      var t := TableAt(f, root, va, l).value;
      assert TableAt(g, root, va, l) == Some(t);
      assert IsPointer(EntryAt(f, t, Vpn(va, l)));
      assert EntryAt(g, t, Vpn(va, l)) == EntryAt(f, t, Vpn(va, l));
    }
  }

  /** Linking a fresh table one level below the table holding the slot keeps the level discipline. */
  lemma LayeredLink(f: Frames, level: map<PageTable, nat>, t: PageTable, i: nat, nt: bv64)
    requires Layered(f, level) && t in f && i < |f[t]| && level[t] >= 1
    requires PageTable(nt) !in f && nt < 0x100_0000_0000_0000 && IsPageAligned(nt)
    ensures var g := f[PageTable(nt) := ZeroTable()][t := f[t][i := PteNew(nt, ATTR_V)]];
      Layered(g, level[PageTable(nt) := level[t] - 1])
  {
    var n := PageTable(nt);
    var g := f[n := ZeroTable()][t := f[t][i := PteNew(nt, ATTR_V)]];
    var lv := level[n := level[t] - 1];
    LinkEntry(nt);
    forall u | u in g
      ensures u in lv && lv[u] <= 2
      ensures forall j | 0 <= j < |g[u]| && IsPointer(g[u][j]) ::
        && lv[u] >= 1
        && PageTable(Target(g[u][j])) in g && PageTable(Target(g[u][j])) in lv
        && lv[PageTable(Target(g[u][j]))] == lv[u] - 1
    {
      if u == n {
        assert g[u] == ZeroTable();
      } else {
        assert u in f && lv[u] == level[u];
        forall j | 0 <= j < |g[u]| && IsPointer(g[u][j])
          ensures lv[u] >= 1 && PageTable(Target(g[u][j])) in g && PageTable(Target(g[u][j])) in lv
          ensures lv[PageTable(Target(g[u][j]))] == lv[u] - 1
        {
          if u == t && j == i {
            assert Target(g[u][j]) == nt;
          } else {
            assert g[u][j] == f[u][j];
          }
        }
      }
    }
  }

  /** Overwriting a slot with an entry that is not a pointer keeps the level discipline. */
  lemma LayeredLeaf(f: Frames, level: map<PageTable, nat>, t: PageTable, i: nat, pte: Pte)
    requires Layered(f, level) && t in f && i < |f[t]| && !IsPointer(pte)
    ensures Layered(f[t := f[t][i := pte]], level)
  {
    var g := f[t := f[t][i := pte]];
    forall u | u in g
      ensures u in level && level[u] <= 2
      ensures forall j | 0 <= j < |g[u]| && IsPointer(g[u][j]) ::
        && level[u] >= 1
        && PageTable(Target(g[u][j])) in g && PageTable(Target(g[u][j])) in level
        && level[PageTable(Target(g[u][j]))] == level[u] - 1
    {
      forall j | 0 <= j < |g[u]| && IsPointer(g[u][j])
        ensures level[u] >= 1 && PageTable(Target(g[u][j])) in g && PageTable(Target(g[u][j])) in level
        ensures level[PageTable(Target(g[u][j]))] == level[u] - 1
      {
        assert g[u][j] == f[u][j];
      }
    }
  }

  // ---------------------------------------------------------------------
  // Mapping

  function Min(a: nat, b: nat): (m: nat)
    ensures m <= a && m <= b && (m == a || m == b)
  {
    if a <= b then a else b
  }

  /** How many frames virt_map_one takes from the allocator for `va` */
  ghost function Consumed(frames: Frames, supply: seq<bv64>, root: PageTable, va: bv64): (k: nat)
    ensures k <= StopLevel(frames, root, va) && k <= |supply|
  {
    var l := StopLevel(frames, root, va);
    if IsValid(PathEntry(frames, root, va, l)) then 0 else Min(l, |supply|)
  }

  /** One step down the walk: a pointer on the path leads to the table at the next level. */
  lemma WalkDown(frames: Frames, root: PageTable, va: bv64, l: nat, t: PageTable)
    requires 1 <= l <= 2 && TableAt(frames, root, va, l) == Some(t)
    requires PathPresent(frames, root, va) && IsPointer(EntryAt(frames, t, Vpn(va, l)))
    ensures TableAt(frames, root, va, l - 1) == Some(PageTable(Target(EntryAt(frames, t, Vpn(va, l)))))
  {
    assert PathEntry(frames, root, va, l) == EntryAt(frames, t, Vpn(va, l));
    assert l - 1 + 1 == l;
  }

  /** The walk stops at the first level whose path entry is not a pointer. */
  lemma WalkStops(frames: Frames, root: PageTable, va: bv64, l: nat)
    requires l <= 2 && forall m | l < m <= 2 :: IsPointer(PathEntry(frames, root, va, m))
    requires !IsPointer(PathEntry(frames, root, va, l))
    ensures StopLevel(frames, root, va) == l
  {
  }

  /**
   * The first loop of virt_map_one: from the root, follow pointer entries
   * down the path of `va` (whose parts are `parts`) and stop at the first
   * entry that is not a pointer; report its table, its level and whether it
   * is valid.
   */
  method Walk(mem: PhysMemory, root: PageTable, va: bv64, parts: seq<bv64>)
    returns (table: PageTable, level: nat, occupied: bool)
    requires mem.Valid() && parts == Parts(va)
    requires PathPresent(mem.frames, root, va)
    requires !IsPointer(PathEntry(mem.frames, root, va, 0))
    ensures level == StopLevel(mem.frames, root, va)
    ensures TableAt(mem.frames, root, va, level) == Some(table)
    ensures occupied <==> IsValid(PathEntry(mem.frames, root, va, level))
  {
    table := root;
    level := 2;
    while true
      invariant level <= 2
      invariant TableAt(mem.frames, root, va, level) == Some(table)
      invariant forall l | level < l <= 2 :: IsPointer(PathEntry(mem.frames, root, va, l))
      decreases level
    {
      var pte := mem.frames[table][Slot(parts[level])];
      assert pte == PathEntry(mem.frames, root, va, level);
      var a := Decompose(pte).1;
      DecomposeEntry(pte);
      if a & ATTR_V == 0 {
        WalkStops(mem.frames, root, va, level);
        return table, level, false;
      }
      if a & (ATTR_R | ATTR_X) != 0 {
        WalkStops(mem.frames, root, va, level);
        return table, level, true;
      }
      // a pointer at level 0 is the panic the precondition excludes
      assert level != 0;
      WalkDown(mem.frames, root, va, level, table);
      // Target(pte) is next_ppn * PAGE_SIZE (DecomposeEntry)
      table := PageTable(Target(pte));
      level := level - 1;
    }
  }

  /**
   * The tables `f` and allocator state `s` reached from `F0` and `S0` after
   * the second loop of virt_map_one has linked `k` fresh tables below the
   * invalid slot of `table` at `level`: the first `k` frames of the supply
   * were taken, each is on the path of `va` one level further down and is
   * pointed at by a V-only entry, each is zero apart from its path slot,
   * and in the tables that existed before only that one slot changed.
   */
  ghost predicate Linked(F0: Frames, S0: seq<bv64>, f: Frames, s: seq<bv64>,
                         root: PageTable, va: bv64, table: PageTable, level: nat, k: nat)
  {
    && Taken(F0, S0, f, s, level, k)
    && ValidKept(F0, f)
    && PathKept(F0, f, root, va, level)
    && Chained(S0, f, root, va, level, k)
    && OnlySlotChanged(F0, f, va, table, level)
    && FreshZero(S0, f, va, level, k)
  }

  /** The first `k` supply frames were taken, and became the new tables. */
  ghost predicate Taken(F0: Frames, S0: seq<bv64>, f: Frames, s: seq<bv64>, level: nat, k: nat) {
    && level <= 2 && k <= level && k <= |S0|
    && FreshSupply(F0, S0)
    && s == S0[k..]
    && f.Keys == F0.Keys + TablesOf(S0[..k])
  }

  /** The path of `va` from the root down to `level` is as it was. */
  ghost predicate PathKept(F0: Frames, f: Frames, root: PageTable, va: bv64, level: nat) {
    forall l | level <= l <= 2 :: TableAt(f, root, va, l) == TableAt(F0, root, va, l)
  }

  /** The `k` new tables are chained down the path of `va` below `level`. */
  ghost predicate Chained(S0: seq<bv64>, f: Frames, root: PageTable, va: bv64, level: nat, k: nat)
    requires k <= level <= 2 && k <= |S0|
  {
    forall j | 0 <= j < k ::
      && TableAt(f, root, va, level - 1 - j) == Some(PageTable(S0[j]))
      && PathEntry(f, root, va, level - j) == PteNew(S0[j], ATTR_V)
  }

  /** Of the tables in `F0`, only the slot for `va` in `table` at `level` may differ in `f`. */
  ghost predicate OnlySlotChanged(F0: Frames, f: Frames, va: bv64, table: PageTable, level: nat)
    requires level <= 2
  {
    forall t, i | t in F0 && t in f && 0 <= i < |F0[t]| && i < |f[t]| && f[t][i] != F0[t][i] ::
      t == table && i == Vpn(va, level)
  }

  /** Each new table is zero except in the slot on the path of `va`. */
  ghost predicate FreshZero(S0: seq<bv64>, f: Frames, va: bv64, level: nat, k: nat)
    requires k <= level <= 2 && k <= |S0|
  {
    forall j, i | 0 <= j < k && 0 <= i < PT_ENTRIES && i != Vpn(va, level - 1 - j) ::
      EntryAt(f, PageTable(S0[j]), i) == Pte(0)
  }

  /** The tables at the frames of `frames` */
  ghost function TablesOf(frames: seq<bv64>): set<PageTable> {
    set x | x in frames :: PageTable(x)
  }

  /** The supply frames are distinct and hold none of the tables of `f` */
  ghost predicate FreshSupply(f: Frames, s: seq<bv64>) {
    && (forall j | 0 <= j < |s| :: PageTable(s[j]) !in f)
    && (forall j, k | 0 <= j < k < |s| :: s[j] != s[k])
  }

  /** The walk for `va` reaches `t` at level `l`, and the slot for `va` there is free. */
  ghost predicate Frontier(f: Frames, root: PageTable, va: bv64, l: nat, t: PageTable) {
    l <= 2 && TableAt(f, root, va, l) == Some(t) && !IsValid(EntryAt(f, t, Vpn(va, l)))
  }

  /** Nothing linked yet: the state where the walk stopped. */
  lemma LinkedStart(F0: Frames, S0: seq<bv64>, root: PageTable, va: bv64, table: PageTable, level: nat)
    requires level <= 2 && FreshSupply(F0, S0)
    ensures Linked(F0, S0, F0, S0, root, va, table, level, 0)
  {
    assert S0[..0] == [];
  }

  /** The frame of the table the loop is at, in terms of the count of tables linked so far */
  ghost function Current(S0: seq<bv64>, table: PageTable, k: nat): PageTable
    requires k <= |S0|
  {
    if k == 0 then table else PageTable(S0[k - 1])
  }

  /** One iteration of the second loop keeps Linked, one level further down. */
  lemma LinkedStep(F0: Frames, S0: seq<bv64>, f: Frames, s: seq<bv64>,
                   root: PageTable, va: bv64, table: PageTable, level: nat, k: nat)
    requires Linked(F0, S0, f, s, root, va, table, level, k) && k < level && s != []
    requires Frontier(f, root, va, level - k, Current(S0, table, k))
    requires |f[Current(S0, table, k)]| == PT_ENTRIES
    requires IsPageAligned(s[0]) && s[0] < 0x100_0000_0000_0000
    ensures var c := Current(S0, table, k);
      var g := f[PageTable(s[0]) := ZeroTable()][c := f[c][Vpn(va, level - k) := PteNew(s[0], ATTR_V)]];
      && Linked(F0, S0, g, s[1..], root, va, table, level, k + 1)
      && Frontier(g, root, va, level - k - 1, Current(S0, table, k + 1))
  {
    var lvl := level - k;
    var nt := s[0];
    var c := Current(S0, table, k);
    var g := f[PageTable(nt) := ZeroTable()][c := f[c][Vpn(va, lvl) := PteNew(nt, ATTR_V)]];
    assert S0[k] == nt && PageTable(nt) !in f by {
      TakenNext(F0, S0, f, s, level, k);
    }
    LinkStep(f, root, va, lvl, c, nt);
    ValidKeptTrans(F0, f, g);
    assert Taken(F0, S0, g, s[1..], level, k + 1) by {
      TakenStep(F0, S0, f, g, s, level, k, c);
    }
    assert PathKept(F0, g, root, va, level) && Chained(S0, g, root, va, level, k + 1) by {
      LinkedChain(F0, S0, f, g, root, va, level, k, nt);
    }
    assert OnlySlotChanged(F0, g, va, table, level) && FreshZero(S0, g, va, level, k + 1) by {
      LinkedStepSlots(F0, S0, f, g, va, table, level, k, c, nt);
    }
    LinkedFrontier(g, root, va, lvl - 1, nt);
  }

  /** The next supply frame is the next one taken, and is not yet a table. */
  lemma TakenNext(F0: Frames, S0: seq<bv64>, f: Frames, s: seq<bv64>, level: nat, k: nat)
    requires Taken(F0, S0, f, s, level, k) && s != []
    ensures k < |S0| && S0[k] == s[0] && PageTable(s[0]) !in f
  {
  }

  lemma TakenStep(F0: Frames, S0: seq<bv64>, f: Frames, g: Frames, s: seq<bv64>, level: nat, k: nat, c: PageTable)
    requires Taken(F0, S0, f, s, level, k) && k < level && s != [] && c in f
    requires c in g && g == f[PageTable(s[0]) := ZeroTable()][c := g[c]]
    ensures Taken(F0, S0, g, s[1..], level, k + 1)
  {
    TakenNext(F0, S0, f, s, level, k);
    assert S0[..k + 1] == S0[..k] + [s[0]];
    assert g.Keys == f.Keys + {PageTable(s[0])};
  }

  /** The fresh tables stay chained along the path after one more link. */
  lemma LinkedChain(F0: Frames, S0: seq<bv64>, f: Frames, g: Frames, root: PageTable, va: bv64, level: nat, k: nat, nt: bv64)
    requires k < level <= 2 && k < |S0| && S0[k] == nt
    requires Chained(S0, f, root, va, level, k) && PathKept(F0, f, root, va, level)
    requires forall l | level - k <= l <= 2 :: TableAt(g, root, va, l) == TableAt(f, root, va, l)
    requires forall l | level - k < l <= 2 :: PathEntry(g, root, va, l) == PathEntry(f, root, va, l)
    requires PathEntry(g, root, va, level - k) == PteNew(nt, ATTR_V)
    requires TableAt(g, root, va, level - k - 1) == Some(PageTable(nt))
    ensures PathKept(F0, g, root, va, level) && Chained(S0, g, root, va, level, k + 1)
  {
    forall j | 0 <= j < k + 1
      ensures TableAt(g, root, va, level - 1 - j) == Some(PageTable(S0[j]))
      ensures PathEntry(g, root, va, level - j) == PteNew(S0[j], ATTR_V)
    {
      if j == k {
        assert level - 1 - j == level - k - 1;
      } else {
        assert level - 1 - j >= level - k;
      }
    }
  }

  /** The fresh table just linked is where the walk now reaches, and its slot is free. */
  lemma LinkedFrontier(g: Frames, root: PageTable, va: bv64, l: nat, nt: bv64)
    requires l <= 2 && TableAt(g, root, va, l) == Some(PageTable(nt))
    requires g[PageTable(nt)] == ZeroTable()
    ensures Frontier(g, root, va, l, PageTable(nt))
  {
    assert EntryAt(g, PageTable(nt), Vpn(va, l)) == Pte(0);
  }

  /** The slot facts of LinkedStep: which entries differ from the original tables. */
  lemma LinkedStepSlots(F0: Frames, S0: seq<bv64>, f: Frames, g: Frames,
                        va: bv64, table: PageTable, level: nat, k: nat, current: PageTable, nt: bv64)
    requires k < level <= 2 && k < |S0| && S0[k] == nt && FreshSupply(F0, S0)
    requires PageTable(nt) !in f && current in f && |f[current]| == PT_ENTRIES
    requires current == Current(S0, table, k)
    requires OnlySlotChanged(F0, f, va, table, level) && FreshZero(S0, f, va, level, k)
    requires g == f[PageTable(nt) := ZeroTable()][current := f[current][Vpn(va, level - k) := PteNew(nt, ATTR_V)]]
    ensures OnlySlotChanged(F0, g, va, table, level) && FreshZero(S0, g, va, level, k + 1)
  {
    assert PageTable(nt) !in F0;
    forall t, i | t in F0 && t in g && 0 <= i < |F0[t]| && i < |g[t]| && g[t][i] != F0[t][i]
      ensures t == table && i == Vpn(va, level)
    {
      if t != current {
        assert g[t] == f[t];
      } else {
        assert k == 0;
      }
    }
    forall j, i | 0 <= j < k + 1 && 0 <= i < PT_ENTRIES && i != Vpn(va, level - 1 - j)
      ensures EntryAt(g, PageTable(S0[j]), i) == Pte(0)
    {
      if j == k {
        assert g[PageTable(nt)] == ZeroTable();
        assert ZeroTable()[i] == Pte(0);
      } else {
        assert k > 0 && j == k - 1;
        assert level - 1 - j == level - k;
        assert g[current][i] == f[current][i];
        assert EntryAt(f, current, i) == Pte(0);
      }
    }
  }

  lemma ValidKeptTrans(f: Frames, g: Frames, h: Frames)
    requires ValidKept(f, g) && ValidKept(g, h)
    ensures ValidKept(f, h)
  {
  }

  /**
   * The state of the second loop of virt_map_one after `k` of its steps:
   * memory is well formed, the fresh tables are linked (Linked), the loop is
   * at the free slot of `current` at level `level - k`, and the level
   * discipline holds whenever it held at the start.
   */
  ghost predicate LinkInv(F0: Frames, S0: seq<bv64>, f: Frames, s: seq<bv64>, lv: map<PageTable, nat>,
                          root: PageTable, va: bv64, table: PageTable, level: nat, k: nat,
                          current: PageTable, layered: bool)
  {
    && k <= level && k <= |S0|
    && MemoryValid(f, s)
    && Linked(F0, S0, f, s, root, va, table, level, k)
    && Frontier(f, root, va, level - k, current)
    && current == Current(S0, table, k)
    && (layered ==> Layered(f, lv) && RootAt(f, lv, root))
  }

  /** Taking the next supply frame as a zeroed table keeps memory well formed. */
  lemma MemoryValidAlloc(f: Frames, s: seq<bv64>)
    requires MemoryValid(f, s) && s != []
    ensures MemoryValid(f[PageTable(s[0]) := ZeroTable()], s[1..])
  {
    var g := f[PageTable(s[0]) := ZeroTable()];
    forall j | 0 <= j < |s[1..]|
      ensures PageTable(s[1..][j]) !in g
    {
      assert s[1..][j] == s[j + 1] && s[j + 1] != s[0];
    }
  }

  /** One iteration of the second loop, from LinkInv to LinkInv one level down. */
  lemma LinkInvStep(F0: Frames, S0: seq<bv64>, f: Frames, s: seq<bv64>, lv: map<PageTable, nat>,
                    root: PageTable, va: bv64, table: PageTable, level: nat, k: nat,
                    current: PageTable, layered: bool)
    requires LinkInv(F0, S0, f, s, lv, root, va, table, level, k, current, layered)
    requires k < level && s != []
    ensures LinkInv(F0, S0, LinkAt(f, current, Vpn(va, level - k), s[0]), s[1..], lv[PageTable(s[0]) := level - k - 1],
                    root, va, table, level, k + 1, PageTable(s[0]), layered)
  {
    TakenNext(F0, S0, f, s, level, k);
    assert f[PageTable(s[0]) := ZeroTable()][current] == f[current];
    MemoryLink(f, s, current, Vpn(va, level - k));
    LinkedStep(F0, S0, f, s, root, va, table, level, k);
    if layered {
      LayeredStep(f, lv, root, va, level - k, current, s[0]);
    }
  }

  /** Allocating the next supply frame and linking it from a slot keeps memory well formed. */
  lemma MemoryLink(f: Frames, s: seq<bv64>, t: PageTable, i: nat)
    requires MemoryValid(f, s) && s != [] && t in f && i < PT_ENTRIES
    ensures var g := f[PageTable(s[0]) := ZeroTable()][t := f[t][i := PteNew(s[0], ATTR_V)]];
      MemoryValid(g, s[1..])
  {
    var f1 := f[PageTable(s[0]) := ZeroTable()];
    MemoryValidAlloc(f, s);
    assert f1[t] == f[t];
    MemoryValidWrite(f1, s[1..], t, i, PteNew(s[0], ATTR_V));
  }

  /** Linking a fresh table below the walk's table at level `lvl` keeps the level discipline and the root. */
  lemma LayeredStep(f: Frames, lv: map<PageTable, nat>, root: PageTable, va: bv64, lvl: nat, t: PageTable, nt: bv64)
    requires Layered(f, lv) && RootAt(f, lv, root) && 1 <= lvl <= 2 && TableAt(f, root, va, lvl) == Some(t)
    requires |f[t]| == PT_ENTRIES
    requires PageTable(nt) !in f && nt < 0x100_0000_0000_0000 && IsPageAligned(nt)
    ensures var g := f[PageTable(nt) := ZeroTable()][t := f[t][Vpn(va, lvl) := PteNew(nt, ATTR_V)]];
      var lv' := lv[PageTable(nt) := lvl - 1];
      Layered(g, lv') && RootAt(g, lv', root)
  {
    TableAtLevel(f, lv, root, va, lvl);
    LayeredLink(f, lv, t, Vpn(va, lvl), nt);
  }

  /**
   * The tables after one iteration of the second loop of virt_map_one:
   * PageTable::alloc zeroes the frame `nt`, then slot `i` of `t` gets the
   * V-only entry pointing at it.
   */
  ghost function LinkAt(f: Frames, t: PageTable, i: nat, nt: bv64): Frames {
    var g := f[PageTable(nt) := ZeroTable()];
    if t in g && i < |g[t]| then g[t := g[t][i := PteNew(nt, ATTR_V)]] else g
  }

  /**
   * The tables after `k` iterations of the second loop of virt_map_one, which
   * started at the free slot of `table` at `level` with tables `F0` and
   * allocator supply `S0`: iteration `j` takes frame `S0[j]` and links it
   * from the table the previous one linked (from `table` first).
   */
  ghost function LinkFrames(F0: Frames, S0: seq<bv64>, va: bv64, table: PageTable, level: nat, k: nat): Frames
    requires k <= level <= 2 && k <= |S0|
    decreases k
  {
    if k == 0 then F0
    else LinkAt(LinkFrames(F0, S0, va, table, level, k - 1), Current(S0, table, k - 1), Vpn(va, level - k + 1), S0[k - 1])
  }

  /** The levels after `k` iterations: the table from `S0[j]` is at level `level - 1 - j`. */
  ghost function LinkLevels(L0: map<PageTable, nat>, S0: seq<bv64>, level: nat, k: nat): map<PageTable, nat>
    requires k <= level && k <= |S0|
    decreases k
  {
    if k == 0 then L0 else LinkLevels(L0, S0, level, k - 1)[PageTable(S0[k - 1]) := level - k]
  }

  /**
   * What the second loop establishes after `k` iterations: LinkInv holds of
   * LinkFrames and LinkLevels, so the tables taken so far are chained down
   * the path of `va`, nothing valid was overwritten, memory stays well
   * formed and the level discipline is kept.
   */
  lemma {:induction false} LinkFramesInv(F0: Frames, S0: seq<bv64>, L0: map<PageTable, nat>, root: PageTable,
                                         va: bv64, table: PageTable, level: nat, k: nat, layered: bool)
    requires MemoryValid(F0, S0) && Frontier(F0, root, va, level, table) && k <= level && k <= |S0|
    requires layered ==> Layered(F0, L0) && RootAt(F0, L0, root)
    ensures LinkInv(F0, S0, LinkFrames(F0, S0, va, table, level, k), S0[k..], LinkLevels(L0, S0, level, k),
                    root, va, table, level, k, Current(S0, table, k), layered)
    decreases k
  {
    if k == 0 {
      LinkedStart(F0, S0, root, va, table, level);
      assert S0[0..] == S0;
    } else {
      var f := LinkFrames(F0, S0, va, table, level, k - 1);
      var s := S0[k - 1..];
      var c := Current(S0, table, k - 1);
      var lv := LinkLevels(L0, S0, level, k - 1);
      assert s[0] == S0[k - 1] && s[1..] == S0[k..];
      LinkFramesInv(F0, S0, L0, root, va, table, level, k - 1, layered);
      LinkInvStepTo(F0, S0, f, s, lv, root, va, table, level, k, c, layered, Vpn(va, level - k + 1), S0[k - 1],
                    LinkFrames(F0, S0, va, table, level, k), S0[k..], LinkLevels(L0, S0, level, k), Current(S0, table, k));
    }
  }

  /**
   * LinkInvStep into step `k`, with the slot `i`, the frame `nt` and the
   * state after the step given by name.
   */
  lemma LinkInvStepTo(F0: Frames, S0: seq<bv64>, f: Frames, s: seq<bv64>, lv: map<PageTable, nat>,
                      root: PageTable, va: bv64, table: PageTable, level: nat, k: nat,
                      current: PageTable, layered: bool, i: nat, nt: bv64,
                      f': Frames, s': seq<bv64>, lv': map<PageTable, nat>, current': PageTable)
    requires 0 < k <= level && LinkInv(F0, S0, f, s, lv, root, va, table, level, k - 1, current, layered)
    requires s != [] && nt == s[0] && i == Vpn(va, level - k + 1)
    requires f' == LinkAt(f, current, i, nt) && s' == s[1..]
    requires lv' == lv[PageTable(nt) := level - k] && current' == PageTable(nt)
    ensures LinkInv(F0, S0, f', s', lv', root, va, table, level, k, current', layered)
  {
    assert level - (k - 1) == level - k + 1;
    LinkInvStep(F0, S0, f, s, lv, root, va, table, level, k - 1, current, layered);
  }

  /**
   * One iteration of the second loop of virt_map_one: allocate a zeroed
   * table (None when PageTable::alloc fails, with nothing changed) and point
   * slot `index` of `current` at it with a V-only entry (LinkAt).  `lvl` is
   * the level the new table is for.
   */
  method LinkOne(mem: PhysMemory, current: PageTable, index: nat, ghost lvl: nat)
    returns (next: Option<PageTable>)
    requires mem.Valid() && current in mem.frames && index < PT_ENTRIES
    modifies mem
    ensures mem.Valid()
    ensures next.None? <==> old(mem.supply) == []
    ensures next.None? ==> mem.frames == old(mem.frames) && mem.supply == old(mem.supply) && mem.level == old(mem.level)
    ensures next.Some? ==>
      && next.value == PageTable(old(mem.supply)[0])
      && mem.supply == old(mem.supply)[1..]
      && mem.frames == LinkAt(old(mem.frames), current, index, old(mem.supply)[0])
      && mem.level == old(mem.level)[next.value := lvl]
    ensures mem.flushed == old(mem.flushed)
  {
    ghost var f := mem.frames;
    next := mem.AllocTable(lvl);
    if next.None? {
      return;
    }
    var nt := next.value;
    assert mem.frames[current] == f[current];
    MemoryValidWrite(mem.frames, mem.supply, current, index, PteNew(nt.base, ATTR_V));
    mem.frames := mem.frames[current := mem.frames[current][index := PteNew(nt.base, ATTR_V)]];
  }

  /**
   * The second loop of virt_map_one: below the invalid entry of `table` at
   * `level` where the walk stopped, allocate a zeroed table for each level
   * down to 0 and point the entry above at it with a V-only entry.  Returns
   * the level-0 table, or None when the allocator runs out (the `?` on
   * PageTable::alloc), leaving the tables linked so far in place: the
   * tables are those of LinkFrames after as many iterations as there were
   * frames, at most `level`.
   */
  method LinkTables(mem: PhysMemory, root: PageTable, va: bv64, parts: seq<bv64>, table: PageTable, level: nat)
    returns (leaf: Option<PageTable>)
    requires mem.Valid() && parts == Parts(va)
    requires Frontier(mem.frames, root, va, level, table)
    modifies mem
    ensures mem.Valid()
    ensures leaf.None? <==> |old(mem.supply)| < level
    ensures var k := Min(level, |old(mem.supply)|);
      && mem.frames == LinkFrames(old(mem.frames), old(mem.supply), va, table, level, k)
      && mem.supply == old(mem.supply)[k..]
      && mem.level == LinkLevels(old(mem.level), old(mem.supply), level, k)
    ensures leaf.Some? ==> level <= |old(mem.supply)| && leaf.value == Current(old(mem.supply), table, level)
    ensures mem.flushed == old(mem.flushed)
  {
    ghost var F0, S0, L0 := mem.frames, mem.supply, mem.level;
    var current := table;
    var lvl: nat := level;
    ghost var k: nat := 0;
    while lvl > 0
      invariant k + lvl == level && k <= |S0|
      invariant mem.Valid()
      invariant mem.frames == LinkFrames(F0, S0, va, table, level, k)
      invariant mem.supply == S0[k..] && mem.level == LinkLevels(L0, S0, level, k)
      invariant current == Current(S0, table, k)
      invariant mem.flushed == old(mem.flushed)
      decreases lvl
    {
      var index := Slot(parts[lvl]);
      assert index == Vpn(va, lvl);
      assert current in mem.frames by {
        LinkFramesInv(F0, S0, L0, root, va, table, level, k, false);
      }
      var next := LinkOne(mem, current, index, lvl - 1);
      if next.None? {
        return None;
      }
      assert S0[k..][0] == S0[k] && S0[k..][1..] == S0[k + 1..];
      current := next.value;
      lvl := lvl - 1;
      k := k + 1;
    }
    leaf := Some(current);
  }

  /**
   * The last step of virt_map_one, on the tables `f` left by the second loop:
   * writing `pte` into the free level-0 slot maps `va`, keeps memory well
   * formed and every valid entry of `F0`, adds no table, and keeps the level
   * discipline when `pte` is not a pointer.
   */
  lemma LeafWrite(F0: Frames, f: Frames, s: seq<bv64>, lv: map<PageTable, nat>,
                  root: PageTable, va: bv64, t: PageTable, pte: Pte)
    requires MemoryValid(f, s) && ValidKept(F0, f) && Frontier(f, root, va, 0, t)
    ensures var g := f[t := f[t][Vpn(va, 0) := pte]];
      && MemoryValid(g, s) && ValidKept(F0, g) && g.Keys == f.Keys
      && Mapped(g, root, va, pte)
      && (!IsPointer(pte) && Layered(f, lv) && RootAt(f, lv, root) ==> Layered(g, lv) && RootAt(g, lv, root))
  {
    LeafStep(f, root, va, t, pte);
    ValidKeptTrans(F0, f, f[t := f[t][Vpn(va, 0) := pte]]);
    MemoryValidWrite(f, s, t, Vpn(va, 0), pte);
    if !IsPointer(pte) && Layered(f, lv) {
      LayeredLeaf(f, lv, t, Vpn(va, 0), pte);
    }
  }

  /** The page virt_map_one maps for `va`: its low 39 bits, page aligned */
  function PageOf(va: bv64): (page: bv64)
    ensures IsPageAligned(page) && page <= VA_MASK
  {
    PageAlignedBounds(Canonicalize(va));
    CanonicalizeBounds(va);
    PageAligned(Canonicalize(va))
  }

  /**
   * What virt_map_one does to the tables `F0`, allocator `S0` and levels
   * `L0`, giving `f`, `s`, `lv` and result `r`, when mapping `page` to the
   * entry `pte`.  The walk stops at the first entry of `page`'s path that is
   * not a pointer: a valid one there is AlreadyMapped and nothing changes;
   * otherwise NoneError exactly when the allocator has fewer frames than
   * tables are missing.  Either way the frames consumed are the first
   * `Consumed` of the supply and become the new tables, no valid entry is
   * overwritten, Ok leaves `page` mapped to `pte`, and when `keepLayers`
   * the level discipline is kept.  The new tables are given exactly by
   * MapOneFrames.
   */
  ghost predicate MapOneSpec(F0: Frames, S0: seq<bv64>, L0: map<PageTable, nat>,
                             f: Frames, s: seq<bv64>, lv: map<PageTable, nat>,
                             root: PageTable, page: bv64, pte: Pte, keepLayers: bool, r: Result<(), MapError>)
  {
    var stop := StopLevel(F0, root, page);
    var e := PathEntry(F0, root, page, stop);
    var k := Consumed(F0, S0, root, page);
    && MemoryValid(f, s)
    && (r == Err(AlreadyMapped) <==> IsValid(e))
    && (r == Err(NoneError) <==> !IsValid(e) && |S0| < stop)
    && (r == Err(AlreadyMapped) ==> f == F0 && s == S0 && lv == L0)
    && ValidKept(F0, f)
    && s == S0[k..]
    && f.Keys == F0.Keys + TablesOf(S0[..k])
    && (r.Ok? ==> Mapped(f, root, page, pte))
    && (keepLayers && Layered(F0, L0) && RootAt(F0, L0, root) ==> Layered(f, lv) && RootAt(f, lv, root))
    && f == MapOneFrames(F0, S0, root, page, pte)
    && (r == Err(NoneError) ==> s == [] && Starved(f, root, page))
  }

  /** The walk for `page` stops above level 0 at a free slot: a table is still missing. */
  ghost predicate Starved(frames: Frames, root: PageTable, page: bv64) {
    var stop := StopLevel(frames, root, page);
    0 < stop && !IsValid(PathEntry(frames, root, page, stop))
  }

  /** virt_map_one fails on `page`: the walk stops at a valid entry, or there are fewer frames than missing tables. */
  ghost predicate MapOneFails(frames: Frames, supply: seq<bv64>, root: PageTable, page: bv64) {
    var stop := StopLevel(frames, root, page);
    IsValid(PathEntry(frames, root, page, stop)) || |supply| < stop
  }

  /** A walk that reaches level `m` passed a pointer at every level above it. */
  lemma {:induction false} TableAtPointers(frames: Frames, root: PageTable, va: bv64, m: nat)
    requires m <= 2 && TableAt(frames, root, va, m).Some?
    ensures forall l | m < l <= 2 :: IsPointer(PathEntry(frames, root, va, l))
    decreases 2 - m
  {
    if m < 2 {
      TableAtPointers(frames, root, va, m + 1);
    }
  }

  /**
   * The tables virt_map_one leaves, from tables `F0` and allocator supply
   * `S0`, when mapping `page` to `pte`: unchanged when the walk stops at a
   * valid entry; otherwise a fresh table linked by a V-only entry for each
   * missing level, as many as the supply has frames for (LinkFrames), and,
   * once all are there, `pte` written into the level-0 slot of `page`.
   * A walk that does not reach a table (which PathPresent rules out)
   * changes nothing.
   */
  ghost function MapOneFrames(F0: Frames, S0: seq<bv64>, root: PageTable, page: bv64, pte: Pte): Frames {
    var stop := StopLevel(F0, root, page);
    var table := TableAt(F0, root, page, stop);
    if IsValid(PathEntry(F0, root, page, stop)) || table.None? then F0
    else if |S0| < stop then LinkFrames(F0, S0, page, table.value, stop, |S0|)
    else
      var f := LinkFrames(F0, S0, page, table.value, stop, stop);
      var t := Current(S0, table.value, stop);
      if t in f && Vpn(page, 0) < |f[t]| then f[t := f[t][Vpn(page, 0) := pte]] else f
  }

  /** MapOneFrames at a walk that stopped at the free slot of `table` at `level`, with enough frames */
  lemma MapOneFramesDone(F0: Frames, S0: seq<bv64>, root: PageTable, page: bv64, pte: Pte, table: PageTable, level: nat)
    requires Frontier(F0, root, page, level, table) && level == StopLevel(F0, root, page) && level <= |S0|
    requires var f := LinkFrames(F0, S0, page, table, level, level);
      Current(S0, table, level) in f && Vpn(page, 0) < |f[Current(S0, table, level)]|
    ensures var f := LinkFrames(F0, S0, page, table, level, level);
      var t := Current(S0, table, level);
      MapOneFrames(F0, S0, root, page, pte) == f[t := f[t][Vpn(page, 0) := pte]]
  {
  }

  /** MapOneFrames at a walk that stopped at the free slot of `table` at `level`, short of frames */
  lemma MapOneFramesShort(F0: Frames, S0: seq<bv64>, root: PageTable, page: bv64, pte: Pte, table: PageTable, level: nat)
    requires Frontier(F0, root, page, level, table) && level == StopLevel(F0, root, page) && |S0| < level
    ensures MapOneFrames(F0, S0, root, page, pte) == LinkFrames(F0, S0, page, table, level, |S0|)
  {
  }

  /**
   * What virt_map_one changes once its walk stops at the free slot of
   * `table` at `level`: of the tables that were there, only that slot; and
   * each table it takes from the allocator is zero except in its own slot on
   * the path of `page`, whatever the outcome.
   */
  lemma {:induction false} MapOneOnlyPath(F0: Frames, S0: seq<bv64>, root: PageTable, page: bv64, pte: Pte,
                                          table: PageTable, level: nat)
    requires MemoryValid(F0, S0) && Frontier(F0, root, page, level, table) && level == StopLevel(F0, root, page)
    ensures OnlySlotChanged(F0, MapOneFrames(F0, S0, root, page, pte), page, table, level)
    ensures FreshZero(S0, MapOneFrames(F0, S0, root, page, pte), page, level, Min(level, |S0|))
  {
    var k := Min(level, |S0|);
    LinkFramesInv(F0, S0, map[], root, page, table, level, k, false);
    var f := LinkFrames(F0, S0, page, table, level, k);
    if |S0| < level {
      MapOneFramesShort(F0, S0, root, page, pte, table, level);
    } else {
      var t := Current(S0, table, level);
      MapOneFramesDone(F0, S0, root, page, pte, table, level);
      LeafSlots(F0, S0, f, page, pte, table, level);
    }
  }

  /** The leaf write into the last table linked keeps OnlySlotChanged and FreshZero. */
  lemma LeafSlots(F0: Frames, S0: seq<bv64>, f: Frames, page: bv64, pte: Pte, table: PageTable, level: nat)
    requires level <= 2 && level <= |S0| && FreshSupply(F0, S0)
    requires Current(S0, table, level) in f && |f[Current(S0, table, level)]| == PT_ENTRIES
    requires level == 0 ==> Current(S0, table, level) == table
    requires OnlySlotChanged(F0, f, page, table, level) && FreshZero(S0, f, page, level, level)
    ensures var t := Current(S0, table, level);
      var g := f[t := f[t][Vpn(page, 0) := pte]];
      OnlySlotChanged(F0, g, page, table, level) && FreshZero(S0, g, page, level, level)
  {
    var t := Current(S0, table, level);
    var g := f[t := f[t][Vpn(page, 0) := pte]];
    forall u, i | u in F0 && u in g && 0 <= i < |F0[u]| && i < |g[u]| && g[u][i] != F0[u][i]
      ensures u == table && i == Vpn(page, level)
    {
    }
    forall j, i | 0 <= j < level && 0 <= i < PT_ENTRIES && i != Vpn(page, level - 1 - j)
      ensures EntryAt(g, PageTable(S0[j]), i) == Pte(0)
    {
      if PageTable(S0[j]) == t {
        assert t == PageTable(S0[level - 1]);
        assert j == level - 1;
      }
      assert EntryAt(f, PageTable(S0[j]), i) == Pte(0);
    }
  }

  /** The AlreadyMapped exit: the walk stopped at a valid entry. */
  lemma MapOneOccupied(F0: Frames, S0: seq<bv64>, L0: map<PageTable, nat>,
                       root: PageTable, page: bv64, pte: Pte, keepLayers: bool)
    requires MemoryValid(F0, S0)
    requires IsValid(PathEntry(F0, root, page, StopLevel(F0, root, page)))
    ensures MapOneSpec(F0, S0, L0, F0, S0, L0, root, page, pte, keepLayers, Err(AlreadyMapped))
  {
    assert S0[..0] == [];
  }

  /** The NoneError exit: the allocator ran out after linking one table per frame it had. */
  lemma MapOneExhausted(F0: Frames, S0: seq<bv64>, L0: map<PageTable, nat>, f: Frames, s: seq<bv64>, lv: map<PageTable, nat>,
                        root: PageTable, page: bv64, pte: Pte, keepLayers: bool, table: PageTable, level: nat)
    requires MemoryValid(F0, S0) && Frontier(F0, root, page, level, table)
    requires level == StopLevel(F0, root, page) && |S0| < level
    requires f == LinkFrames(F0, S0, page, table, level, |S0|) && s == S0[|S0|..] && lv == LinkLevels(L0, S0, level, |S0|)
    ensures MapOneSpec(F0, S0, L0, f, s, lv, root, page, pte, keepLayers, Err(NoneError))
  {
    var layered := Layered(F0, L0) && RootAt(F0, L0, root);
    LinkFramesInv(F0, S0, L0, root, page, table, level, |S0|, layered);
    MapOneFramesShort(F0, S0, root, page, pte, table, level);
    LinkInvStarved(F0, S0, LinkFrames(F0, S0, page, table, level, |S0|), S0[|S0|..], LinkLevels(L0, S0, level, |S0|),
                   root, page, table, level, |S0|, Current(S0, table, |S0|), layered);
    assert S0[|S0|..] == [];
  }

  /** A second loop cut short above level 0 leaves the walk at a free slot, starved of a table. */
  lemma LinkInvStarved(F0: Frames, S0: seq<bv64>, f: Frames, s: seq<bv64>, lv: map<PageTable, nat>,
                       root: PageTable, va: bv64, table: PageTable, level: nat, k: nat,
                       current: PageTable, layered: bool)
    requires LinkInv(F0, S0, f, s, lv, root, va, table, level, k, current, layered) && k < level
    ensures Starved(f, root, va)
  {
    assert Frontier(f, root, va, level - k, current);
    TableAtPointers(f, root, va, level - k);
    WalkStops(f, root, va, level - k);
  }

  /** The Ok exit: every missing table was linked and the leaf is written into the level-0 slot. */
  lemma MapOneDone(F0: Frames, S0: seq<bv64>, L0: map<PageTable, nat>, g: Frames, s: seq<bv64>, lv: map<PageTable, nat>,
                   root: PageTable, page: bv64, pte: Pte, keepLayers: bool, table: PageTable, level: nat)
    requires MemoryValid(F0, S0) && Frontier(F0, root, page, level, table)
    requires level == StopLevel(F0, root, page) && level <= |S0|
    requires keepLayers ==> !IsPointer(pte)
    requires var f := LinkFrames(F0, S0, page, table, level, level);
      var t := Current(S0, table, level);
      t in f && Vpn(page, 0) < |f[t]| && g == f[t := f[t][Vpn(page, 0) := pte]]
    requires s == S0[level..] && lv == LinkLevels(L0, S0, level, level)
    ensures MapOneSpec(F0, S0, L0, g, s, lv, root, page, pte, keepLayers, Ok(()))
  {
    var f := LinkFrames(F0, S0, page, table, level, level);
    LinkFramesInv(F0, S0, L0, root, page, table, level, level, Layered(F0, L0) && RootAt(F0, L0, root));
    LeafWrite(F0, f, S0[level..], LinkLevels(L0, S0, level, level), root, page, Current(S0, table, level), pte);
    MapOneFramesDone(F0, S0, root, page, pte, table, level);
  }

  /**
   * virt_map_one: map the page `va` to the frame `pa` with `attrs | V`
   * (MapOneSpec), invalidating the cached translation of the page when the
   * leaf is written.
   */
  method VirtMapOne(mem: PhysMemory, root: PageTable, pa: bv64, va: bv64, attrs: bv8)
    returns (r: Result<(), MapError>)
    requires mem.Valid() && IsPageAligned(pa) && IsPageAligned(va)
    requires PathPresent(mem.frames, root, PageOf(va))
    requires !IsPointer(PathEntry(mem.frames, root, PageOf(va), 0))
    modifies mem
    ensures mem.Valid()
    ensures MapOneSpec(old(mem.frames), old(mem.supply), old(mem.level), mem.frames, mem.supply, mem.level,
                       root, PageOf(va), PteNew(pa, attrs | ATTR_V), attrs & (ATTR_R | ATTR_X) != 0, r)
    ensures r.Ok? ==> mem.flushed == old(mem.flushed) + [VirtAddr(PageOf(va))]
    ensures r.Err? ==> mem.flushed == old(mem.flushed)
  {
    ghost var F0, S0, L0 := mem.frames, mem.supply, mem.level;
    var a := attrs | ATTR_V;
    var page := PageAligned(Canonicalize(va));
    var parts := Parts(page);
    assert page == PageOf(va);
    var table, level, occupied := Walk(mem, root, page, parts);
    if occupied {
      MapOneOccupied(F0, S0, L0, root, page, PteNew(pa, a), attrs & (ATTR_R | ATTR_X) != 0);
      return Err(AlreadyMapped);
    }
    assert Frontier(mem.frames, root, page, level, table);
    LeafEntry(pa, attrs);
    r := LinkAndWrite(mem, root, page, parts, table, level, PteNew(pa, a), attrs & (ATTR_R | ATTR_X) != 0);
  }

  /**
   * The rest of virt_map_one once the walk stopped at the free slot of
   * `table` at `level`: the second loop (LinkTables), then `pte` written into
   * the level-0 slot and the page's cached translation invalidated.
   */
  method LinkAndWrite(mem: PhysMemory, root: PageTable, page: bv64, parts: seq<bv64>, table: PageTable, level: nat,
                      pte: Pte, ghost keepLayers: bool)
    returns (r: Result<(), MapError>)
    requires mem.Valid() && parts == Parts(page)
    requires Frontier(mem.frames, root, page, level, table) && level == StopLevel(mem.frames, root, page)
    requires keepLayers ==> !IsPointer(pte)
    modifies mem
    ensures mem.Valid()
    ensures MapOneSpec(old(mem.frames), old(mem.supply), old(mem.level), mem.frames, mem.supply, mem.level,
                       root, page, pte, keepLayers, r)
    ensures r.Ok? ==> mem.flushed == old(mem.flushed) + [VirtAddr(page)]
    ensures r.Err? ==> mem.flushed == old(mem.flushed)
  {
    ghost var F0, S0, L0 := mem.frames, mem.supply, mem.level;
    var leaf := LinkTables(mem, root, page, parts, table, level);
    if leaf.None? {
      MapOneExhausted(F0, S0, L0, mem.frames, mem.supply, mem.level, root, page, pte, keepLayers, table, level);
      return Err(NoneError);
    }
    var t := leaf.value;
    var index := Slot(parts[0]);
    assert index == Vpn(page, 0);
    assert t in mem.frames && |mem.frames[t]| == PT_ENTRIES;
    MemoryValidWrite(mem.frames, mem.supply, t, index, pte);
    mem.frames := mem.frames[t := mem.frames[t][index := pte]];
    // invalidate_cache
    mem.flushed := mem.flushed + [VirtAddr(page)];
    r := Ok(());
    MapOneDone(F0, S0, L0, mem.frames, mem.supply, mem.level, root, page, pte, keepLayers, table, level);
  }

  // ---------------------------------------------------------------------
  // Mapping a range

  /** usize::checked_add: None on overflow */
  function CheckedAdd(a: bv64, b: bv64): Option<bv64> {
    if a + b < a then None else Some(a + b)
  }

  /** The overflow test of CheckedAdd: the sum wraps exactly when it comes out below `a`. */
  lemma CheckedAddSome(a: bv64, b: bv64)
    requires CheckedAdd(a, b).Some?
    ensures CheckedAdd(a, b).value == a + b && a <= CheckedAdd(a, b).value
  {
  }

  /** virt_map's rounding of `len` up to whole pages; None when `len + PAGE_SIZE - 1` overflows */
  function RoundUp(len: bv64): (n: Option<bv64>)
    ensures n.Some? ==> IsPageAligned(n.value) && n.value <= 0xffff_ffff_ffff_f000
  {
    match CheckedAdd(len, PAGE_SIZE - 1)
    case None => None
    case Some(x) => Some(x & !PAGE_MASK)
  }

  /** Every length below the last page of the address space rounds up without overflow, never down. */
  lemma RoundUpCovers(len: bv64)
    requires len <= 0xffff_ffff_ffff_f000
    ensures RoundUp(len).Some? && len <= RoundUp(len).value
  {
    assert PAGE_SIZE - 1 == 0xfff && !PAGE_MASK == 0xffff_ffff_ffff_f000;
    NoCarry(len);
    RoundsAbove(len);
  }

  lemma NoCarry(len: bv64)
    requires len <= 0xffff_ffff_ffff_f000
    ensures !(len + 0xfff < len)
  {
  }

  lemma RoundsAbove(len: bv64)
    requires len <= 0xffff_ffff_ffff_f000
    ensures len <= (len + 0xfff) & 0xffff_ffff_ffff_f000
  {
  }

  /** The offset of page `i` of a range: `i * PAGE_SIZE` */
  function Offset(i: nat): (o: bv64)
    ensures IsPageAligned(o)
  {
    if i == 0 then 0
    else
      AlignedAdd(Offset(i - 1), PAGE_SIZE);
      Offset(i - 1) + PAGE_SIZE
  }

  /** Sums of page-aligned words stay page aligned, wrapping or not. */
  lemma AlignedAdd(a: bv64, b: bv64)
    requires IsPageAligned(a) && IsPageAligned(b)
    ensures IsPageAligned(a + b)
  {
  }

  /** The page at offset `o` of the range is mapped to the frame at the same offset, with attributes `a`. */
  ghost predicate PageMapped(frames: Frames, root: PageTable, pa: bv64, va: bv64, a: bv8, o: bv64) {
    Mapped(frames, root, PageOf(va + o), PteNew(pa + o, a))
  }

  /** Page `i` of the range is mapped with attributes `attrs | V`: PageMapped at offset Offset(i). */
  ghost predicate PageMappedAt(frames: Frames, root: PageTable, pa: bv64, va: bv64, attrs: bv8, i: nat) {
    PageMapped(frames, root, pa, va, attrs | ATTR_V, Offset(i))
  }

  /**
   * What the tables and allocator show after the page at offset `o` of a
   * virt_map of `pa`/`va` failed with `e`: NoneError when an address sum
   * overflowed or the allocator ran dry with a table still missing on the
   * page's path; AlreadyMapped when the page's walk stops at a valid entry.
   */
  ghost predicate PageFailed(frames: Frames, supply: seq<bv64>, root: PageTable, pa: bv64, va: bv64, o: bv64,
                             e: MapError) {
    match e
    case NoneError =>
      CheckedAdd(pa, o).None? || CheckedAdd(va, o).None? || (supply == [] && Starved(frames, root, PageOf(va + o)))
    case AlreadyMapped =>
      var page := PageOf(va + o);
      IsValid(PathEntry(frames, root, page, StopLevel(frames, root, page)))
  }

  /** A virt_map of `len` bytes failed with `e`: its rounding overflowed, or its page `i` failed. */
  ghost predicate VirtMapFailed(frames: Frames, supply: seq<bv64>, root: PageTable, pa: bv64, va: bv64, len: bv64,
                                i: nat, e: MapError) {
    match RoundUp(len)
    case None => e == NoneError
    case Some(n) => i < PageCount(n) && PageFailed(frames, supply, root, pa, va, Offset(i), e)
  }

  /**
   * A virt_map from the tables `F` and supply `S` failed with `e` at its page
   * `i`: the failure shows in the tables `f` and supply `s` left
   * (VirtMapFailed), and unless the rounding itself overflowed these are the
   * tables and supply after the calls for pages 0 .. i, the failing one's
   * partial step included (RangeReached).
   */
  ghost predicate VirtMapStopped(f: Frames, s: seq<bv64>, F: Frames, S: seq<bv64>, root: PageTable, pa: bv64, va: bv64,
                                 len: bv64, attrs: bv8, i: nat, e: MapError) {
    VirtMapFailed(f, s, root, pa, va, len, i, e)
    && (RoundUp(len).Some? ==> RangeReached(f, s, F, S, root, pa, va, attrs, i + 1))
  }

  /** The number of pages in `rounded` bytes. */
  function PageCount(rounded: bv64): nat {
    (rounded >> 12) as nat
  }

  /** The part of physical memory virt_map changes: the tables and the allocator's supply */
  datatype MemState = MemState(frames: Frames, supply: seq<bv64>)

  /**
   * The tables and supply after virt_map's call for the page at offset `o`
   * of `pa`/`va`: unchanged when an address sum overflows (the `?` returns
   * before the call); otherwise what virt_map_one leaves, the tables
   * MapOneFrames and the supply less the frames it consumed.
   */
  ghost function PageStep(F: Frames, S: seq<bv64>, root: PageTable, pa: bv64, va: bv64, attrs: bv8, o: bv64): MemState {
    if CheckedAdd(pa, o).None? || CheckedAdd(va, o).None? then MemState(F, S)
    else
      var page := PageOf(va + o);
      MemState(MapOneFrames(F, S, root, page, PteNew(pa + o, attrs | ATTR_V)), S[Consumed(F, S, root, page)..])
  }

  /** The tables and supply after virt_map's calls for pages 0 .. n - 1, each on what the one before left */
  ghost function RangeState(F: Frames, S: seq<bv64>, root: PageTable, pa: bv64, va: bv64, attrs: bv8, n: nat): MemState {
    Steps(PageStepAt(root, pa, va, attrs), MemState(F, S), 0, n)
  }

  /** PageStep as a step function of the state and the page index */
  ghost function PageStepAt(root: PageTable, pa: bv64, va: bv64, attrs: bv8): (MemState, nat) -> MemState {
    (m: MemState, i: nat) => PageStep(m.frames, m.supply, root, pa, va, attrs, Offset(i))
  }

  /**
   * `n` steps from `m`, for the pages k .. k + n - 1 in turn.  The case
   * split is StepsCase's and the first step StepsThen's, each one unfolding
   * further down, so that a state named through Steps brings neither with it.
   */
  ghost function Steps(step: (MemState, nat) -> MemState, m: MemState, k: nat, n: nat): MemState
    decreases n, 2
  {
    StepsCase(step, m, k, n)
  }

  /** No step at all, or n - 1 more after the one for page k */
  ghost function StepsCase(step: (MemState, nat) -> MemState, m: MemState, k: nat, n: nat): MemState
    decreases n, 1
  {
    if n == 0 then m else StepsThen(step, m, k, n - 1)
  }

  /** The step for page k, and then those for k + 1 .. k + n */
  ghost function StepsThen(step: (MemState, nat) -> MemState, m: MemState, k: nat, n: nat): MemState
    decreases n + 1, 0
  {
    Steps(step, step(m, k), k + 1, n)
  }

  /** No step leaves the state as it is. */
  lemma StepsNone(step: (MemState, nat) -> MemState, m: MemState, k: nat)
    ensures Steps(step, m, k, 0) == m
  {
    assert Steps(step, m, k, 0) == StepsCase(step, m, k, 0);
  }

  /** n + 1 steps are the one for page k and then n more. */
  lemma StepsFirst(step: (MemState, nat) -> MemState, m: MemState, k: nat, n: nat)
    ensures Steps(step, m, k, n + 1) == Steps(step, step(m, k), k + 1, n)
  {
    assert Steps(step, m, k, n + 1) == StepsCase(step, m, k, n + 1) == StepsThen(step, m, k, n);
  }

  /** The last of n + 1 steps is applied to what the first n left. */
  lemma {:induction false} StepsLast(step: (MemState, nat) -> MemState, m: MemState, k: nat, n: nat)
    ensures Steps(step, m, k, n + 1) == step(Steps(step, m, k, n), k + n)
    decreases n
  {
    StepsFirst(step, m, k, n);
    if n == 0 {
      StepsNone(step, step(m, k), k + 1);
      StepsNone(step, m, k);
    } else {
      StepsLast(step, step(m, k), k + 1, n - 1);
      StepsFirst(step, m, k, n - 1);
    }
  }

  /** The supply only ever loses frames from its front: what is left after n pages is a suffix of it. */
  lemma {:induction false} RangeSupplySuffix(F: Frames, S: seq<bv64>, root: PageTable, pa: bv64, va: bv64, attrs: bv8,
                                             n: nat)
    ensures var m := RangeState(F, S, root, pa, va, attrs, n);
      |m.supply| <= |S| && m.supply == S[|S| - |m.supply|..]
    decreases n
  {
    if n > 0 {
      RangeSupplySuffix(F, S, root, pa, va, attrs, n - 1);
      var d := RangeSupplyStep(F, S, root, pa, va, attrs, n - 1);
      DropSuffix(S, RangeState(F, S, root, pa, va, attrs, n - 1).supply, d);
    }
  }

  /** Page `i` takes the first `d` frames of what pages 0 .. i - 1 left, for some `d`. */
  lemma RangeSupplyStep(F: Frames, S: seq<bv64>, root: PageTable, pa: bv64, va: bv64, attrs: bv8, i: nat)
    returns (d: nat)
    ensures var m := RangeState(F, S, root, pa, va, attrs, i);
      d <= |m.supply| && RangeState(F, S, root, pa, va, attrs, i + 1).supply == m.supply[d..]
  {
    var m := RangeState(F, S, root, pa, va, attrs, i);
    RangeStateNext(F, S, root, pa, va, attrs, i, m, PageStep(m.frames, m.supply, root, pa, va, attrs, Offset(i)));
    d := PageStepSupply(m.frames, m.supply, root, pa, va, attrs, Offset(i));
  }

  /** PageStep leaves the supply less its first `k` frames, for some `k`. */
  lemma PageStepSupply(F: Frames, S: seq<bv64>, root: PageTable, pa: bv64, va: bv64, attrs: bv8, o: bv64)
    returns (k: nat)
    ensures k <= |S| && PageStep(F, S, root, pa, va, attrs, o).supply == S[k..]
  {
    if CheckedAdd(pa, o).None? || CheckedAdd(va, o).None? {
      k := 0;
    } else {
      k := Consumed(F, S, root, PageOf(va + o));
    }
  }

  /** An address sum that overflows leaves the tables and supply as they were. */
  lemma PageStepOverflow(F: Frames, S: seq<bv64>, root: PageTable, pa: bv64, va: bv64, attrs: bv8, o: bv64)
    requires CheckedAdd(pa, o).None? || CheckedAdd(va, o).None?
    ensures PageStep(F, S, root, pa, va, attrs, o) == MemState(F, S)
  {
  }

  /** The virt_map_one call for the page at offset `o` leaves PageStep. */
  lemma PageStepCall(F0: Frames, S0: seq<bv64>, L0: map<PageTable, nat>, f: Frames, s: seq<bv64>, lv: map<PageTable, nat>,
                     root: PageTable, pa: bv64, va: bv64, attrs: bv8, o: bv64, keepLayers: bool, r: Result<(), MapError>)
    requires CheckedAdd(pa, o).Some? && CheckedAdd(va, o).Some?
    requires MapOneSpec(F0, S0, L0, f, s, lv, root, PageOf(va + o), PteNew(pa + o, attrs | ATTR_V), keepLayers, r)
    ensures MemState(f, s) == PageStep(F0, S0, root, pa, va, attrs, o)
  {
    var page := PageOf(va + o);
    assert f == MapOneFrames(F0, S0, root, page, PteNew(pa + o, attrs | ATTR_V));
    assert s == S0[Consumed(F0, S0, root, page)..];
  }

  /** The tables `f` and supply `s` are those after pages 0 .. n - 1 from `F` and `S` (RangeState). */
  ghost predicate RangeReached(f: Frames, s: seq<bv64>, F: Frames, S: seq<bv64>, root: PageTable, pa: bv64, va: bv64,
                               attrs: bv8, n: nat) {
    var m := RangeState(F, S, root, pa, va, attrs, n);
    f == m.frames && s == m.supply
  }

  /** One more page: PageStep of the state after `i` pages is the state after `i + 1`. */
  lemma RangeStateNext(F: Frames, S: seq<bv64>, root: PageTable, pa: bv64, va: bv64, attrs: bv8, i: nat,
                       m: MemState, g: MemState)
    requires m == RangeState(F, S, root, pa, va, attrs, i)
    requires g == PageStep(m.frames, m.supply, root, pa, va, attrs, Offset(i))
    ensures g == RangeState(F, S, root, pa, va, attrs, i + 1)
  {
    var step := PageStepAt(root, pa, va, attrs);
    assert step(m, i) == g;
    StepsNext(step, MemState(F, S), i, m, g);
  }

  /** The state after i steps, stepped once more, is the state after i + 1. */
  lemma StepsNext(step: (MemState, nat) -> MemState, init: MemState, i: nat, m: MemState, g: MemState)
    requires m == Steps(step, init, 0, i) && g == step(m, i)
    ensures g == Steps(step, init, 0, i + 1)
  {
    StepsLast(step, init, 0, i);
  }

  /** Dropping the front of a suffix leaves a suffix. */
  lemma DropSuffix<T>(s: seq<T>, m: seq<T>, k: nat)
    requires |m| <= |s| && m == s[|s| - |m|..] && k <= |m|
    ensures m[k..] == s[|s| - |m[k..]|..]
  {
  }

  /**
   * virt_map: map `len` bytes, rounded up to `n` bytes of whole pages, from
   * `va` to `pa` one page at a time with virt_map_one (the offsets
   * 0, PAGE_SIZE, ... below `n`, here Offset(i) for i < n / PAGE_SIZE),
   * stopping at the first error and leaving what was mapped so far in place.
   * `done` counts the pages mapped: each of them is mapped, and on Ok it is
   * all of them.  A length whose rounding overflows is NoneError with
   * nothing changed, as is an offset sum that overflows.  Any other Err
   * is the failure of page `done`.  The tables and supply left are exactly
   * those of the calls made: PageStep folded over pages 0 .. done - 1 on Ok
   * (RangeReached), and on Err over pages 0 .. done, the last step being the
   * failing page's partial one (VirtMapStopped).  The level discipline holds
   * throughout, and no valid entry is overwritten.
   */
  method VirtMap(mem: PhysMemory, root: PageTable, pa: bv64, va: bv64, len: bv64, attrs: bv8)
    returns (r: Result<(), MapError>, ghost done: nat)
    requires len > 0 && IsPageAligned(pa) && IsPageAligned(va)
    requires mem.Valid() && Layered(mem.frames, mem.level) && RootAt(mem.frames, mem.level, root)
    requires attrs & (ATTR_R | ATTR_X) != 0
    modifies mem
    ensures mem.Valid() && Layered(mem.frames, mem.level) && RootAt(mem.frames, mem.level, root)
    ensures ValidKept(old(mem.frames), mem.frames)
    ensures RoundUp(len).None? ==> r == Err(NoneError) && done == 0 && mem.frames == old(mem.frames) && mem.supply == old(mem.supply)
    ensures r.Ok? ==> RoundUp(len).Some? && done == PageCount(RoundUp(len).value)
    ensures forall i | 0 <= i < done :: PageMappedAt(mem.frames, root, pa, va, attrs, i)
    ensures |mem.flushed| == |old(mem.flushed)| + done && mem.flushed[..|old(mem.flushed)|] == old(mem.flushed)
    ensures r.Ok? ==> RangeReached(mem.frames, mem.supply, old(mem.frames), old(mem.supply), root, pa, va, attrs, done)
    ensures r.Err? ==> VirtMapStopped(mem.frames, mem.supply, old(mem.frames), old(mem.supply), root, pa, va, len, attrs, done,
                                      r.error)
  {
    done := 0;
    var rounded := RoundUp(len);
    if rounded.None? {
      return Err(NoneError), done;
    }
    r, done := MapPages(mem, root, pa, va, attrs, PageCount(rounded.value));
  }

  /** virt_map's loop over the pages at offsets 0, PAGE_SIZE, ..., (pages - 1) * PAGE_SIZE. */
  method MapPages(mem: PhysMemory, root: PageTable, pa: bv64, va: bv64, attrs: bv8, pages: nat)
    returns (r: Result<(), MapError>, ghost done: nat)
    requires IsPageAligned(pa) && IsPageAligned(va) && attrs & (ATTR_R | ATTR_X) != 0
    requires mem.Valid() && Layered(mem.frames, mem.level) && RootAt(mem.frames, mem.level, root)
    modifies mem
    ensures mem.Valid() && Layered(mem.frames, mem.level) && RootAt(mem.frames, mem.level, root)
    ensures ValidKept(old(mem.frames), mem.frames)
    ensures done <= pages && (r.Ok? ==> done == pages)
    ensures r.Err? ==> done < pages && PageFailed(mem.frames, mem.supply, root, pa, va, Offset(done), r.error)
    ensures forall i | 0 <= i < done :: PageMappedAt(mem.frames, root, pa, va, attrs, i)
    ensures |mem.flushed| == |old(mem.flushed)| + done && mem.flushed[..|old(mem.flushed)|] == old(mem.flushed)
    ensures RangeReached(mem.frames, mem.supply, old(mem.frames), old(mem.supply), root, pa, va, attrs, if r.Ok? then done else done + 1)
  {
    ghost var F0, S0, L0 := mem.frames, mem.supply, mem.flushed;
    StepsNone(PageStepAt(root, pa, va, attrs), MemState(F0, S0), 0);
    done := 0;
    var i: nat := 0;
    while i < pages
      invariant i <= pages && done == i
      invariant mem.Valid() && Layered(mem.frames, mem.level) && RootAt(mem.frames, mem.level, root)
      invariant ValidKept(F0, mem.frames)
      invariant RangeReached(mem.frames, mem.supply, F0, S0, root, pa, va, attrs, i)
      invariant forall j | 0 <= j < i :: PageMappedAt(mem.frames, root, pa, va, attrs, j)
      invariant |mem.flushed| == |L0| + i && mem.flushed[..|L0|] == L0
    {
      var res := MapNextPage(mem, root, pa, va, attrs, i, F0, S0, L0);
      if res.Err? {
        return res, done;
      }
      i := i + 1;
      done := i;
    }
    r := Ok(());
  }

  /**
   * The body of virt_map's loop on the state after pages 0 .. i - 1: page `i`
   * (MapPage), carrying the loop's invariant to i + 1 on Ok and the failure
   * of page `i` on Err.
   */
  method MapNextPage(mem: PhysMemory, root: PageTable, pa: bv64, va: bv64, attrs: bv8, i: nat,
                     ghost F0: Frames, ghost S0: seq<bv64>, ghost L0: seq<VirtAddr>)
    returns (r: Result<(), MapError>)
    requires IsPageAligned(pa) && IsPageAligned(va) && attrs & (ATTR_R | ATTR_X) != 0
    requires mem.Valid() && Layered(mem.frames, mem.level) && RootAt(mem.frames, mem.level, root)
    requires ValidKept(F0, mem.frames)
    requires RangeReached(mem.frames, mem.supply, F0, S0, root, pa, va, attrs, i)
    requires forall j | 0 <= j < i :: PageMappedAt(mem.frames, root, pa, va, attrs, j)
    requires |mem.flushed| == |L0| + i && mem.flushed[..|L0|] == L0
    modifies mem
    ensures mem.Valid() && Layered(mem.frames, mem.level) && RootAt(mem.frames, mem.level, root)
    ensures ValidKept(F0, mem.frames)
    ensures RangeReached(mem.frames, mem.supply, F0, S0, root, pa, va, attrs, i + 1)
    ensures r.Err? ==> PageFailed(mem.frames, mem.supply, root, pa, va, Offset(i), r.error)
    ensures forall j | 0 <= j < i :: PageMappedAt(mem.frames, root, pa, va, attrs, j)
    ensures r.Ok? ==> forall j | 0 <= j < i + 1 :: PageMappedAt(mem.frames, root, pa, va, attrs, j)
    ensures r.Ok? ==> |mem.flushed| == |L0| + i + 1 && mem.flushed[..|L0|] == L0
    ensures r.Err? ==> mem.flushed == old(mem.flushed)
  {
    ghost var fl := mem.flushed;
    ghost var m := MemState(mem.frames, mem.supply);
    var offs := Offset(i);
    r := MapPage(mem, root, pa, va, attrs, i, offs, F0);
    RangeStateNext(F0, S0, root, pa, va, attrs, i, m, MemState(mem.frames, mem.supply));
    if r.Ok? {
      MappedStep(mem.frames, root, pa, va, attrs, i, offs);
      assert mem.flushed[..|L0|] == fl[..|L0|];
    }
  }

  /**
   * One round of virt_map's loop: the page at offset i * PAGE_SIZE, with the
   * overflow checks on both addresses; every page mapped before stays mapped.
   */
  method MapPage(mem: PhysMemory, root: PageTable, pa: bv64, va: bv64, attrs: bv8, i: nat, offs: bv64, ghost F0: Frames)
    returns (r: Result<(), MapError>)
    requires IsPageAligned(pa) && IsPageAligned(va) && attrs & (ATTR_R | ATTR_X) != 0 && offs == Offset(i)
    requires mem.Valid() && Layered(mem.frames, mem.level) && RootAt(mem.frames, mem.level, root)
    requires ValidKept(F0, mem.frames)
    requires forall j | 0 <= j < i :: PageMappedAt(mem.frames, root, pa, va, attrs, j)
    modifies mem
    ensures mem.Valid() && Layered(mem.frames, mem.level) && RootAt(mem.frames, mem.level, root)
    ensures ValidKept(F0, mem.frames)
    ensures forall j | 0 <= j < i :: PageMappedAt(mem.frames, root, pa, va, attrs, j)
    ensures r.Ok? ==> PageMapped(mem.frames, root, pa, va, attrs | ATTR_V, offs)
    ensures r.Err? <==>
      CheckedAdd(pa, offs).None? || CheckedAdd(va, offs).None?
      || MapOneFails(old(mem.frames), old(mem.supply), root, PageOf(va + offs))
    ensures r.Err? ==> PageFailed(mem.frames, mem.supply, root, pa, va, offs, r.error)
    ensures MemState(mem.frames, mem.supply) == PageStep(old(mem.frames), old(mem.supply), root, pa, va, attrs, offs)
    ensures CheckedAdd(pa, offs).None? || CheckedAdd(va, offs).None? ==> mem.level == old(mem.level)
    ensures r.Ok? ==> mem.flushed == old(mem.flushed) + [VirtAddr(PageOf(va + offs))]
    ensures r.Err? ==> mem.flushed == old(mem.flushed)
  {
    if CheckedAdd(pa, offs).None? || CheckedAdd(va, offs).None? {
      PageStepOverflow(mem.frames, mem.supply, root, pa, va, attrs, offs);
      return Err(NoneError);
    }
    AlignedAdd(pa, offs);
    AlignedAdd(va, offs);
    LayeredWalk(mem.frames, mem.level, root, PageOf(va + offs));
    ghost var f := mem.frames;
    // past both checks, the checked sums are the plain ones
    ghost var S, L := mem.supply, mem.level;
    r := VirtMapOne(mem, root, pa + offs, va + offs, attrs);
    MapStepKeeps(F0, f, mem.frames, root, pa, va, attrs, i);
    MapOneOutcome(f, S, L, mem.frames, mem.supply, mem.level, root, pa, va, offs,
                  PteNew(pa + offs, attrs | ATTR_V), attrs & (ATTR_R | ATTR_X) != 0, r);
    PageStepCall(f, S, L, mem.frames, mem.supply, mem.level, root, pa, va, attrs, offs,
                 attrs & (ATTR_R | ATTR_X) != 0, r);
  }

  /** How a virt_map_one call inside virt_map came out, as MapOneFails and PageFailed say. */
  lemma MapOneOutcome(F0: Frames, S0: seq<bv64>, L0: map<PageTable, nat>, f: Frames, s: seq<bv64>, lv: map<PageTable, nat>,
                      root: PageTable, pa: bv64, va: bv64, o: bv64, pte: Pte, keepLayers: bool, r: Result<(), MapError>)
    requires CheckedAdd(pa, o).Some? && CheckedAdd(va, o).Some?
    requires MapOneSpec(F0, S0, L0, f, s, lv, root, PageOf(va + o), pte, keepLayers, r)
    ensures r.Err? <==> MapOneFails(F0, S0, root, PageOf(va + o))
    ensures r.Err? ==> PageFailed(f, s, root, pa, va, o, r.error)
  {
    var page := PageOf(va + o);
    var e := PathEntry(F0, root, page, StopLevel(F0, root, page));
    assert r == Err(AlreadyMapped) <==> IsValid(e);
    assert r == Err(NoneError) <==> !IsValid(e) && |S0| < StopLevel(F0, root, page);
    if r.Err? {
      if r.error == AlreadyMapped {
        assert r == Err(AlreadyMapped);
      } else {
        assert r == Err(NoneError);
      }
    }
  }

  /** The pages below i and the page at offs == Offset(i) make the pages below i + 1. */
  lemma MappedStep(frames: Frames, root: PageTable, pa: bv64, va: bv64, attrs: bv8, i: nat, offs: bv64)
    requires offs == Offset(i)
    requires forall j | 0 <= j < i :: PageMappedAt(frames, root, pa, va, attrs, j)
    requires PageMapped(frames, root, pa, va, attrs | ATTR_V, offs)
    ensures forall j | 0 <= j < i + 1 :: PageMappedAt(frames, root, pa, va, attrs, j)
  {
  }

  /** One call of virt_map_one keeps every valid entry, and with it every page mapped before. */
  lemma MapStepKeeps(F0: Frames, f: Frames, g: Frames, root: PageTable, pa: bv64, va: bv64, attrs: bv8, n: nat)
    requires ValidKept(F0, f) && ValidKept(f, g)
    requires forall j | 0 <= j < n :: PageMappedAt(f, root, pa, va, attrs, j)
    ensures ValidKept(F0, g)
    ensures forall j | 0 <= j < n :: PageMappedAt(g, root, pa, va, attrs, j)
  {
    ValidKeptTrans(F0, f, g);
    forall j | 0 <= j < n
      ensures PageMappedAt(g, root, pa, va, attrs, j)
    {
      assert PageMappedAt(f, root, pa, va, attrs, j);
      PageKept(f, g, root, pa, va, attrs, Offset(j));
    }
  }

  /** A page mapped to a leaf stays mapped through any change that keeps valid entries. */
  lemma PageKept(f: Frames, g: Frames, root: PageTable, pa: bv64, va: bv64, attrs: bv8, o: bv64)
    requires ValidKept(f, g) && PageMapped(f, root, pa, va, attrs | ATTR_V, o)
    ensures PageMapped(g, root, pa, va, attrs | ATTR_V, o)
  {
    LeafEntry(pa + o, attrs);
    MappingPersists(f, g, root, PageOf(va + o), PteNew(pa + o, attrs | ATTR_V));
  }

}
