# mu: verified model of the memory-management and data-format core

This project models, in Dafny, the parts of the mu RISC-V kernel and its
bootloader that manipulate bits, ranges and buffers:

- **Sv39 page tables** (`paging.dfy`). This covers the page-table-entry codec, virtual-address canonicalisation and index split, and zero-filled table allocation. It also covers the three-level walk-and-map of one page (`virt_map_one`, as section 4.4 of the RISC-V Privileged Architecture describes Sv39) and the range mapper `virt_map`.
  - Physical memory is a class holding a map from page-table frames to 512-entry tables. It has an abstract frame supply that may run out, a ghost level map for tables, and a ghost log of TLB invalidations.
- **Machine registers and the physical free list** (`arch.rs`, modelled in `arch.dfy`).
  - The `satp` register: PPN in bits 0-43, ASID in bits 44-59, MODE in bits 60-63.
  - The single- and two-bit fields of `mstatus`/`sstatus`.
  - The scause split into interrupt and exception.
  - The physical-memory window `pm_base`/`address`.
  - The intrusive LIFO free list of physical pages.
- **Half-open address ranges** (`spanner.dfy`): `Span::new`, `intersect`, `merge`, `offset`, `len` and `contains`. The `begin()` and `end()` getters are the datatype's fields.
- **The microflop archive format** (`microflop.dfy`).
  - Little-endian offsets, the entry tag, and 16-byte NUL-padded file names.
  - Header-entry serialization and deserialization.
  - The archive reader `Microflop::new` and its file iterator.
- **The uflop archive builder** (`uflop.dfy`): the layout and byte output of `uflop new`, with file names and contents as inputs. It is proved to produce an archive that the reader parses back into the inputs, in order.
- **ELF segment placement in the bootloader** (`loader.dfy`).
  - Program-header flags to page attributes.
  - The total size of a set of segments.
  - Mapping the PT_LOAD segments.
  - The virtual span as the merge of all non-empty PT_LOAD spans, and the physical span.
  - Copying and zero-filling the segments into one contiguous buffer.
- **The integer-enum and flag macros** (`typesafe_ints.dfy`). These are modelled through concrete instances:
  - the `int_flags!` instance of its own documentation (`PteAttr`/`PteAttrs`) in `typesafe_ints.dfy`;
  - the `int_enum!` instances `ExceptionType` and `InterruptType` in `arch.dfy`;
  - the `int_enum_only!`-style tag `HeaderEntryType` in `microflop.dfy`.

`wrappers.dfy` holds the `Option` and `Result` types used throughout.

Panics of the source (`assert!`, `unwrap`, `expect`, out-of-range slicing) are preconditions. Returned errors are `Result` values. Machine integers are bit-vectors (`bv8`, `bv16`, `bv32`, `bv64`) or the subset types `usize`/`isize`/`u32`. Wrap-around is written out where the source wraps.

## Model

| member | source | states |
|---|---|---|
| Paging.DecomposePteNew | crates/riscv_paging/src/lib.rs:109-126 | decompose(Pte::new(pa, a)) gives bits 12..55 of pa and a; bits 8-9 and 54-63 of the entry are zero |
| Paging.DecomposeBits | crates/riscv_paging/src/lib.rs:120-126 | decompose is total: the frame is bits 10..53 (at most 44 bits) and the attributes are the low 8 bits, and together they re-form the entry without bits 8-9 and 54-63 |
| Paging.PteNew | crates/riscv_paging/src/lib.rs:109-117 | Pte::new: bits 12-55 of pa go to bits 10-53 and the attributes to bits 0-7; what comes back out is stated by DecomposePteNew and PteRoundTrip |
| Paging.Decompose | crates/riscv_paging/src/lib.rs:120-126 | decompose: bits 10-53 as the next page number and bits 0-7 as the attributes; stated by DecomposeBits |
| Paging.PteRoundTrip | crates/riscv_paging/src/lib.rs:109-126 | an entry with its reserved bits clear is rebuilt exactly by Pte::new from its decomposition |
| Paging.LinkEntry | crates/riscv_paging/src/lib.rs:283 | a V-only entry made from an aligned table address is a pointer to that table |
| Paging.LeafEntry | crates/riscv_paging/src/lib.rs:236-289 | the entry written for attrs with V is valid; it is a leaf iff attrs has R or X, otherwise it looks like a pointer |
| Paging.Canonicalize | crates/riscv_paging/src/lib.rs:194-196 | canonicalize: the low 39 bits of the address; stated by CanonicalizeBounds and CanonicalizeIdempotent |
| Paging.CanonicalizeBounds | crates/riscv_paging/src/lib.rs:194-196 | canonicalize keeps exactly the low 39 bits: the result is below 2^39 and differs from the input only above bit 38 |
| Paging.CanonicalizeIdempotent | crates/riscv_paging/src/lib.rs:194-196 | canonicalizing twice is canonicalizing once |
| Paging.CanonicalizeExample | crates/riscv_paging/src/lib.rs:352-356 | the source's unit test: 0xff00_0010_1234_5789 becomes 0x0000_0010_1234_5789 |
| Paging.PageAligned | crates/riscv_paging/src/lib.rs:199-201 | page_aligned: the address with its low 12 bits cleared; stated by PageAlignedBounds |
| Paging.PageAlignedBounds | crates/riscv_paging/src/lib.rs:199-212 | page_aligned gives an aligned address at most the input and less than a page below it |
| Paging.Parts | crates/riscv_paging/src/lib.rs:204-207 | parts gives three indices, each below 512 |
| Paging.PartsRecompose | crates/riscv_paging/src/lib.rs:204-207 | VPN2<<30, VPN1<<21, VPN0<<12 and the page offset recompose canonicalize(va) |
| Paging.PartsOfPage | crates/riscv_paging/src/lib.rs:247-248 | canonicalizing and page-aligning va before splitting it does not change the indices |
| Paging.FromRaw | crates/riscv_paging/src/lib.rs:158-164 | from_raw demands an aligned base and keeps it |
| Paging.ZeroTable | crates/riscv_paging/src/lib.rs:177-178 | a zeroed table has 512 entries, all zero and all invalid |
| Paging.PhysMemory.Alloc | crates/riscv_paging/src/lib.rs:173 | the frame allocator fails iff the supply is empty, else hands out the first frame |
| Paging.PhysMemory.AllocTable | crates/riscv_paging/src/lib.rs:172-180 | None iff the allocator fails, with nothing changed; otherwise a fresh aligned table, all 512 entries zero, and no other table touched |
| Paging.PhysMemory.Clear | crates/riscv_paging/src/lib.rs:183-185 | clear makes every entry of the table invalid and changes no other table |
| Paging.Walk | crates/riscv_paging/src/lib.rs:250-277 | the descending walk stops at the level where the path meets an invalid entry or a leaf, at the table the path reaches there; it reports whether that entry is valid |
| Paging.LinkOne | crates/riscv_paging/src/lib.rs:281-284 | one round of the linking loop: allocation failure changes nothing; otherwise a zeroed table is linked by a V-only entry at the given slot |
| Paging.LinkTables | crates/riscv_paging/src/lib.rs:280-285 | the linking loop allocates and links one table per missing level; when the supply runs out it stops, leaving the tables already linked in place |
| Paging.VirtMapOne | crates/riscv_paging/src/lib.rs:229-300 | AlreadyMapped iff the walk stops at a valid entry, and then nothing changes. NoneError iff the walk stops at an invalid entry at level `stop` and the supply holds fewer than `stop` frames; then every frame is taken as a linked table and the walk still ends at a free slot above level 0. Ok leaves va mapped to Pte::new(pa, attrs or V). In every case the tables become exactly MapOneFrames, the frames taken are the first of the supply, no valid entry is overwritten, and one invalidation of va's page is logged on success |
| Paging.LinkAndWrite | crates/riscv_paging/src/lib.rs:279-299 | from the free slot where the walk stopped: the linking loop, then on success the leaf write and the invalidation; the result meets the same specification as VirtMapOne |
| Paging.MapOneOnlyPath | crates/riscv_paging/src/lib.rs:279-289 | of the old tables, MapOneFrames changes only the free slot where the walk stopped, and every new table is zero except in the one slot on va's path |
| Paging.MapOneOutcome | crates/riscv_paging/src/lib.rs:338-343 | once both checked additions succeed, the call fails iff MapOneFails holds of the tables before it (valid entry at the stop, or too few frames), and the error is the one PageFailed names |
| Paging.MappingPersists | crates/riscv_paging/src/lib.rs:229-300 | because no valid entry is ever overwritten, a mapping made earlier survives every later map call |
| Paging.LayeredWalk | crates/riscv_paging/src/lib.rs:270-273 | under the table-level discipline the walk never meets a pointer at level 0, so the assert of the walk cannot fire |
| Paging.RoundUpCovers | crates/riscv_paging/src/lib.rs:335 | the checked round-up succeeds for lengths up to 2^64 - 4096 and gives an aligned length at least the input |
| Paging.VirtMap | crates/riscv_paging/src/lib.rs:326-347 | len > 0 is demanded. A round-up overflow gives NoneError before any write, with the tables and supply unchanged. Ok maps every page pa+offs to va+offs of the rounded length, and the tables and supply are exactly PageStep folded over all its pages (RangeReached). On Err the pages before page `done` stay mapped, VirtMapFailed says why page `done` failed (an offset overflow, an exhausted supply with a table still missing, or a valid entry on the path), and the tables and supply are PageStep folded over pages 0 .. done, the failing page's partial step included (VirtMapStopped). No valid entry is overwritten |
| Paging.MapPages | crates/riscv_paging/src/lib.rs:337-344 | the page loop maps pages 0, 1, ... in order and stops at the first error; the mappings made stay, on Err page `done` is one of the pages and PageFailed holds of it, and the tables and supply are PageStep folded over pages 0 .. done - 1 on Ok and 0 .. done on Err |
| Paging.MapNextPage | crates/riscv_paging/src/lib.rs:337-344 | the loop body from the state after pages 0 .. i - 1: whatever the outcome the state becomes the one after pages 0 .. i, the earlier pages stay mapped, and on Err page i failed as PageFailed says |
| Paging.MapPage | crates/riscv_paging/src/lib.rs:338-343 | one round: Err iff a checked addition overflows or virt_map_one fails on the tables before it (MapOneFails). The error is the one PageFailed names, all earlier pages stay mapped, and the new tables and supply are exactly PageStep of the old ones, on Ok and on Err alike |
| Paging.PageStepOverflow | crates/riscv_paging/src/lib.rs:340-341 | when an address sum overflows, the `?` returns before virt_map_one and the page's step leaves the tables and supply as they were |
| Paging.PageStepCall | crates/riscv_paging/src/lib.rs:338-343 | a virt_map_one call meeting its specification leaves exactly the page's PageStep |
| Paging.RangeStateNext | crates/riscv_paging/src/lib.rs:337-344 | one more page of the loop is PageStep of the state after the pages before it |
| Paging.RangeSupplySuffix | crates/riscv_paging/src/lib.rs:337-344 | across the pages of one virt_map, the supply only loses frames from its front |
| Paging.RangeSupplyStep | crates/riscv_paging/src/lib.rs:337-344 | page i takes some number of frames from the front of what the pages before it left |
| Arch.ModeOf | crates/riscv/src/arch.rs:353-360 | mode decodes bits 60-63: 0 is Bare, 8 is Sv39, any other value v is Other(v) |
| Arch.WithMode | crates/riscv/src/arch.rs:363-369 | set_mode stores the low four bits of the mode code in bits 60-63 and leaves bits 0-59 alone |
| Arch.ModeRoundTrip | crates/riscv/src/arch.rs:353-369 | set_mode then mode gives back Bare, Sv39 and Other(o) for o < 16 outside {0, 8} |
| Arch.ModeStoreRead | crates/riscv/src/arch.rs:353-369 | storing the mode just read changes nothing |
| Arch.ModeTruncates | crates/riscv/src/arch.rs:363-369 | Other(0x18) is stored as 8 and reads back as Sv39: the store keeps four bits |
| Arch.ModeKeepsFields | crates/riscv/src/arch.rs:363-369 | set_mode keeps the PPN and the ASID |
| Arch.PpnOf | crates/riscv/src/arch.rs:347-350 | ppn reads bits 0-43, so it is below 2^44 |
| Arch.PageBase | crates/riscv/src/arch.rs:339 | ppn times 4096 is page aligned and gives back the ppn |
| Arch.RawFields | crates/riscv/src/arch.rs:320-323 | storing a ppn below 2^43 and an ASID reads both back |
| Arch.SatpFields | crates/riscv/src/arch.rs:317-327 | Satp::new stores base/4096 as the PPN, the ASID, and the requested mode (any mode o < 16) |
| Arch.Satp.constructor | crates/riscv/src/arch.rs:317-327 | the register built from a table whose ppn is below 2^43 holds the packed fields |
| Arch.Satp.SetMode | crates/riscv/src/arch.rs:363-369 | the register becomes WithMode of its old value, and a storable mode reads back |
| Arch.Satp.PagingEnabled | crates/riscv/src/arch.rs:372-374 | paging is enabled iff the mode bits are not Bare |
| Arch.Satp.AsPageTable | crates/riscv/src/arch.rs:336-344 | Some iff the mode is Sv39, and then the table's base is ppn times 4096, page aligned |
| Arch.MppOf | crates/riscv/src/arch.rs:384-391 | m_prev_pl reads mstatus bits 11-12 |
| Arch.MppRoundTrip | crates/riscv/src/arch.rs:384-402 | set_m_prev_pl then m_prev_pl gives back the level, and no other bit changes |
| Arch.BitRoundTrip | crates/riscv/src/arch.rs:395-417 | setting a one-bit field reads back the stored value and changes no other bit |
| Arch.StatusReg.constructor | crates/riscv/src/arch.rs:380 | the register wraps the given word |
| Arch.StatusReg.SetSum | crates/riscv/src/arch.rs:395-397 | set_sum writes bit 18 and nothing else |
| Arch.StatusReg.SetMPrevPl | crates/riscv/src/arch.rs:400-402 | set_m_prev_pl writes bits 11-12, and the getter reads the level back |
| Arch.StatusReg.SetMInts | crates/riscv/src/arch.rs:405-412 | set_m_ints writes bit 3, and m_ints reads it back |
| Arch.StatusReg.SetSInts | crates/riscv/src/arch.rs:415-417 | set_s_ints writes bit 1 and nothing else |
| Arch.ExceptionFrom | crates/riscv/src/arch.rs:504-520 | int_enum! From: a listed code gives its variant, any other t gives Other(t), and converting back gives t |
| Arch.ExceptionRoundTrip | crates/typesafe_ints/src/lib.rs:84-104 | int_enum! From of Into is the identity on every variant (Other(o) for an unlisted o) |
| Arch.InterruptFrom | crates/riscv/src/arch.rs:523-533 | the same for the interrupt codes |
| Arch.InterruptRoundTrip | crates/typesafe_ints/src/lib.rs:84-104 | From of Into is the identity on every interrupt variant |
| Arch.SCauseFrom | crates/riscv/src/arch.rs:487-502 | Interrupt iff the top bit is set, carrying the value with the top bit cleared; otherwise Exception of the value |
| Arch.SCauseExamples | crates/riscv/src/arch.rs:494-533 | the supervisor timer, a load page fault, and an unlisted interrupt code |
| Arch.PmBase | crates/riscv/src/arch.rs:435-441 | the base is zero iff paging is off |
| Arch.Address | crates/riscv/src/arch.rs:444-446 | address is pm_base plus pa with wrapping addition, and pa itself when paging is off |
| Arch.FreeList.constructor | crates/riscv/src/arch.rs:429 | the list starts empty |
| Arch.FreeList.Free | crates/riscv/src/arch.rs:466-481 | an aligned page becomes the head, with the old head recorded as its next |
| Arch.FreeList.Alloc | crates/riscv/src/arch.rs:448-464 | an empty list gives None; a head with no next also gives None and leaves the list as it was; otherwise the head is returned and its next becomes the head |
| Arch.LastPageKept | crates/riscv/src/arch.rs:454-457 | on an empty list, free(A), free(B), alloc() gives B and the next alloc() gives None |
| TypesafeInts.FromFlag | crates/typesafe_ints/src/lib.rs:216-220 | From<PteAttr> gives the set holding exactly that flag |
| TypesafeInts.Or | crates/typesafe_ints/src/lib.rs:222-228 | flag or flag holds exactly the two flags |
| TypesafeInts.OrFlag | crates/typesafe_ints/src/lib.rs:230-236 | set or flag adds the flag and keeps every other bit |
| TypesafeInts.OrAll | crates/typesafe_ints/src/lib.rs:238-244 | set or set holds exactly the flags of either |
| TypesafeInts.OrAllHasAny | crates/typesafe_ints/src/lib.rs:238-255 | has_any distributes over or |
| TypesafeInts.OrForms | crates/typesafe_ints/src/lib.rs:222-244 | the three or operators agree, being bitwise or of the same byte |
| TypesafeInts.NoneIsEmpty | crates/typesafe_ints/src/lib.rs:247-255 | NONE has no flag and shares nothing with any set |
| TypesafeInts.HasIsHasAny | crates/typesafe_ints/src/lib.rs:249-255 | has(a) is has_any of the one-flag set |
| TypesafeInts.DocExample | crates/typesafe_ints/src/lib.rs:184-192 | the macro's documented assertions, including that a raw 1 reports V |
| Spanner.New | crates/spanner/src/lib.rs:41-44 | demands begin <= end and gives exactly the addresses in [begin, end) |
| Spanner.Intersect | crates/spanner/src/lib.rs:70-88 | Some iff max(begins) < min(ends); the result is non-empty and holds exactly the addresses in both spans; None means they share none |
| Spanner.IntersectSymmetric | crates/spanner/src/lib.rs:59-63 | intersect does not depend on operand order |
| Spanner.IntersectSelf | crates/spanner/src/lib.rs:64-68 | a span intersected with itself is itself when non-empty, None when empty |
| Spanner.IntersectTouching | crates/spanner/src/lib.rs:62-63 | spans that only touch give None |
| Spanner.IntersectInside | crates/spanner/src/lib.rs:70-88 | the intersection lies inside both spans |
| Spanner.Merge | crates/spanner/src/lib.rs:110-120 | Some iff max(begins) <= min(ends); the result holds exactly the addresses of either span; None means a gap separates them |
| Spanner.MergeCommutative | crates/spanner/src/lib.rs:101-105 | merge does not depend on operand order |
| Spanner.MergeSelf | crates/spanner/src/lib.rs:107 | a span merged with itself is itself |
| Spanner.MergeTouching | crates/spanner/src/lib.rs:101-102 | touching spans merge into their union |
| Spanner.DocExamples | crates/spanner/src/lib.rs:50-108 | every assertion of the intersect and merge documentation |
| Spanner.Offset | crates/spanner/src/lib.rs:123-128 | both ends move by offs modulo 2^64, exactly by offs where nothing wraps |
| Spanner.OffsetKeepsLen | crates/spanner/src/lib.rs:123-128 | an offset that does not wrap keeps the span valid and its length unchanged |
| Spanner.Len | crates/spanner/src/lib.rs:159-161 | demands begin <= end; the span holds exactly the len addresses from begin |
| Spanner.Contains | crates/spanner/src/lib.rs:163-166 | contains as written, `begin >= addr && addr < end`; how it differs from membership is stated by ContainsAsWrittenWrong and ContainsAsWrittenOnlyBegin |
| Spanner.ContainsAsWrittenWrong | crates/spanner/src/lib.rs:163-166 | as written, contains rejects 5 in [0, 10) and accepts 3 for [5, 10) |
| Spanner.ContainsAsWrittenOnlyBegin | crates/spanner/src/lib.rs:163-166 | as written, contains agrees with membership only at the first address |
| Spanner.ContainsIntended | crates/spanner/src/lib.rs:163-166 | contains as its doc comment means it, `begin <= addr && addr < end` |
| Spanner.ContainsIntendedIsMembership | crates/spanner/src/lib.rs:163-166 | the intended check is membership in [begin, end), which holds by its definition; it also agrees with intersect against the one-address span [addr, addr + 1) |
| Microflop.Le32 | crates/microflop/src/lib.rs:137-140 | an offset serializes to four bytes |
| Microflop.Le32RoundTrip | crates/microflop/src/lib.rs:137-140 | decoding the little-endian bytes of an offset gives it back |
| Microflop.FromLe32RoundTrip | crates/microflop/src/lib.rs:197-198 | every four bytes are the encoding of the offset they decode to |
| Microflop.MagicIsMeww | crates/microflop/src/lib.rs:9 | the magic is the bytes "meww" in little-endian order |
| Microflop.TagTryFrom | crates/microflop/src/lib.rs:46-53 | the tag decodes iff the byte is 0 (End) or 1 (Entry), and encodes back to that byte |
| Microflop.TagRoundTrip | crates/typesafe_ints/src/lib.rs:153-163 | try_from of the tag's byte is the tag |
| Microflop.FirstNul | crates/microflop/src/lib.rs:106-108 | the position of the first NUL, None iff there is none |
| Microflop.AsStr | crates/microflop/src/lib.rs:104-113 | BadEntry when there is no NUL or bad UTF-8; otherwise the valid-UTF-8, NUL-free bytes before the first NUL. When there is a NUL, Ok iff the bytes before the first one are valid UTF-8 |
| Microflop.Padded | crates/microflop/src/lib.rs:116-124 | a name of at most 15 bytes is copied to the front of 16 bytes, leaving a NUL |
| Microflop.AsStrPadded | crates/microflop/src/lib.rs:104-124 | as_str(new(s)) == s for NUL-free valid UTF-8 s of at most 15 bytes |
| Microflop.EmptyName | crates/microflop/src/lib.rs:101 | the empty name reads as the empty string |
| Microflop.NewFileName | crates/microflop/src/lib.rs:116-124 | BadEntry iff the name is longer than 15 bytes; otherwise the zero-padded name |
| Microflop.EntryBytes | crates/microflop/src/lib.rs:155-163 | an entry serializes to 28 bytes |
| Microflop.Deserialize | crates/microflop/src/lib.rs:190-211 | BadEntry iff the tag byte is above 1; otherwise exactly 28 bytes are consumed and the first 25 are the entry's serialization |
| Microflop.DeserializeSerialize | crates/microflop/src/lib.rs:153-211 | deserialize(serialize(e) ++ rest) gives (e, rest) |
| Microflop.SerializeFileName | crates/microflop/src/lib.rs:128-131 | writes the 16 name bytes |
| Microflop.SerializeOffset | crates/microflop/src/lib.rs:137-140 | writes the four little-endian bytes |
| Microflop.SerializeTag | crates/microflop/src/lib.rs:146-149 | writes the tag byte |
| Microflop.SerializeEntry | crates/microflop/src/lib.rs:155-163 | writes name, begin, end, tag and three zero bytes: EntryBytes |
| Microflop.New | crates/microflop/src/lib.rs:167-177 | demands at least 4 bytes; Ok iff they are the magic, else BadMagic |
| Microflop.NextStep | crates/microflop/src/lib.rs:84-97 | Err iff the tag is bad; End gives None without advancing; Entry advances by one 28-byte entry and yields the entry's name with the bytes [begin, end) of the archive, which lie inside it |
| Microflop.IterFiles.Files | crates/microflop/src/lib.rs:179-184 | the iterator starts right after the 4-byte magic |
| Microflop.IterFiles.Next | crates/microflop/src/lib.rs:84-97 | the item and the new position are those of NextStep |
| Uflop.Pad | tools/uflop/src/main.rs:74 | the padding is below 8 and rounds the length up to a multiple of 8 |
| Uflop.FileBeginStep | tools/uflop/src/main.rs:74-92 | the next file begins after this file's end and its padding |
| Uflop.FilesOrdered | tools/uflop/src/main.rs:72-93 | files are laid out in input order without overlap |
| Uflop.FileEndBound | tools/uflop/src/main.rs:69-93 | every file ends within the header region plus the padded data |
| Uflop.FileEntry | tools/uflop/src/main.rs:85-91 | a file's entry has the Entry tag and begin <= end |
| Uflop.Entries | tools/uflop/src/main.rs:85-99 | one entry per file in input order, then the End entry |
| Uflop.HeaderBytes | tools/uflop/src/main.rs:112-114 | the serialized headers are 28 bytes per entry |
| Uflop.DataBytes | tools/uflop/src/main.rs:116-120 | the data section is as long as the padded file sizes |
| Uflop.Archive | tools/uflop/src/main.rs:69-120 | the archive is 4 + 28(n+1) bytes of header plus the padded data |
| Uflop.Build | tools/uflop/src/main.rs:62-123 | Ok iff every name fits 15 bytes and every offset fits in u32, and then the archive. Err names the first file that does not fit, and BadName only for a name that is too long |
| Uflop.LayOut | tools/uflop/src/main.rs:69-99 | the header loop: the entries of all files, or the first failing file |
| Uflop.WriteOut | tools/uflop/src/main.rs:109-120 | writes the magic, the headers, and each file followed by its zero padding |
| Uflop.ArchiveFile | tools/uflop/src/main.rs:72-120 | file i occupies exactly [begin_i, end_i) of the archive |
| Uflop.ParseBuilt | tools/uflop/src/main.rs:62-123 | the reader accepts the archive; its k-th step yields file k's padded name and contents, and after the last file it yields None |
| Uflop.NamesReadBack | tools/uflop/src/main.rs:86-87 | each entry's name reads back through as_str as the input name |
| Loader.RiscvAttrs | shoo/src/loader.rs:18-30 | flags_to_riscv as a value: R, W and X from PF_R, PF_W and PF_X; stated by RiscvAttrsBits |
| Loader.RiscvAttrsBits | shoo/src/loader.rs:18-30 | R iff PF_R, W iff PF_W, X iff PF_X, and never V, User, Global, Accessed or Dirty |
| Loader.FlagsToRiscv | shoo/src/loader.rs:18-30 | the attributes built step by step are RiscvAttrs |
| Loader.RoundUp4k | shoo/src/loader.rs:41-44 | the smallest multiple of 4096 at or above n |
| Loader.TotalSize | shoo/src/loader.rs:37-47 | a multiple of 4096 between the sum of memsz and that sum plus 4095 per header |
| Loader.Loads | shoo/src/loader.rs:63 | the PT_LOAD headers, and no other headers |
| Loader.RequestsAt | shoo/src/loader.rs:63-79 | call k of the loop is the Request of PT_LOAD header k: pa = p_vaddr - virt.begin + phys.begin (wrapping), va = p_vaddr, len = memsz rounded up, attrs = flags_to_riscv or extra |
| Loader.RequestsReady | shoo/src/loader.rs:64-80 | when every header is mappable, every call meets virt_map's demands and its length rounds to pages |
| Loader.RequestsSupplySuffix | shoo/src/loader.rs:63-80 | across all the calls, the supply only loses frames from its front |
| Loader.RequestsNext | shoo/src/loader.rs:63-80 | a call that maps all its pages from the state after the calls before it takes the fold one call further |
| Loader.MapSegment | shoo/src/loader.rs:79 | one round of the loop: the virt_map of call j. The earlier calls' ranges stay mapped; Ok maps this one too and leaves the state after calls 0 .. j; Err leaves the state the call left from the one after calls 0 .. j - 1, with its pages before `page` mapped and page `page` failing (VirtMapStopped). One invalidation is logged per page mapped, after the earlier entries |
| Loader.MapExecutable | shoo/src/loader.rs:56-83 | maps the PT_LOAD headers in order, call k being Request of header k. Ok iff all are mapped, and then the tables and supply are those after every call in turn (RequestsState). On Err the calls before call `mapped` stay mapped, `before` is the state after them, and call `mapped` failed from `before` as VirtMapStopped says, with its pages before `page` mapped and nothing mapped past page `page`. The invalidation log only grows at its end. No valid entry is overwritten |
| Loader.HeaderToSpan | shoo/src/loader.rs:88-100 | Some iff PT_LOAD, a span starting at p_vaddr; only a PT_LOAD header's rounded end must fit in usize |
| Loader.LoadSpans | shoo/src/loader.rs:101-103 | the spans of the PT_LOAD headers, all valid, covering exactly the addresses from some PT_LOAD header's p_vaddr to its rounded-up end |
| Loader.NonEmptySpans | shoo/src/loader.rs:109 | dropping empty spans keeps exactly the same addresses |
| Loader.FirstNonEmpty | shoo/src/loader.rs:104 | the position of the first non-empty span, None iff all are empty |
| Loader.MergeAll | shoo/src/loader.rs:110-112 | the try_fold of merge over the spans, None at the first gap; stated by MergeAllUnion |
| Loader.MergeAllUnion | shoo/src/loader.rs:110-112 | a successful try_fold of merge gives a span holding exactly the addresses of the seed and of every span |
| Loader.KernelRange | shoo/src/loader.rs:101-113 | the virtual span, corrected to start from the first non-empty PT_LOAD span; it is valid |
| Loader.KernelRangeCovers | shoo/src/loader.rs:106-113 | the virtual span is non-empty and holds exactly the addresses of the PT_LOAD spans: those from some PT_LOAD header's p_vaddr to its rounded-up end |
| Loader.KernelRangeAsWritten | shoo/src/loader.rs:101-113 | the virtual span as written, starting the fold from `headers[first_header]`, where the position counts PT_LOAD spans only; its failure is shown by FirstHeaderMisindexed |
| Loader.FirstHeaderMisindexed | shoo/src/loader.rs:101-110 | a PT_NOTE header before a PT_LOAD header makes the code as written fail, while the intended span is [0x1000, 0x2000) |
| Loader.AsWrittenAllLoads | shoo/src/loader.rs:101-113 | when every header is PT_LOAD, the code as written computes the intended span |
| Loader.AsIsize | shoo/src/loader.rs:118 | the isize reading of a usize, equal to it modulo 2^64 |
| Loader.PhysSpan | shoo/src/loader.rs:117-119 | the physical span starts at start_at and, where nothing wraps, has the virtual span's length |
| Loader.WriteSegment | shoo/src/loader.rs:125-138 | one segment: bytes from its start to its file end come from the image at p_offset, zeros follow to the 4 KiB-rounded end, and every other byte is kept |
| Loader.LoadAll | shoo/src/loader.rs:124-139 | the segments applied in order keep the buffer length |
| Loader.LoadAllOutside | shoo/src/loader.rs:124-139 | a byte no segment covers is unchanged |
| Loader.LoadAllLast | shoo/src/loader.rs:124-139 | a covered byte holds what the last segment covering it wrote |
| Loader.LoadSegment | shoo/src/loader.rs:125-138 | the copy and the zero fill in place give WriteSegment of the old buffer |
| Loader.LoadSegments | shoo/src/loader.rs:124-139 | the buffer becomes LoadAll of its old contents over the PT_LOAD headers |
| Loader.LoadImage | shoo/src/loader.rs:85-152 | the virtual span is KernelRange, the physical span is PhysSpan, the headers are returned, and the buffer is loaded by LoadAll |

## Left out

- Inline assembly and CSR access are not modelled. `sfence.vma` in `invalidate_cache` is a ghost log of invalidated pages (`PhysMemory.flushed`). The `satp` value behind `pm_base` is a parameter.
- Physical memory is a map from table frames to entry sequences. `P::alloc` is an abstract frame supply that hands out frames in order and fails when empty. Raw pointers, `Phys`, `PhysAddr` and the `PhysAccess` trait are not modelled.
- Paging.VirtMap: states how many invalidations are logged and that earlier log entries are kept, but not which addresses they name. `VirtMapOne` does name the page.
- Paging.VirtMap: demands that attrs contain R or X. Without them the level-0 entry written is V-only, the shape of a pointer, and a later walk through it hits the assert at crates/riscv_paging/src/lib.rs:270-273. The walk's table-level discipline (`Layered`) is an assumed invariant of the caller's tables.
- Loader.MapExecutable: demands the same of every PT_LOAD header, as well as a rounded memsz that fits. The physical address is computed with wrapping usize arithmetic.
- Loader.MapSegment: the loop's argument computation (address arithmetic, round-up, flags_to_riscv) is the pure function Request, so a round of the loop is the virt_map call alone; `FlagsToRiscv` is proved equal to the RiscvAttrs that Request uses.
- The spinlock around the free list (crates/fidget_spinner) and the `Mutex` are not modelled; `alloc` and `free` are sequential and atomic. The free list is a head plus a map from page to next; the metadata record written into the freed page is that map entry.
- Spanner.Offset: the `as isize` cast and the addition are modelled as addition modulo 2^64. An overflowing `isize` addition, which panics in debug builds, is not modelled.
- `Span::as_slice`, `as_slice_mut`, the `From<&[T]>` conversion and the `Debug` formatting are not modelled. They deal in raw pointers and output.
- Writer I/O errors in the serializers are not modelled: the writer is an append-only byte sequence. The magic, which uflop writes with `write` rather than `write_all`, is treated as written in full.
- uflop's file reading, path handling (`file_name`, `to_str`), `list`, `dump` and the command line are not modelled. Names and contents are inputs. The `out_pos` counter is unbounded; only the `u32` conversion of offsets is checked.
- The ELF header parsing of `get_headers` (shoo/src/loader.rs:154-187) is not part of this model. A plain `ProgramHeader` record stands in for goblin's program headers, and the `elf_header` field of `ImageLoadInfo` is not kept.
- Loader.TotalSize: the sum is unbounded, so a usize overflow of the sum, which panics in debug builds, is not modelled.
- `VirtSize::round_up` is not part of the paging file. The loader uses a round-up to 4096 that succeeds whenever the rounded value fits, and demands that it fits where the source unwraps. It has two forms. Where the loader computes sizes and span ends with integers (shoo/src/loader.rs:42, 95 and 129), it is Loader.RoundUp4k, an unbounded integer round-up whose fit in a usize is a separate demand. Where the result becomes virt_map's length (shoo/src/loader.rs:69), it is Paging.RoundUp, the checked 64-bit round-up that virt_map itself uses. The two agree whenever the result fits, but no lemma in the model states that: relating integer and 64-bit word arithmetic is left out.
- Debug logging (`log::debug!`, `println!`) is not modelled.

## Findings

| source | as written | input that shows it | evidently intended | confidence | as-written member | corrected member |
|---|---|---|---|---|---|---|
| crates/spanner/src/lib.rs:163-166 | `contains` tests `begin >= addr && addr < end` | Span [0, 10) with address 5 gives false; Span [5, 10) with address 3 gives true | `begin <= addr && addr < end`, as the doc comment and the half-open range say | high, not executed | Spanner.Contains, Spanner.ContainsAsWrittenWrong | Spanner.ContainsIntendedIsMembership |
| shoo/src/loader.rs:101-110 | `first_header` is a position among the PT_LOAD spans, but indexes all headers, and `header_to_span(&headers[first_header]).unwrap()` expects a PT_LOAD there | a PT_NOTE header followed by one PT_LOAD header (vaddr 0x1000, memsz 0x1000): position 0 picks the PT_NOTE header and the unwrap panics | the merge starts from the first non-empty PT_LOAD span, giving [0x1000, 0x2000) | high, not executed | Loader.KernelRangeAsWritten, Loader.FirstHeaderMisindexed | Loader.KernelRangeCovers |
