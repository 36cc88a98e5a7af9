/**
 The bits of a page-table entry and of a virtual address: the 4 KB-granule descriptors of the Arm VMSAv8-64
 translation tables.

 Tables are numbered by their depth below the root: 0 for the source's L4 up to 3 for its L1. A page of 1 GB
 is an entry of a table of depth 1, of 2 MB of depth 2, of 4 KB of depth 3. Masks are written out as literals
 where a proof is about their bits.
 */
module PageTableEntry {
  const PRESENT: bv64 := 0x1
  const SMALL_PAGE: bv64 := 0x2
  const NORMAL_MEMORY: bv64 := 0x4
  const USER: bv64 := 0x40
  const OUTER_SHARE: bv64 := 0x300
  const ACCESSED: bv64 := 0x400
  const PAGE_TABLE_FLAGS: bv64 := NORMAL_MEMORY | PRESENT | SMALL_PAGE | OUTER_SHARE | ACCESSED | USER

  // ---- entries ----

  predicate IsEmpty(w: bv64)
  {
    w == 0
  }

  function AddressOf(w: bv64): bv64
  {
    w & 0x0000_ffff_ffff_f000
  }

  /** The frame, by its physical address. */
  datatype Frame = Frame(start: bv64)

  function FrameOf(w: bv64): Frame
  {
    Frame(AddressOf(w))
  }

  function Flags(w: bv64): bv64
  {
    w & 0xffff_0000_0000_0fff
  }

  predicate Present(w: bv64)
  {
    Flags(w) & PRESENT == PRESENT
  }

  predicate IsBlock(w: bv64)
  {
    Flags(w) & SMALL_PAGE != SMALL_PAGE
  }

  /** The entry points to a table of the next level. */
  predicate IsTable(w: bv64)
  {
    Present(w) && !IsBlock(w)
  }

  function Entry(frame: bv64, flags: bv64): bv64
  {
    (frame & 0x0000_ffff_ffff_ffff) | flags
  }

  function TableEntry(frame: Frame): bv64
  {
    Entry(frame.start, PAGE_TABLE_FLAGS)
  }

  predicate IsFrame(frame: bv64)
  {
    AddressOf(frame) == frame
  }

  /** Flags that lie outside the address and say of the entry what the depth of its table demands. */
  predicate FlagsFit(flags: bv64, depth: nat)
  {
    AddressOf(flags) == 0 && (flags & SMALL_PAGE == SMALL_PAGE <==> depth == 3)
  }

  /** What is stored is what is read: the address, and whether the entry is a block. */
  lemma EntryRoundTrip(frame: bv64, flags: bv64, depth: nat)
    requires IsFrame(frame) && FlagsFit(flags, depth)
    ensures AddressOf(Entry(frame, flags)) == frame
    ensures Flags(Entry(frame, flags)) == flags
    ensures IsBlock(Entry(frame, flags)) <==> depth != 3
    ensures IsEmpty(Entry(frame, flags)) <==> frame == 0 && flags == 0
  {
    EntryAddress(frame, flags);
    EntryFlags(frame, flags);
    EmptyEntry();
  }

  lemma EntryAddress(frame: bv64, flags: bv64)
    requires IsFrame(frame) && AddressOf(flags) == 0
    ensures AddressOf(Entry(frame, flags)) == frame
  {
  }

  lemma EntryFlags(frame: bv64, flags: bv64)
    requires IsFrame(frame) && AddressOf(flags) == 0
    ensures Flags(Entry(frame, flags)) == flags
  {
  }

  lemma EmptyEntry()
    ensures AddressOf(0) == 0 && Flags(0) == 0 && IsEmpty(0) && IsBlock(0) && !IsTable(0) && Entry(0, 0) == 0
  {
  }

  lemma TableEntryRoundTrip(frame: Frame)
    requires IsFrame(frame.start)
    ensures FrameOf(TableEntry(frame)) == frame
    ensures Flags(TableEntry(frame)) == 0x747
    ensures IsTable(TableEntry(frame)) && !IsEmpty(TableEntry(frame))
  {
    EntryAddress(frame.start, PAGE_TABLE_FLAGS);
    EntryFlags(frame.start, PAGE_TABLE_FLAGS);
    EmptyEntry();
  }

  lemma AddressIsFrame(w: bv64)
    ensures IsFrame(AddressOf(w))
  {
  }

  // ---- virtual addresses ----

  function L4Index(a: bv64): bv64
  {
    (a & (0x1ff << 39)) >> 39
  }

  function L3Index(a: bv64): bv64
  {
    (a & (0x1ff << 30)) >> 30
  }

  function L2Index(a: bv64): bv64
  {
    (a & (0x1ff << 21)) >> 21
  }

  function L1Index(a: bv64): bv64
  {
    (a & (0x1ff << 12)) >> 12
  }

  function IndexBits(a: bv64, depth: nat): bv64
    requires depth < 4
  {
    match depth
    case 0 => L4Index(a)
    case 1 => L3Index(a)
    case 2 => L2Index(a)
    case _ => L1Index(a)
  }

  function Index(a: bv64, depth: nat): (i: nat)
    requires depth < 4
    ensures i < 512
  {
    IndexIsSmall(a, depth);
    IndexBits(a, depth) as nat
  }

  lemma IndexIsSmall(a: bv64, depth: nat)
    requires depth < 4
    ensures IndexBits(a, depth) < 512 && IndexBits(a, depth) as nat < 512
  {
    assert IndexBits(a, depth) < 512;
  }

  lemma NumberRoundTrip(x: bv64)
    requires x < 512
    ensures x as nat as bv64 == x
  {
  }

  lemma SameNumber(x: bv64, y: bv64)
    requires x < 512 && y < 512 && x as nat == y as nat
    ensures x == y
  {
    NumberRoundTrip(x);
    NumberRoundTrip(y);
  }

  lemma SameIndex(a: bv64, b: bv64, depth: nat)
    requires depth < 4
    ensures Index(a, depth) == Index(b, depth) <==> IndexBits(a, depth) == IndexBits(b, depth)
  {
    hide IndexBits;
    IndexIsSmall(a, depth);
    IndexIsSmall(b, depth);
    if Index(a, depth) == Index(b, depth) {
      SameNumber(IndexBits(a, depth), IndexBits(b, depth));
    }
  }

  function L4Page(a: bv64): bv64
  {
    a & 0xff80_0000_0000
  }

  function L3Page(a: bv64): bv64
  {
    a & 0xffff_c000_0000
  }

  function L2Page(a: bv64): bv64
  {
    a & 0xffff_ffe0_0000
  }

  function L1Page(a: bv64): bv64
  {
    a & 0xffff_ffff_f000
  }

  /** The page an address is in, of the size that an entry of a table of that depth maps. */
  function PageOf(a: bv64, depth: nat): bv64
  {
    match depth
    case 0 => L4Page(a)
    case 1 => L3Page(a)
    case 2 => L2Page(a)
    case _ => L1Page(a)
  }

  predicate InPage(a: bv64, page: bv64, depth: nat)
  {
    PageOf(a, depth) == PageOf(page, depth)
  }

  function OffsetMask(depth: nat): bv64
  {
    match depth
    case 0 => 0x7f_ffff_ffff
    case 1 => 0x3fff_ffff
    case 2 => 0x1f_ffff
    case _ => 0xfff
  }

  function Offset(a: bv64, mask: bv64): bv64
  {
    a & mask
  }

  predicate IsVirtual(a: bv64)
  {
    a & 0x0000_ffff_ffff_ffff == a
  }

  predicate IsPage(page: bv64, depth: nat)
  {
    IsVirtual(page) && Offset(page, OffsetMask(depth)) == 0
  }

  /** The address is at most `mask` above the start of the page. */
  predicate IsNear(a: bv64, page: bv64, mask: bv64)
  {
    page <= a && a - page <= mask
  }

  function Distance(a: bv64, page: bv64): bv64
  {
    a - page
  }

  /** On 48-bit addresses a page is an interval, and the offset in it is the distance from its start. */
  lemma PageIsInterval(a: bv64, page: bv64, depth: nat)
    requires depth < 4 && IsPage(page, depth) && IsVirtual(a)
    ensures InPage(a, page, depth) <==> IsNear(a, page, OffsetMask(depth))
    ensures InPage(a, page, depth) ==> Offset(a, OffsetMask(depth)) == Distance(a, page)
  {
    hide *;
    if InPage(a, page, depth) {
      InPageIsNear(a, page, depth);
    } else if IsNear(a, page, OffsetMask(depth)) {
      NearIsInPage(a, page, depth);
    }
  }

  lemma InPageIsNear(a: bv64, b: bv64, depth: nat)
    requires depth < 4 && IsPage(b, depth) && IsVirtual(a) && InPage(a, b, depth)
    ensures IsNear(a, b, OffsetMask(depth)) && Offset(a, OffsetMask(depth)) == Distance(a, b)
  {
    hide L4Page, L3Page, L2Page, L1Page, IsVirtual, Offset, IsNear, Distance;
    if depth == 0 {
      L4InPage(a, b);
    } else if depth == 1 {
      L3InPage(a, b);
    } else if depth == 2 {
      L2InPage(a, b);
    } else {
      L1InPage(a, b);
    }
  }

  lemma NearIsInPage(a: bv64, b: bv64, depth: nat)
    requires depth < 4 && IsPage(b, depth) && IsVirtual(a) && IsNear(a, b, OffsetMask(depth))
    ensures InPage(a, b, depth)
  {
    hide L4Page, L3Page, L2Page, L1Page, IsVirtual, Offset, IsNear;
    if depth == 0 {
      L4Near(a, b);
    } else if depth == 1 {
      L3Near(a, b);
    } else if depth == 2 {
      L2Near(a, b);
    } else {
      L1Near(a, b);
    }
  }

  lemma L4InPage(a: bv64, b: bv64)
    requires IsVirtual(b) && Offset(b, 0x7f_ffff_ffff) == 0 && IsVirtual(a) && L4Page(a) == L4Page(b)
    ensures IsNear(a, b, 0x7f_ffff_ffff) && Offset(a, 0x7f_ffff_ffff) == Distance(a, b)
  {
    hide *;
    L4Split(a);
    L4Start(b);
  }

  lemma L4Split(a: bv64)
    requires IsVirtual(a)
    ensures Distance(a, L4Page(a)) == Offset(a, 0x7f_ffff_ffff) && IsNear(a, L4Page(a), 0x7f_ffff_ffff)
  {
  }

  lemma L4Start(b: bv64)
    requires IsVirtual(b) && Offset(b, 0x7f_ffff_ffff) == 0
    ensures L4Page(b) == b
  {
  }

  lemma L4Near(a: bv64, b: bv64)
    requires IsVirtual(b) && Offset(b, 0x7f_ffff_ffff) == 0 && IsVirtual(a) && IsNear(a, b, 0x7f_ffff_ffff)
    ensures L4Page(a) == L4Page(b)
  {
  }

  lemma L3InPage(a: bv64, b: bv64)
    requires IsVirtual(b) && Offset(b, 0x3fff_ffff) == 0 && IsVirtual(a) && L3Page(a) == L3Page(b)
    ensures IsNear(a, b, 0x3fff_ffff) && Offset(a, 0x3fff_ffff) == Distance(a, b)
  {
    hide *;
    L3Split(a);
    L3Start(b);
  }

  lemma L3Split(a: bv64)
    requires IsVirtual(a)
    ensures Distance(a, L3Page(a)) == Offset(a, 0x3fff_ffff) && IsNear(a, L3Page(a), 0x3fff_ffff)
  {
  }

  lemma L3Start(b: bv64)
    requires IsVirtual(b) && Offset(b, 0x3fff_ffff) == 0
    ensures L3Page(b) == b
  {
  }

  lemma L3Near(a: bv64, b: bv64)
    requires IsVirtual(b) && Offset(b, 0x3fff_ffff) == 0 && IsVirtual(a) && IsNear(a, b, 0x3fff_ffff)
    ensures L3Page(a) == L3Page(b)
  {
  }

  lemma L2InPage(a: bv64, b: bv64)
    requires IsVirtual(b) && Offset(b, 0x1f_ffff) == 0 && IsVirtual(a) && L2Page(a) == L2Page(b)
    ensures IsNear(a, b, 0x1f_ffff) && Offset(a, 0x1f_ffff) == Distance(a, b)
  {
    hide *;
    L2Split(a);
    L2Start(b);
  }

  lemma L2Split(a: bv64)
    requires IsVirtual(a)
    ensures Distance(a, L2Page(a)) == Offset(a, 0x1f_ffff) && IsNear(a, L2Page(a), 0x1f_ffff)
  {
  }

  lemma L2Start(b: bv64)
    requires IsVirtual(b) && Offset(b, 0x1f_ffff) == 0
    ensures L2Page(b) == b
  {
  }

  lemma L2Near(a: bv64, b: bv64)
    requires IsVirtual(b) && Offset(b, 0x1f_ffff) == 0 && IsVirtual(a) && IsNear(a, b, 0x1f_ffff)
    ensures L2Page(a) == L2Page(b)
  {
  }

  lemma L1InPage(a: bv64, b: bv64)
    requires IsVirtual(b) && Offset(b, 0xfff) == 0 && IsVirtual(a) && L1Page(a) == L1Page(b)
    ensures IsNear(a, b, 0xfff) && Offset(a, 0xfff) == Distance(a, b)
  {
    hide *;
    L1Split(a);
    L1Start(b);
  }

  lemma L1Split(a: bv64)
    requires IsVirtual(a)
    ensures Distance(a, L1Page(a)) == Offset(a, 0xfff) && IsNear(a, L1Page(a), 0xfff)
  {
  }

  lemma L1Start(b: bv64)
    requires IsVirtual(b) && Offset(b, 0xfff) == 0
    ensures L1Page(b) == b
  {
  }

  lemma L1Near(a: bv64, b: bv64)
    requires IsVirtual(b) && Offset(b, 0xfff) == 0 && IsVirtual(a) && IsNear(a, b, 0xfff)
    ensures L1Page(a) == L1Page(b)
  {
  }

  /** Two addresses are in the same page when their indices agree down to the depth. */
  lemma InPageByIndex(a: bv64, b: bv64, depth: nat)
    requires depth < 4
    ensures InPage(a, b, depth) <==> (depth == 0 || InPage(a, b, depth - 1)) && Index(a, depth) == Index(b, depth)
  {
    hide *;
    SameIndex(a, b, depth);
    if InPage(a, b, depth) {
      SamePageSameIndex(a, b, depth);
    } else if (depth == 0 || InPage(a, b, depth - 1)) && IndexBits(a, depth) == IndexBits(b, depth) {
      SameIndexSamePage(a, b, depth);
    }
  }

  lemma SamePageSameIndex(a: bv64, b: bv64, depth: nat)
    requires depth < 4 && InPage(a, b, depth)
    ensures (depth == 0 || InPage(a, b, depth - 1)) && IndexBits(a, depth) == IndexBits(b, depth)
  {
    hide L4Page, L3Page, L2Page, L1Page, L4Index, L3Index, L2Index, L1Index;
    if depth == 0 {
      L4SameIndex(a, b);
    } else if depth == 1 {
      L3SameIndex(a, b);
    } else if depth == 2 {
      L2SameIndex(a, b);
    } else {
      L1SameIndex(a, b);
    }
  }

  lemma SameIndexSamePage(a: bv64, b: bv64, depth: nat)
    requires depth < 4 && (depth == 0 || InPage(a, b, depth - 1)) && IndexBits(a, depth) == IndexBits(b, depth)
    ensures InPage(a, b, depth)
  {
    hide L4Page, L3Page, L2Page, L1Page, L4Index, L3Index, L2Index, L1Index;
    if depth == 0 {
      L4SamePage(a, b);
    } else if depth == 1 {
      L3SamePage(a, b);
    } else if depth == 2 {
      L2SamePage(a, b);
    } else {
      L1SamePage(a, b);
    }
  }

  lemma L4SameIndex(a: bv64, b: bv64)
    requires L4Page(a) == L4Page(b)
    ensures L4Index(a) == L4Index(b)
  {
  }

  lemma L4SamePage(a: bv64, b: bv64)
    requires L4Index(a) == L4Index(b)
    ensures L4Page(a) == L4Page(b)
  {
  }

  lemma L3SameIndex(a: bv64, b: bv64)
    requires L3Page(a) == L3Page(b)
    ensures L4Page(a) == L4Page(b) && L3Index(a) == L3Index(b)
  {
  }

  lemma L3SamePage(a: bv64, b: bv64)
    requires L4Page(a) == L4Page(b) && L3Index(a) == L3Index(b)
    ensures L3Page(a) == L3Page(b)
  {
    hide L4Page, L3Page, L3Index;
    L3Join(a);
    L3Join(b);
  }

  lemma L3Join(a: bv64)
    ensures L3Page(a) == L4Page(a) | (L3Index(a) << 30)
  {
  }

  lemma L2SameIndex(a: bv64, b: bv64)
    requires L2Page(a) == L2Page(b)
    ensures L3Page(a) == L3Page(b) && L2Index(a) == L2Index(b)
  {
  }

  lemma L2SamePage(a: bv64, b: bv64)
    requires L3Page(a) == L3Page(b) && L2Index(a) == L2Index(b)
    ensures L2Page(a) == L2Page(b)
  {
    hide L3Page, L2Page, L2Index;
    L2Join(a);
    L2Join(b);
  }

  lemma L2Join(a: bv64)
    ensures L2Page(a) == L3Page(a) | (L2Index(a) << 21)
  {
  }

  lemma L1SameIndex(a: bv64, b: bv64)
    requires L1Page(a) == L1Page(b)
    ensures L2Page(a) == L2Page(b) && L1Index(a) == L1Index(b)
  {
  }

  lemma L1SamePage(a: bv64, b: bv64)
    requires L2Page(a) == L2Page(b) && L1Index(a) == L1Index(b)
    ensures L1Page(a) == L1Page(b)
  {
    hide L2Page, L1Page, L1Index;
    L1Join(a);
    L1Join(b);
  }

  lemma L1Join(a: bv64)
    ensures L1Page(a) == L2Page(a) | (L1Index(a) << 12)
  {
  }
}
