/** The page tables (chapOS/student-distrib/paging.c) and what the processor makes of them, following
    section 4.3, 32-bit paging, of the Intel Software Developer's Manual, volume 3A. */
module Paging {
  import opened Arithmetic
  import opened Sizes

  const ENTRIES := 1024
  const KB4 := 0x1000
  const MB4 := 0x40_0000
  const MB8 := 0x80_0000
  const VIDEO := 0xB8000
  const USER_IMG_START := 0x800_0000
  const USER_IMG_END := 0x840_0000
  const TERM_VIR_ADDR := 0x840_1000
  const TERM_PHY_ADDR := 0x1C0_0000
  const MAX_USER_IMAGE := 6
  const ENABLE_USER_ENTRY := 7
  const INIT_4MB_KERNEL := 0x400083
  const USER_4MB_ENTRY := 0x87      // PD_SET_4MB | ALLOW_USER_LEVEL | PD_ENABLE_ENTRY

  // ------------------------------------------------------------- bits as arithmetic

  /** The model computes with numbers where the source shifts, masks and ors words; on 32-bit words
      both are the same. */
  lemma ShiftIsDivision(x: bv32)
    ensures x >> 22 == x / 0x40_0000 && x >> 12 == x / 0x1000
  {
  }

  lemma MaskIsRemainder(x: bv32)
    ensures x & 0x3FF == x % 0x400 && x & 0xFFFF_F000 == x - x % 0x1000 && x & 0xFFC0_0000 == x - x % 0x40_0000
  {
  }

  lemma OrIsSum(base: bv32, flags: bv32)
    requires base % 0x1000 == 0 && flags < 0x1000
    ensures base | flags == base + flags
  {
  }

  // ------------------------------------------------------------- the walk

  /** The three tables and the addresses of the two that directory entries point to. */
  datatype Tables = Tables(dir: seq<int>, kernel: seq<int>, user: seq<int>, kernelAddr: int, userAddr: int)

  /** What an access to a virtual address meets. */
  datatype Target = Fault | Phys(addr: int, user: bool)

  predicate Present(e: int) { e % 2 == 1 }
  predicate UserLevel(e: int) { e / 4 % 2 == 1 }
  predicate Large(e: int) { e / 0x80 % 2 == 1 }

  predicate AreTables(t: Tables)
  {
    && |t.dir| == ENTRIES && |t.kernel| == ENTRIES && |t.user| == ENTRIES
    && t.kernelAddr != t.userAddr && t.kernelAddr % KB4 == 0 && t.userAddr % KB4 == 0
    && 0 <= t.kernelAddr && 0 <= t.userAddr
  }

  /** The page table at an address. */
  function TableAt(t: Tables, addr: int): (r: seq<int>)
    requires AreTables(t)
    ensures |r| == ENTRIES
  {
    if addr == t.kernelAddr then t.kernel
    else if addr == t.userAddr then t.user
    else seq(ENTRIES, _ => 0)
  }

  /** The two-level walk: a 4MB page from the directory or a 4KB page from a table. */
  function Walk(t: Tables, va: int): Target
    requires AreTables(t) && 0 <= va < WORD32
  {
    var pde := t.dir[va / MB4];
    if !Present(pde) then Fault
    else if Large(pde) then Phys(pde - pde % MB4 + va % MB4, UserLevel(pde))
    else
      var pte := TableAt(t, pde - pde % KB4)[va / KB4 % ENTRIES];
      if !Present(pte) then Fault
      else Phys(pte - pte % KB4 + va % KB4, UserLevel(pde) && UserLevel(pte))
  }

  // ------------------------------------------------------------- the intended address space

  /** Which image is mapped (-1: none), whether vidmap was called, which terminal page is mapped. */
  datatype Space = Space(image: int, vidmap: bool, term: int)

  /** The physical frame of process p's image. */
  function ImageBase(p: int): int
  {
    (p + 2) * MB4
  }

  /** Where a virtual address belongs. */
  function Meaning(s: Space, va: int): Target
  {
    if VIDEO <= va < VIDEO + KB4 then Phys(va, false)
    else if MB4 <= va < MB8 then Phys(va, false)
    else if USER_IMG_START <= va < USER_IMG_END && s.image >= 0 then
      Phys(ImageBase(s.image) + va - USER_IMG_START, true)
    else if USER_IMG_END <= va < USER_IMG_END + KB4 && s.vidmap then Phys(VIDEO + va - USER_IMG_END, true)
    else if TERM_VIR_ADDR <= va < TERM_VIR_ADDR + KB4 && s.term >= 0 then
      Phys(TERM_PHY_ADDR + s.term * KB4 + va - TERM_VIR_ADDR, true)
    else Fault
  }

  function DirEntry(t: Tables, s: Space, i: int): int
  {
    if i == 0 then t.kernelAddr + 3
    else if i == 1 then INIT_4MB_KERNEL
    else if i == 0x20 && s.image >= 0 then ImageBase(s.image) + USER_4MB_ENTRY
    else if i == 0x21 && (s.vidmap || s.term >= 0) then t.userAddr + ENABLE_USER_ENTRY
    else 0
  }

  function UserEntry(s: Space, i: int): int
  {
    if i == 0 && s.vidmap then VIDEO + ENABLE_USER_ENTRY
    else if i == 1 && s.term >= 0 then TERM_PHY_ADDR + s.term * KB4 + ENABLE_USER_ENTRY
    else 0
  }

  predicate IsSpace(s: Space)
  {
    -1 <= s.image <= MAX_USER_IMAGE && -1 <= s.term < NUM_TERM
  }

  /** The entries that stand for an address space. */
  ghost predicate Stands(t: Tables, s: Space)
  {
    && AreTables(t) && IsSpace(s)
    && (forall i :: 0 <= i < ENTRIES ==> t.dir[i] == DirEntry(t, s, i))
    && (forall i :: 0 <= i < ENTRIES ==> t.kernel[i] == if i == 0xB8 then VIDEO + 3 else 0)
    && (forall i :: 0 <= i < ENTRIES ==> t.user[i] == UserEntry(s, i))
  }

  /** A table-sized entry: an aligned base with the flags 3 (kernel) or 7 (user). */
  lemma {:induction false} SmallEntry(base: int, flags: int)
    requires base >= 0 && base % KB4 == 0 && (flags == 3 || flags == 7)
    ensures Present(base + flags) && !Large(base + flags) && (UserLevel(base + flags) <==> flags == 7)
    ensures base + flags - (base + flags) % KB4 == base
  {
    var q, e := base / KB4, base + flags;
    QuotientIs(e, KB4, q, flags);
    QuotientIs(e, 2, 0x800 * q + flags / 2, 1);
    QuotientIs(e, 4, 0x400 * q + flags / 4, 3);
    QuotientIs(0x400 * q + flags / 4, 2, 0x200 * q, flags / 4);
    QuotientIs(e, 0x80, 0x20 * q, flags);
    QuotientIs(0x20 * q, 2, 0x10 * q, 0);
  }

  lemma {:induction false} LargeEntry(p: int)
    requires 0 <= p <= MAX_USER_IMAGE
    ensures var e := ImageBase(p) + USER_4MB_ENTRY;
            Present(e) && Large(e) && UserLevel(e) && e - e % MB4 == ImageBase(p)
  {
  }

  /** A walk through a page table. */
  lemma {:induction false} TableWalk(t: Tables, va: int, base: int, flags: int)
    requires AreTables(t) && 0 <= va < WORD32 && base >= 0 && base % KB4 == 0 && (flags == 3 || flags == 7)
    requires t.dir[va / MB4] == base + flags
    ensures var pte := TableAt(t, base)[va / KB4 % ENTRIES];
            Walk(t, va) == if !Present(pte) then Fault
                           else Phys(pte - pte % KB4 + va % KB4, flags == 7 && UserLevel(pte))
  {
    SmallEntry(base, flags);
  }

  /** Addresses in one page are in one directory entry. */
  lemma {:induction false} SamePage(a: int, b: int)
    requires 0 <= a && 0 <= b && a / KB4 == b / KB4
    ensures a / MB4 == b / MB4
  {
    var q := a / KB4;
    var d, e := q / ENTRIES, q % ENTRIES;
    assert q == d * ENTRIES + e && a == q * KB4 + a % KB4 && b == q * KB4 + b % KB4;
    QuotientIs(a, MB4, d, e * KB4 + a % KB4);
    QuotientIs(b, MB4, d, e * KB4 + b % KB4);
  }

  /** The walk when the two entries of an address lead to the video page. */
  lemma {:induction false} VideoPageWalk(t: Tables, virAddr: int)
    requires AreTables(t) && 0 <= virAddr < WORD32
    requires t.dir[virAddr / MB4] == t.userAddr + ENABLE_USER_ENTRY
    requires t.user[virAddr / KB4 % ENTRIES] == VIDEO + ENABLE_USER_ENTRY
    ensures forall va :: 0 <= va < WORD32 && va / KB4 == virAddr / KB4 ==> Walk(t, va) == Phys(VIDEO + va % KB4, true)
  {
    hide Walk, Large, Present, UserLevel;
    forall va | 0 <= va < WORD32 && va / KB4 == virAddr / KB4
      ensures Walk(t, va) == Phys(VIDEO + va % KB4, true)
    {
      SamePage(va, virAddr);
      TableWalk(t, va, t.userAddr, 7);
      SmallEntry(VIDEO, 7);
    }
  }

  lemma {:induction false} KernelWalk(t: Tables, s: Space, va: int)
    requires Stands(t, s) && 0 <= va < MB4
    ensures Walk(t, va) == Meaning(s, va)
  {
    TableWalk(t, va, t.kernelAddr, 3);
    SmallEntry(VIDEO, 3);
    assert va / KB4 % ENTRIES == va / KB4;
  }

  lemma {:induction false} UserWalk(t: Tables, s: Space, va: int)
    requires Stands(t, s) && USER_IMG_END <= va < USER_IMG_END + MB4
    ensures Walk(t, va) == Meaning(s, va)
  {
    if s.vidmap || s.term >= 0 {
      TableWalk(t, va, t.userAddr, 7);
      SmallEntry(VIDEO, 7);
      SmallEntry(TERM_PHY_ADDR + s.term * KB4, 7);
      assert va / KB4 % ENTRIES == (va - USER_IMG_END) / KB4;
    }
  }

  /** Walking the tables gives every virtual address its meaning. */
  lemma {:induction false} WalkIsMeaning(t: Tables, s: Space, va: int)
    requires Stands(t, s) && 0 <= va < WORD32
    ensures Walk(t, va) == Meaning(s, va)
  {
    var d := va / MB4;
    if d == 0 {
      KernelWalk(t, s, va);
    } else if d == 0x21 {
      UserWalk(t, s, va);
    } else if d == 0x20 && s.image >= 0 {
      LargeEntry(s.image);
    }
  }

  /** Two addresses meet in the same byte exactly when one is on the video page and the other is its
      vidmap alias, or when process 5 runs and the mapped terminal page lies in its image. */
  lemma {:induction false} AliasesExactly(s: Space, a: int, b: int)
    requires IsSpace(s) && 0 <= a < b < WORD32
    requires Meaning(s, a).Phys? && Meaning(s, b).Phys?
    ensures Meaning(s, a).addr == Meaning(s, b).addr
            <==> || (VIDEO <= a < VIDEO + KB4 && b == USER_IMG_END + a - VIDEO)
                 || (s.image == 5 && USER_IMG_START <= a < USER_IMG_END && TERM_VIR_ADDR <= b < TERM_VIR_ADDR + KB4
                     && a - USER_IMG_START == s.term * KB4 + b - TERM_VIR_ADDR)
  {
  }

  // ------------------------------------------------------------- the table code

  class Mmu {
    const pageDir: array<int>
    const pageTable: array<int>
    const userPageTable: array<int>
    const pageTableAddr: int
    const userPageTableAddr: int

    ghost predicate Valid()
      reads this, pageDir, pageTable, userPageTable
    {
      && AreTables(Now()) && pageDir != pageTable && pageDir != userPageTable && pageTable != userPageTable
    }

    ghost function Now(): Tables
      reads this, pageDir, pageTable, userPageTable
    {
      Tables(pageDir[..], pageTable[..], userPageTable[..], pageTableAddr, userPageTableAddr)
    }

    /** The linker places both tables at addresses that are multiples of 4096. */
    constructor (pageTableAddr: int, userPageTableAddr: int)
      requires pageTableAddr >= 0 && userPageTableAddr >= 0 && pageTableAddr != userPageTableAddr
      requires pageTableAddr % KB4 == 0 && userPageTableAddr % KB4 == 0
      ensures Valid() && fresh(pageDir) && fresh(pageTable) && fresh(userPageTable)
    {
      pageDir, pageTable, userPageTable := new int[ENTRIES](_ => 0), new int[ENTRIES](_ => 0), new int[ENTRIES](_ => 0);
      this.pageTableAddr, this.userPageTableAddr := pageTableAddr, userPageTableAddr;
    }

    method InitializePaging()
      requires Valid()
      modifies pageDir, pageTable, userPageTable
      ensures Valid() && Stands(Now(), Space(-1, false, -1))
    {
      for i := 0 to ENTRIES
        invariant forall j :: 0 <= j < i ==> pageDir[j] == pageTable[j] == userPageTable[j] == 0
      {
        pageDir[i] := 0;
        pageTable[i] := 0;
        userPageTable[i] := 0;
      }
      pageDir[0] := pageTableAddr + 3;
      pageTable[0xB8] := VIDEO;
      pageTable[0xB8] := pageTable[0xB8] + 3;
      pageDir[1] := pageDir[1] + INIT_4MB_KERNEL;
    }

    /** new_userVID_page: the page of any address becomes the video page, and two entries change. */
    method NewUserVidPage(virAddr: int, ghost s: Space)
      requires Valid() && Stands(Now(), s) && 0 <= virAddr < WORD32
      modifies pageDir, userPageTable
      ensures Valid()
      ensures pageDir[..] == old(pageDir[..])[virAddr / MB4 := userPageTableAddr + ENABLE_USER_ENTRY]
      ensures userPageTable[..] == old(userPageTable[..])[virAddr / KB4 % ENTRIES := VIDEO + ENABLE_USER_ENTRY]
      ensures forall va :: 0 <= va < WORD32 && va / KB4 == virAddr / KB4 ==>
                Walk(Now(), va) == Phys(VIDEO + va % KB4, true)
      ensures virAddr == USER_IMG_END ==> Stands(Now(), s.(vidmap := true))
    {
      pageDir[virAddr / MB4] := userPageTableAddr + ENABLE_USER_ENTRY;
      userPageTable[virAddr / KB4 % ENTRIES] := VIDEO + ENABLE_USER_ENTRY;
      VideoPageWalk(Now(), virAddr);
    }

    method MapTermVid(termId: int, ghost s: Space) returns (ret: int)
      requires Valid() && Stands(Now(), s) && termId >= 0
      modifies pageDir, userPageTable
      ensures Valid() && Stands(Now(), if termId < NUM_TERM then s.(term := termId) else s)
      ensures ret == if termId < NUM_TERM then 0 else -1
    {
      if termId >= NUM_TERM {
        return -1;
      }
      pageDir[TERM_VIR_ADDR / MB4] := userPageTableAddr + ENABLE_USER_ENTRY;
      userPageTable[TERM_VIR_ADDR / KB4 % ENTRIES] := TERM_PHY_ADDR + termId * KB4 + ENABLE_USER_ENTRY;
      ret := 0;
    }

    method MapUserImgPage(processId: int, ghost s: Space) returns (ret: int)
      requires Valid() && Stands(Now(), s)
      modifies pageDir
      ensures Valid() && Stands(Now(), if 0 <= processId <= MAX_USER_IMAGE then s.(image := processId) else s)
      ensures ret == if 0 <= processId <= MAX_USER_IMAGE then 0 else -1
    {
      if processId > MAX_USER_IMAGE || processId < 0 {
        return -1;
      }
      pageDir[0x20] := (processId + 2) * MB8 / 2 + USER_4MB_ENTRY;
      ret := 0;
    }

    /** One access of the processor. */
    method Translate(va: int, ghost s: Space) returns (target: Target)
      requires Valid() && Stands(Now(), s) && 0 <= va < WORD32
      ensures target == Meaning(s, va)
    {
      WalkIsMeaning(Now(), s, va);
      var pde := pageDir[va / MB4];
      if !Present(pde) {
        return Fault;
      }
      if Large(pde) {
        return Phys(pde - pde % MB4 + va % MB4, UserLevel(pde));
      }
      var base := pde - pde % KB4;
      var pte := if base == pageTableAddr then pageTable[va / KB4 % ENTRIES]
                 else if base == userPageTableAddr then userPageTable[va / KB4 % ENTRIES] else 0;
      if !Present(pte) {
        return Fault;
      }
      target := Phys(pte - pte % KB4 + va % KB4, UserLevel(pde) && UserLevel(pte));
    }
  }
}
