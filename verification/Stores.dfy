/** Physical memory, and what the kernel's own stores through the page tables do to it. */
module Stores {
  import opened Bytes
  import opened Paging
  import opened Sizes

  type Memory = imap<int, byte>

  /** The 4MB page with the kernel, its stacks and the PCBs. */
  predicate InKernelPage(a: int) {
    MB4 <= a < MB8
  }

  predicate InImage(p: int, a: int) {
    ImageBase(p) <= a < ImageBase(p) + MB4
  }

  predicate InTerminalPage(term: int, a: int) {
    TERM_PHY_ADDR + term * KB4 <= a < TERM_PHY_ADDR + (term + 1) * KB4
  }

  ghost predicate IsTotal(mem: Memory) {
    forall a :: a in mem
  }

  /** The memory of the programs: everything but the kernel's page. */
  ghost predicate IsOutside(mem: Memory) {
    forall a :: a in mem <==> !InKernelPage(a)
  }

  // ------------------------------------------------------------- stores

  /** The i-th address from va on; addresses wrap. */
  function At(va: int, i: nat): (r: int)
    ensures 0 <= r < WORD32
  {
    (va + i) % WORD32
  }

  lemma {:induction false} AtInjective(va: int, i: nat, j: nat)
    requires i < WORD32 && j < WORD32 && At(va, i) == At(va, j)
    ensures i == j
  {
    var a, b := (va + i) / WORD32, (va + j) / WORD32;
    assert va + i == a * WORD32 + At(va, i) && va + j == b * WORD32 + At(va, j);
  }

  /** An access to va meets the byte at a. */
  predicate Hits(s: Space, va: int, a: int)
  {
    Meaning(s, va).Phys? && Meaning(s, va).addr == a
  }

  /** How many of n bytes from va on can be stored before the first fault. */
  function Reached(s: Space, va: int, n: nat): (r: nat)
    ensures r <= n && forall i :: 0 <= i < r ==> Meaning(s, At(va, i)).Phys?
    ensures r < n ==> Meaning(s, At(va, r)).Fault?
  {
    if n == 0 then 0
    else
      var r := Reached(s, va, n - 1);
      if r == n - 1 && Meaning(s, At(va, r)).Phys? then n else r
  }

  lemma {:induction false} ReachedIs(s: Space, va: int, n: nat, r: nat)
    requires r <= n && (forall i :: 0 <= i < r ==> Meaning(s, At(va, i)).Phys?)
    requires r < n ==> Meaning(s, At(va, r)).Fault?
    ensures Reached(s, va, n) == r
  {
  }

  /** Memory after the kernel has stored bytes from va on. */
  ghost function Written(mem: Memory, s: Space, va: int, bytes: seq<byte>): Memory
  {
    if bytes == [] then mem
    else
      var last := |bytes| - 1;
      var before := Written(mem, s, va, bytes[..last]);
      match Meaning(s, At(va, last))
      case Phys(a, user) => before[a := bytes[last]]
      case Fault => before
  }

  /** Memory after the kernel has stored bytes from va on, up to the first fault. */
  ghost function Stuffed(mem: Memory, s: Space, va: int, bytes: seq<byte>): Memory
  {
    Written(mem, s, va, bytes[..Reached(s, va, |bytes|)])
  }

  lemma {:induction false} WrittenMore(mem: Memory, s: Space, va: int, bytes: seq<byte>, i: nat)
    requires i < |bytes| && Meaning(s, At(va, i)).Phys?
    ensures Written(mem, s, va, bytes[..i + 1])
            == Written(mem, s, va, bytes[..i])[Meaning(s, At(va, i)).addr := bytes[i]]
  {
    assert bytes[..i + 1][..i] == bytes[..i];
  }

  /** A byte that no store hits stays. */
  lemma {:induction false} WrittenElsewhere(mem: Memory, s: Space, va: int, bytes: seq<byte>, a: int)
    requires forall i :: 0 <= i < |bytes| ==> !Hits(s, At(va, i), a)
    ensures var w := Written(mem, s, va, bytes);
            (a in w <==> a in mem) && (a in mem ==> w[a] == mem[a])
  {
    if bytes != [] {
      var last := |bytes| - 1;
      WrittenElsewhere(mem, s, va, bytes[..last], a);
      assert !Hits(s, At(va, last), a);
    }
  }

  /** A byte that is hit once holds what was stored there. */
  lemma {:induction false} WrittenOnce(mem: Memory, s: Space, va: int, bytes: seq<byte>, a: int, i: nat)
    requires i < |bytes| && Hits(s, At(va, i), a)
    requires forall j :: 0 <= j < |bytes| && Hits(s, At(va, j), a) ==> j == i
    ensures var w := Written(mem, s, va, bytes);
            a in w && w[a] == bytes[i]
  {
    var last := |bytes| - 1;
    if i < last {
      WrittenOnce(mem, s, va, bytes[..last], a, i);
      assert !Hits(s, At(va, last), a);
    }
  }

  /** No two of n stores hit the same byte. */
  ghost predicate HitOnce(s: Space, va: int, n: nat, a: int)
  {
    forall i, j :: 0 <= i < n && 0 <= j < n && Hits(s, At(va, i), a) && Hits(s, At(va, j), a) ==> i == j
  }

  /** An area of memory stays as it is exactly when every stored byte that hits it is there already,
      provided that no two stores hit the same byte. */
  lemma {:induction false} AreaKeptExactly(mem: Memory, s: Space, va: int, bytes: seq<byte>, lo: int, hi: int)
    requires forall a :: lo <= a < hi ==> a in mem
    requires forall a :: lo <= a < hi ==> HitOnce(s, va, |bytes|, a)
    ensures AreaKept(mem, Written(mem, s, va, bytes), lo, hi) <==> AddsNothing(mem, s, va, bytes, lo, hi)
  {
    hide Written, Hits, At;
    var w := Written(mem, s, va, bytes);
    forall i, a | 0 <= i < |bytes| && lo <= a < hi && Hits(s, At(va, i), a)
      ensures a in w && w[a] == bytes[i]
    {
      assert HitOnce(s, va, |bytes|, a);
      WrittenOnce(mem, s, va, bytes, a, i);
    }
    forall a | lo <= a < hi && forall i :: 0 <= i < |bytes| ==> !Hits(s, At(va, i), a)
      ensures a in w && w[a] == mem[a]
    {
      WrittenElsewhere(mem, s, va, bytes, a);
    }
  }

  ghost predicate AreaKept(mem: Memory, mem': Memory, lo: int, hi: int)
  {
    forall a :: lo <= a < hi && a in mem ==> a in mem' && mem'[a] == mem[a]
  }

  /** Every byte that hits the area equals what is there. */
  ghost predicate AddsNothing(mem: Memory, s: Space, va: int, bytes: seq<byte>, lo: int, hi: int)
    requires forall a :: lo <= a < hi ==> a in mem
  {
    forall i, a :: 0 <= i < |bytes| && lo <= a < hi && Hits(s, At(va, i), a) ==> bytes[i] == mem[a]
  }

  // ------------------------------------------------------------- the kernel's page

  /** The kernel's page is reached at its own addresses and nowhere else. */
  lemma {:induction false} KernelPageIsIdentity(s: Space, va: int, a: int)
    requires IsSpace(s) && 0 <= va < WORD32 && InKernelPage(a)
    ensures Hits(s, va, a) <==> va == a
  {
  }

  /** For every address and all bytes: the kernel's stores leave its own page as it is if and only if
      none of the bytes lands in it, or those that do are there already. */
  lemma {:induction false} KernelPageKeptExactly(mem: Memory, s: Space, va: int, bytes: seq<byte>)
    requires IsTotal(mem) && IsSpace(s) && |bytes| <= WORD32
    ensures AreaKept(mem, Written(mem, s, va, bytes), MB4, MB8)
            <==> forall i :: 0 <= i < |bytes| && InKernelPage(At(va, i)) ==> bytes[i] == mem[At(va, i)]
  {
    forall i, a | 0 <= i < |bytes| && MB4 <= a < MB8
      ensures Hits(s, At(va, i), a) <==> At(va, i) == a
    {
      KernelPageIsIdentity(s, At(va, i), a);
    }
    hide Hits, At, Written;
    forall a | MB4 <= a < MB8
      ensures HitOnce(s, va, |bytes|, a)
    {
      forall i, j | 0 <= i < |bytes| && 0 <= j < |bytes| && Hits(s, At(va, i), a) && Hits(s, At(va, j), a)
        ensures i == j
      {
        AtInjective(va, i, j);
      }
    }
    AreaKeptExactly(mem, s, va, bytes, MB4, MB8);
  }

  /** None of n bytes from va on lies in the kernel's page. */
  ghost predicate SparesKernel(va: int, n: nat)
  {
    forall i :: 0 <= i < n ==> !InKernelPage(At(va, i))
  }

  /** A range that ends below the kernel's page or starts behind it. */
  lemma {:induction false} RangeSparesKernel(va: int, n: nat)
    requires 0 <= va && va + n <= WORD32 && (va + n <= MB4 || va >= MB8)
    ensures SparesKernel(va, n)
  {
    forall i | 0 <= i < n
      ensures !InKernelPage(At(va, i))
    {
      assert At(va, i) == va + i;
    }
  }

  /** Stores that spare the kernel's page stay in the memory of the programs. */
  lemma {:induction false} WrittenIsOutside(mem: Memory, s: Space, va: int, bytes: seq<byte>)
    requires IsOutside(mem) && IsSpace(s) && SparesKernel(va, |bytes|)
    ensures IsOutside(Written(mem, s, va, bytes))
  {
    if bytes != [] {
      var last := |bytes| - 1;
      assert SparesKernel(va, last);
      WrittenIsOutside(mem, s, va, bytes[..last]);
      var a := if Meaning(s, At(va, last)).Phys? then Meaning(s, At(va, last)).addr else 0;
      if InKernelPage(a) {
        KernelPageIsIdentity(s, At(va, last), a);
      }
    }
  }

  // ------------------------------------------------------------- images and terminal pages

  /** No store hits the image of another process from 0 to 4. */
  lemma {:induction false} WrittenSparesImages(mem: Memory, s: Space, va: int, bytes: seq<byte>, p: int, a: int)
    requires IsSpace(s) && 0 <= p <= 4 && p != s.image && InImage(p, a)
    ensures var w := Written(mem, s, va, bytes);
            (a in w <==> a in mem) && (a in mem ==> w[a] == mem[a])
  {
    forall i | 0 <= i < |bytes|
      ensures !Hits(s, At(va, i), a)
    {
      OtherImageIsNotHit(s, At(va, i), p, a);
    }
    hide Written;
    WrittenElsewhere(mem, s, va, bytes, a);
  }

  lemma {:induction false} OtherImageIsNotHit(s: Space, va: int, p: int, a: int)
    requires IsSpace(s) && 0 <= p <= 4 && p != s.image && InImage(p, a)
    ensures !Hits(s, va, a)
  {
  }

  /** A terminal's page is reached through the mapped slot, and by process 5 at the start of its image. */
  lemma {:induction false} WhereThePageIs(s: Space, va: int, t: int, a: int)
    requires IsSpace(s) && 0 <= t < NUM_TERM && InTerminalPage(t, a)
    ensures Hits(s, va, a)
            <==> || (s.term == t && va == TERM_VIR_ADDR + a - (TERM_PHY_ADDR + t * KB4))
                 || (s.image == 5 && va == USER_IMG_START + a - ImageBase(5))
  {
  }

  /** A delivery is too short to reach a byte of the page in both ways. */
  lemma {:induction false} PageHitOnce(s: Space, va: int, n: nat, t: int, a: int, i: nat, j: nat)
    requires IsSpace(s) && 0 <= t < NUM_TERM && InTerminalPage(t, a) && n <= MB4 - KB4 && i < n && j < n
    requires Hits(s, At(va, i), a) && Hits(s, At(va, j), a)
    ensures i == j
  {
    WhereThePageIs(s, At(va, i), t, a);
    WhereThePageIs(s, At(va, j), t, a);
    if At(va, i) == At(va, j) {
      AtInjective(va, i, j);
    } else {
      AtDistance(va, i, j);
    }
  }

  lemma {:induction false} AtDistance(va: int, i: nat, j: nat)
    requires i < WORD32 && j < WORD32
    ensures var d := At(va, i) - At(va, j);
            d == i - j || d == i - j + WORD32 || d == i - j - WORD32
  {
    var a, b := (va + i) / WORD32, (va + j) / WORD32;
    assert va + i == a * WORD32 + At(va, i) && va + j == b * WORD32 + At(va, j);
    assert -2 < a - b < 2;
  }

  /** Stores leave a terminal's page as it is if and only if every byte that lands in it is there
      already. */
  lemma {:induction false} TerminalPageKeptExactly(mem: Memory, s: Space, va: int, bytes: seq<byte>, t: int)
    requires IsOutside(mem) && IsSpace(s) && 0 <= t < NUM_TERM && |bytes| <= MB4 - KB4
    ensures var lo, hi := TERM_PHY_ADDR + t * KB4, TERM_PHY_ADDR + (t + 1) * KB4;
            AreaKept(mem, Written(mem, s, va, bytes), lo, hi) <==> AddsNothing(mem, s, va, bytes, lo, hi)
  {
    var lo, hi := TERM_PHY_ADDR + t * KB4, TERM_PHY_ADDR + (t + 1) * KB4;
    hide Hits, At, Written;
    forall a | lo <= a < hi
      ensures HitOnce(s, va, |bytes|, a)
    {
      forall i, j | 0 <= i < |bytes| && 0 <= j < |bytes| && Hits(s, At(va, i), a) && Hits(s, At(va, j), a)
        ensures i == j
      {
        PageHitOnce(s, va, |bytes|, t, a, i, j);
      }
    }
    AreaKeptExactly(mem, s, va, bytes, lo, hi);
  }

  // ------------------------------------------------------------- copies

  /** Memory after a file was copied to an address. */
  ghost function Loaded(mem: Memory, base: int, content: seq<byte>): Memory
  {
    imap a: int | a in mem :: if base <= a < base + |content| then content[a - base] else mem[a]
  }

  /** The byte at a after n bytes were copied from src to dest. */
  ghost function CopiedByte(mem: Memory, dest: int, src: int, n: int, a: int): byte
    requires a in mem
  {
    if dest <= a < dest + n && a - dest + src in mem then mem[a - dest + src] else mem[a]
  }

  ghost function CopiedMem(mem: Memory, dest: int, src: int, n: int): Memory
  {
    imap a: int | a in mem :: CopiedByte(mem, dest, src, n, a)
  }
}
