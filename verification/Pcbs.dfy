/** Process control blocks as bytes of physical memory (chapOS/student-distrib/file_sys_module.h,
    chapOS/student-distrib/system_call.h). */
module Pcbs {
  import opened Bytes
  import opened Paging
  import opened Sizes
  import opened Stores

  const STACK_8KB := 0x2000
  const MAX_PCBS := 6
  const MAX_FILES := 8
  const ARG_SIZE := 100

  // offsets in a PCB
  const FD_SIZE := 16
  const FD_OPS := 0
  const FD_INODE := 4
  const FD_POS := 8
  const FD_FLAGS := 12
  const ARG_BUFF := 128
  const PROC_NUM := 484
  const KSP := 488
  const KBP := 492
  const PARENT_NUM := 496
  const PARENT_KSP := 500
  const PARENT_KBP := 504
  const PCB_SIZE := 512

  // the addresses of the jump tables are link-time constants; these stand for them
  const NO_FILE_OPS: dword := 1
  const STDIN_OPS: dword := 2
  const STDOUT_OPS: dword := 3
  const FILE_OPS: dword := 4
  const DIR_OPS: dword := 5
  const RTC_OPS: dword := 6

  datatype Fd = Fd(ops: dword, inode: dword, filePos: dword, flags: dword)

  type Fds = s: seq<Fd> | |s| == 8 witness seq(8, _ => Fd(0, 0, 0, 0))

  type ArgBuff = s: seq<byte> | |s| == 100 witness seq(100, _ => 0)

  datatype Pcb = Pcb(fDescs: Fds, argBuff: ArgBuff, procNum: byte, ksp: dword, kbp: dword,
                     parentProcNum: byte, parentKsp: dword, parentKbp: dword)

  /** The PCB of process id lies at the bottom of its 8KB kernel stack. */
  function PcbAddr(id: int): int
  {
    MB8 - STACK_8KB * (id + 1)
  }

  // ------------------------------------------------------------- words in memory

  /** A little-endian word. */
  function GetWord(mem: Memory, a: int): (r: dword)
    requires IsTotal(mem)
  {
    var b0: int, b1: int, b2: int, b3: int := mem[a], mem[a + 1], mem[a + 2], mem[a + 3];
    b0 + 0x100 * b1 + 0x1_0000 * b2 + 0x100_0000 * b3
  }

  function PutWord(mem: Memory, a: int, w: dword): Memory
  {
    var b0: byte, b1: byte := w % 0x100, w / 0x100 % 0x100;
    var b2: byte, b3: byte := w / 0x1_0000 % 0x100, w / 0x100_0000;
    mem[a := b0][a + 1 := b1][a + 2 := b2][a + 3 := b3]
  }

  lemma {:induction false} PutChangesFour(mem: Memory, a: int, w: dword)
    requires IsTotal(mem)
    ensures IsTotal(PutWord(mem, a, w)) && forall x :: !(a <= x < a + 4) ==> PutWord(mem, a, w)[x] == mem[x]
  {
  }

  /** The lowest byte of a word comes first. */
  lemma {:induction false} PutBytes(mem: Memory, a: int, w: dword)
    requires IsTotal(mem) && IsTotal(PutWord(mem, a, w))
    ensures var m := PutWord(mem, a, w);
            && m[a] == w % 0x100 && m[a + 1] == w / 0x100 % 0x100
            && m[a + 2] == w / 0x1_0000 % 0x100 && m[a + 3] == w / 0x100_0000
  {
  }

  lemma {:induction false} PutGet(mem: Memory, a: int, w: dword)
    requires IsTotal(mem) && IsTotal(PutWord(mem, a, w))
    ensures GetWord(PutWord(mem, a, w), a) == w
  {
    var one: int, two: int := w / 0x100, w / 0x1_0000;
    assert w == one * 0x100 + w % 0x100 && one == two * 0x100 + one % 0x100;
    assert two == w / 0x100_0000 * 0x100 + two % 0x100;
  }

  /** What two memories agree on. */
  ghost predicate Agree(mem: Memory, mem': Memory, lo: int, hi: int)
    requires IsTotal(mem) && IsTotal(mem')
  {
    forall x :: lo <= x < hi ==> mem'[x] == mem[x]
  }

  lemma {:induction false} SameWord(mem: Memory, mem': Memory, a: int)
    requires IsTotal(mem) && IsTotal(mem') && Agree(mem, mem', a, a + 4)
    ensures GetWord(mem', a) == GetWord(mem, a)
  {
  }

  lemma {:induction false} WordAfterPut(mem: Memory, a: int, w: dword, b: int)
    requires IsTotal(mem) && IsTotal(PutWord(mem, a, w)) && (a == b || b + 4 <= a || a + 4 <= b)
    ensures GetWord(PutWord(mem, a, w), b) == if a == b then w else GetWord(mem, b)
  {
    PutChangesFour(mem, a, w);
    hide PutWord, GetWord;
    if a == b {
      PutGet(mem, a, w);
    } else {
      SameWord(mem, PutWord(mem, a, w), b);
    }
  }

  // ------------------------------------------------------------- reading a PCB

  function FdAt(mem: Memory, addr: int, j: int): Fd
    requires IsTotal(mem)
  {
    var at := addr + FD_SIZE * j;
    Fd(GetWord(mem, at + FD_OPS), GetWord(mem, at + FD_INODE), GetWord(mem, at + FD_POS), GetWord(mem, at + FD_FLAGS))
  }

  function FdsAt(mem: Memory, addr: int): (r: Fds)
    requires IsTotal(mem)
    ensures forall j :: 0 <= j < MAX_FILES ==> r[j] == FdAt(mem, addr, j)
  {
    seq(MAX_FILES, j requires 0 <= j < MAX_FILES => FdAt(mem, addr, j))
  }

  function ArgAt(mem: Memory, addr: int): (r: ArgBuff)
    requires IsTotal(mem)
    ensures forall k :: 0 <= k < ARG_SIZE ==> r[k] == mem[addr + ARG_BUFF + k]
  {
    seq<byte>(ARG_SIZE, k requires 0 <= k < ARG_SIZE => mem[addr + ARG_BUFF + k])
  }

  function PcbAt(mem: Memory, addr: int): Pcb
    requires IsTotal(mem)
  {
    Pcb(FdsAt(mem, addr), ArgAt(mem, addr), mem[addr + PROC_NUM], GetWord(mem, addr + KSP), GetWord(mem, addr + KBP),
        mem[addr + PARENT_NUM], GetWord(mem, addr + PARENT_KSP), GetWord(mem, addr + PARENT_KBP))
  }

  lemma {:induction false} SameFd(mem: Memory, mem': Memory, addr: int, j: int)
    requires IsTotal(mem) && IsTotal(mem') && Agree(mem, mem', addr + FD_SIZE * j, addr + FD_SIZE * j + FD_SIZE)
    ensures FdAt(mem', addr, j) == FdAt(mem, addr, j)
  {
    var at := addr + FD_SIZE * j;
    SameWord(mem, mem', at + FD_OPS);
    SameWord(mem, mem', at + FD_INODE);
    SameWord(mem, mem', at + FD_POS);
    SameWord(mem, mem', at + FD_FLAGS);
  }

  lemma {:induction false} SameFds(mem: Memory, mem': Memory, addr: int)
    requires IsTotal(mem) && IsTotal(mem') && Agree(mem, mem', addr, addr + ARG_BUFF)
    ensures FdsAt(mem', addr) == FdsAt(mem, addr)
  {
    forall j | 0 <= j < MAX_FILES
      ensures FdAt(mem', addr, j) == FdAt(mem, addr, j)
    {
      SameFd(mem, mem', addr, j);
    }
  }

  lemma {:induction false} SameTail(mem: Memory, mem': Memory, addr: int)
    requires IsTotal(mem) && IsTotal(mem') && Agree(mem, mem', addr + PROC_NUM, addr + PCB_SIZE)
    ensures var p, p' := PcbAt(mem, addr), PcbAt(mem', addr);
            && p'.procNum == p.procNum && p'.ksp == p.ksp && p'.kbp == p.kbp && p'.parentProcNum == p.parentProcNum
            && p'.parentKsp == p.parentKsp && p'.parentKbp == p.parentKbp
  {
    hide FdsAt, ArgAt, GetWord;
    SameWord(mem, mem', addr + KSP);
    SameWord(mem, mem', addr + KBP);
    SameWord(mem, mem', addr + PARENT_KSP);
    SameWord(mem, mem', addr + PARENT_KBP);
  }

  lemma {:induction false} SamePcb(mem: Memory, mem': Memory, addr: int)
    requires IsTotal(mem) && IsTotal(mem') && Agree(mem, mem', addr, addr + PCB_SIZE)
    ensures PcbAt(mem', addr) == PcbAt(mem, addr)
  {
    hide FdsAt, GetWord;
    SameFds(mem, mem', addr);
    SameTail(mem, mem', addr);
    assert ArgAt(mem', addr) == ArgAt(mem, addr);
  }

  // ------------------------------------------------------------- writing fields

  function WithWord(fd: Fd, k: int, w: dword): Fd
  {
    if k == FD_OPS then fd.(ops := w)
    else if k == FD_INODE then fd.(inode := w)
    else if k == FD_POS then fd.(filePos := w)
    else fd.(flags := w)
  }

  predicate IsFdField(k: int) {
    k == FD_OPS || k == FD_INODE || k == FD_POS || k == FD_FLAGS
  }

  lemma {:induction false} PutOneFd(mem: Memory, addr: int, j: int, k: int, w: dword)
    requires IsTotal(mem) && IsTotal(PutWord(mem, addr + FD_SIZE * j + k, w)) && IsFdField(k)
    ensures FdAt(PutWord(mem, addr + FD_SIZE * j + k, w), addr, j) == WithWord(FdAt(mem, addr, j), k, w)
  {
    hide PutWord, GetWord;
    var at := addr + FD_SIZE * j;
    WordAfterPut(mem, at + k, w, at + FD_OPS);
    WordAfterPut(mem, at + k, w, at + FD_INODE);
    WordAfterPut(mem, at + k, w, at + FD_POS);
    WordAfterPut(mem, at + k, w, at + FD_FLAGS);
  }

  lemma {:induction false} PutFdElsewhere(mem: Memory, addr: int, j: int, k: int, w: dword)
    requires IsTotal(mem) && 0 <= j < MAX_FILES && IsFdField(k)
    ensures var mem' := PutWord(mem, addr + FD_SIZE * j + k, w);
            && IsTotal(mem') && ArgAt(mem', addr) == ArgAt(mem, addr)
            && Agree(mem, mem', addr + PROC_NUM, addr + PCB_SIZE)
            && forall i :: 0 <= i < MAX_FILES && i != j ==> FdAt(mem', addr, i) == FdAt(mem, addr, i)
  {
    var mem' := PutWord(mem, addr + FD_SIZE * j + k, w);
    PutChangesFour(mem, addr + FD_SIZE * j + k, w);
    hide PutWord, FdAt;
    forall i | 0 <= i < MAX_FILES && i != j
      ensures FdAt(mem', addr, i) == FdAt(mem, addr, i)
    {
      SameFd(mem, mem', addr, i);
    }
  }

  function WithFd(pcb: Pcb, fd: int, desc: Fd): Pcb
    requires 0 <= fd < MAX_FILES
  {
    pcb.(fDescs := pcb.fDescs[fd := desc])
  }

  function WithField(pcb: Pcb, fd: int, field: int, w: dword): Pcb
    requires 0 <= fd < MAX_FILES
  {
    WithFd(pcb, fd, WithWord(pcb.fDescs[fd], field, w))
  }

  lemma {:induction false} PutFd(mem: Memory, addr: int, j: int, k: int, w: dword)
    requires IsTotal(mem) && 0 <= j < MAX_FILES && IsFdField(k)
    ensures IsTotal(PutWord(mem, addr + FD_SIZE * j + k, w))
    ensures PcbAt(PutWord(mem, addr + FD_SIZE * j + k, w), addr) == WithField(PcbAt(mem, addr), j, k, w)
  {
    hide PutWord, GetWord, FdAt, WithWord, ArgAt;
    var mem' := PutWord(mem, addr + FD_SIZE * j + k, w);
    PutFdElsewhere(mem, addr, j, k, w);
    SameTail(mem, mem', addr);
    PutOneFd(mem, addr, j, k, w);
    assert FdsAt(mem', addr) == FdsAt(mem, addr)[j := WithWord(FdAt(mem, addr, j), k, w)];
  }

  lemma {:induction false} PutArgByte(mem: Memory, addr: int, k: int, b: byte)
    requires IsTotal(mem) && 0 <= k < ARG_SIZE
    ensures var mem' := mem[addr + ARG_BUFF + k := b];
            IsTotal(mem') && PcbAt(mem', addr) == PcbAt(mem, addr).(argBuff := ArgAt(mem, addr)[k := b])
  {
    var mem' := mem[addr + ARG_BUFF + k := b];
    hide FdsAt, GetWord;
    SameFds(mem, mem', addr);
    SameTail(mem, mem', addr);
    assert ArgAt(mem', addr) == ArgAt(mem, addr)[k := b];
  }

  /** The four saved registers. */
  function WithTail(pcb: Pcb, off: int, w: dword): Pcb
  {
    if off == KSP then pcb.(ksp := w)
    else if off == KBP then pcb.(kbp := w)
    else if off == PARENT_KSP then pcb.(parentKsp := w)
    else pcb.(parentKbp := w)
  }

  predicate IsTailField(off: int) {
    off == KSP || off == KBP || off == PARENT_KSP || off == PARENT_KBP
  }

  lemma {:induction false} PutTail(mem: Memory, addr: int, off: int, w: dword)
    requires IsTotal(mem) && IsTailField(off)
    ensures var mem' := PutWord(mem, addr + off, w);
            IsTotal(mem') && PcbAt(mem', addr) == WithTail(PcbAt(mem, addr), off, w)
  {
    var mem' := PutWord(mem, addr + off, w);
    PutChangesFour(mem, addr + off, w);
    SameFds(mem, mem', addr);
    assert ArgAt(mem', addr) == ArgAt(mem, addr);
    WordAfterPut(mem, addr + off, w, addr + KSP);
    WordAfterPut(mem, addr + off, w, addr + KBP);
    WordAfterPut(mem, addr + off, w, addr + PARENT_KSP);
    WordAfterPut(mem, addr + off, w, addr + PARENT_KBP);
    hide PutWord, GetWord, FdsAt;
  }

  /** The two process ids. */
  function WithNumber(pcb: Pcb, field: int, b: byte): Pcb
  {
    if field == PROC_NUM then pcb.(procNum := b) else pcb.(parentProcNum := b)
  }

  lemma {:induction false} PutNumber(mem: Memory, addr: int, off: int, b: byte)
    requires IsTotal(mem) && (off == PROC_NUM || off == PARENT_NUM)
    ensures IsTotal(mem[addr + off := b])
    ensures PcbAt(mem[addr + off := b], addr) == WithNumber(PcbAt(mem, addr), off, b)
  {
    PutNum(mem, addr, off, b);
    hide FdsAt, GetWord, ArgAt;
  }

  lemma {:induction false} PutNum(mem: Memory, addr: int, off: int, b: byte)
    requires IsTotal(mem) && (off == PROC_NUM || off == PARENT_NUM)
    ensures var p, p' := PcbAt(mem, addr), PcbAt(mem[addr + off := b], addr);
            && p'.fDescs == p.fDescs && p'.argBuff == p.argBuff && p'.ksp == p.ksp && p'.kbp == p.kbp
            && p'.parentKsp == p.parentKsp && p'.parentKbp == p.parentKbp
  {
    var mem' := mem[addr + off := b];
    SameFds(mem, mem', addr);
    assert ArgAt(mem', addr) == ArgAt(mem, addr);
    hide FdsAt, GetWord, ArgAt;
    SameWord(mem, mem', addr + KSP);
    SameWord(mem, mem', addr + KBP);
    SameWord(mem, mem', addr + PARENT_KSP);
    SameWord(mem, mem', addr + PARENT_KBP);
  }

  // ------------------------------------------------------------- all PCBs

  /** The six PCBs that memory holds. */
  ghost function PcbsIn(mem: Memory): (r: seq<Pcb>)
    requires IsTotal(mem)
    ensures |r| == MAX_PCBS && forall i :: 0 <= i < MAX_PCBS ==> r[i] == PcbAt(mem, PcbAddr(i))
  {
    seq(MAX_PCBS, i requires 0 <= i < MAX_PCBS => PcbAt(mem, PcbAddr(i)))
  }

  /** The memory of the programs. */
  ghost function Outside(mem: Memory): (r: Memory)
    ensures IsTotal(mem) ==> IsOutside(r)
  {
    imap a: int | a in mem && !InKernelPage(a) :: mem[a]
  }

  /** Only the PCB of process id differs. */
  ghost predicate OnlyPcb(mem: Memory, mem': Memory, id: int)
  {
    && IsTotal(mem) && IsTotal(mem')
    && forall x :: !(PcbAddr(id) <= x < PcbAddr(id) + PCB_SIZE) ==> mem'[x] == mem[x]
  }

  /** Only the PCB of process id differs, and it is pcb now. */
  ghost predicate Becomes(mem: Memory, mem': Memory, id: int, pcb: Pcb)
  {
    OnlyPcb(mem, mem', id) && PcbAt(mem', PcbAddr(id)) == pcb
  }

  lemma {:induction false} Became(mem: Memory, mem': Memory, id: int, pcb: Pcb)
    requires Becomes(mem, mem', id, pcb)
    ensures IsTotal(mem') && PcbAt(mem', PcbAddr(id)) == pcb
  {
  }

  lemma {:induction false} BecomesTwice(a: Memory, b: Memory, c: Memory, id: int, pcb: Pcb, pcb': Pcb)
    requires Becomes(a, b, id, pcb) && Becomes(b, c, id, pcb')
    ensures Becomes(a, c, id, pcb')
  {
  }

  lemma {:induction false} BecomesSame(mem: Memory, id: int)
    requires IsTotal(mem)
    ensures Becomes(mem, mem, id, PcbAt(mem, PcbAddr(id)))
  {
  }

  /** Where a field of a PCB is. */
  function Part(addr: int, field: int): int
  {
    addr + field
  }

  /** Where a field of a descriptor is. */
  function FieldAddr(addr: int, fd: int, field: int): int
  {
    addr + FD_SIZE * fd + field
  }

  /** A store into a descriptor changes one field of one descriptor of one PCB. */
  lemma {:induction false} FdFieldPut(mem: Memory, id: int, fd: int, field: int, w: dword)
    requires IsTotal(mem) && 0 <= fd < MAX_FILES && IsFdField(field)
    ensures Becomes(mem, PutWord(mem, FieldAddr(PcbAddr(id), fd, field), w), id,
                    WithField(PcbAt(mem, PcbAddr(id)), fd, field, w))
  {
    PutFd(mem, PcbAddr(id), fd, field, w);
    PutIsOnly(mem, id, PcbAddr(id) + FD_SIZE * fd + field, w);
    hide PutWord, PcbAt, WithField, OnlyPcb;
  }

  lemma {:induction false} PutIsOnly(mem: Memory, id: int, a: int, w: dword)
    requires IsTotal(mem) && PcbAddr(id) <= a <= PcbAddr(id) + PCB_SIZE - 4
    ensures OnlyPcb(mem, PutWord(mem, a, w), id)
  {
    PutChangesFour(mem, a, w);
    hide PutWord;
  }

  lemma {:induction false} RegisterPut(mem: Memory, id: int, field: int, w: dword)
    requires IsTotal(mem) && IsTailField(field)
    ensures Becomes(mem, PutWord(mem, Part(PcbAddr(id), field), w), id, WithTail(PcbAt(mem, PcbAddr(id)), field, w))
  {
    PutTail(mem, PcbAddr(id), field, w);
    PutIsOnly(mem, id, PcbAddr(id) + field, w);
    hide PutWord, PcbAt, OnlyPcb, WithTail;
  }

  lemma {:induction false} ByteIsOnly(mem: Memory, id: int, a: int, b: byte)
    requires IsTotal(mem) && PcbAddr(id) <= a < PcbAddr(id) + PCB_SIZE
    ensures OnlyPcb(mem, mem[a := b], id)
  {
  }

  lemma {:induction false} NumberPut(mem: Memory, id: int, field: int, b: byte)
    requires IsTotal(mem) && (field == PROC_NUM || field == PARENT_NUM)
    ensures Becomes(mem, mem[Part(PcbAddr(id), field) := b], id, WithNumber(PcbAt(mem, PcbAddr(id)), field, b))
  {
    hide PcbAt, OnlyPcb, WithNumber;
    var addr := PcbAddr(id);
    PutNumber(mem, addr, field, b);
    ByteIsOnly(mem, id, addr + field, b);
    hide PcbAddr;
  }

  function WithArgByte(pcb: Pcb, k: int, b: byte): Pcb
    requires 0 <= k < ARG_SIZE
  {
    pcb.(argBuff := pcb.argBuff[k := b])
  }

  lemma {:induction false} ArgBytePut(mem: Memory, id: int, k: int, b: byte)
    requires IsTotal(mem) && 0 <= k < ARG_SIZE
    ensures Becomes(mem, mem[PcbAddr(id) + ARG_BUFF + k := b], id, WithArgByte(PcbAt(mem, PcbAddr(id)), k, b))
  {
    PutArgByte(mem, PcbAddr(id), k, b);
    hide FdsAt, ArgAt, GetWord;
  }

  lemma {:induction false} OtherPcbKept(mem: Memory, mem': Memory, id: int, pcb: Pcb, other: int)
    requires Becomes(mem, mem', id, pcb) && 0 <= id < MAX_PCBS && 0 <= other < MAX_PCBS && id != other
    ensures IsTotal(mem) && IsTotal(mem') && PcbAt(mem', PcbAddr(other)) == PcbAt(mem, PcbAddr(other))
  {
    hide PcbAt;
    SamePcb(mem, mem', PcbAddr(other));
  }

  lemma {:induction false} BecomesChanges(mem: Memory, mem': Memory, id: int, pcb: Pcb)
    requires Becomes(mem, mem', id, pcb) && 0 <= id < MAX_PCBS
    ensures IsTotal(mem) && IsTotal(mem') && PcbsIn(mem') == PcbsIn(mem)[id := pcb] && Outside(mem') == Outside(mem)
  {
    OnlyPcbChanges(mem, mem', id);
  }

  lemma {:induction false} OnlyPcbChanges(mem: Memory, mem': Memory, id: int)
    requires OnlyPcb(mem, mem', id) && 0 <= id < MAX_PCBS
    ensures PcbsIn(mem') == PcbsIn(mem)[id := PcbAt(mem', PcbAddr(id))]
    ensures Outside(mem') == Outside(mem)
  {
    hide PcbAt;
    forall i | 0 <= i < MAX_PCBS && i != id
      ensures PcbAt(mem', PcbAddr(i)) == PcbAt(mem, PcbAddr(i))
    {
      SamePcb(mem, mem', PcbAddr(i));
    }
  }

  /** Memories that agree on the kernel's page hold the same PCBs. */
  lemma {:induction false} PcbsKept(mem: Memory, mem': Memory)
    requires IsTotal(mem) && IsTotal(mem') && Agree(mem, mem', MB4, MB8)
    ensures PcbsIn(mem') == PcbsIn(mem)
  {
    hide PcbAt;
    forall i | 0 <= i < MAX_PCBS
      ensures PcbAt(mem', PcbAddr(i)) == PcbAt(mem, PcbAddr(i))
    {
      SamePcb(mem, mem', PcbAddr(i));
    }
  }

  /** A PCB of zeros has no open descriptor. */
  lemma {:induction false} ZeroPcb(mem: Memory, addr: int)
    requires IsTotal(mem) && forall x :: addr <= x < addr + PCB_SIZE ==> mem[x] == 0
    ensures forall j :: 0 <= j < MAX_FILES ==> PcbAt(mem, addr).fDescs[j].flags == 0
  {
  }

  // ------------------------------------------------------------- the memory of the programs

  lemma {:induction false} OutsidePut(mem: Memory, a: int, b: byte)
    requires IsTotal(mem) && !InKernelPage(a)
    ensures Outside(mem[a := b]) == Outside(mem)[a := b] && PcbsIn(mem[a := b]) == PcbsIn(mem)
  {
    hide PcbsIn;
    PcbsKept(mem, mem[a := b]);
  }

  /** Kernel stores that spare the kernel's page act on the memory of the programs and keep all PCBs. */
  lemma {:induction false} OutsideWritten(mem: Memory, s: Space, va: int, bytes: seq<byte>)
    requires IsTotal(mem) && IsSpace(s) && SparesKernel(va, |bytes|)
    ensures IsTotal(Written(mem, s, va, bytes))
    ensures Outside(Written(mem, s, va, bytes)) == Written(Outside(mem), s, va, bytes)
    ensures PcbsIn(Written(mem, s, va, bytes)) == PcbsIn(mem)
  {
    hide PcbsIn, At;
    if bytes != [] {
      var last := |bytes| - 1;
      var before := Written(mem, s, va, bytes[..last]);
      assert SparesKernel(va, last) && !InKernelPage(At(va, last));
      OutsideWritten(mem, s, va, bytes[..last]);
      var target := Meaning(s, At(va, last));
      if target.Phys? {
        assert !InKernelPage(target.addr) by {
          if InKernelPage(target.addr) {
            KernelPageIsIdentity(s, At(va, last), target.addr);
          }
        }
        hide Meaning, Outside;
        OutsidePut(before, target.addr, bytes[last]);
      }
    }
  }

  lemma {:induction false} OutsideLoaded(mem: Memory, base: int, content: seq<byte>)
    requires IsTotal(mem) && base >= MB8
    ensures IsTotal(Loaded(mem, base, content)) && PcbsIn(Loaded(mem, base, content)) == PcbsIn(mem)
    ensures Outside(Loaded(mem, base, content)) == Loaded(Outside(mem), base, content)
  {
    hide PcbsIn;
    PcbsKept(mem, Loaded(mem, base, content));
  }

  lemma {:induction false} OutsideCopied(mem: Memory, dest: int, src: int, n: int)
    requires IsTotal(mem) && (dest + n <= MB4 || dest >= MB8) && (src + n <= MB4 || src >= MB8)
    ensures IsTotal(CopiedMem(mem, dest, src, n)) && PcbsIn(CopiedMem(mem, dest, src, n)) == PcbsIn(mem)
    ensures Outside(CopiedMem(mem, dest, src, n)) == CopiedMem(Outside(mem), dest, src, n)
  {
    hide PcbsIn;
    var mem' := CopiedMem(mem, dest, src, n);
    assert forall a :: a in mem' && (InKernelPage(a) ==> mem'[a] == mem[a]);
    PcbsKept(mem, mem');
    forall a | !InKernelPage(a)
      ensures Outside(mem')[a] == CopiedMem(Outside(mem), dest, src, n)[a]
    {
      assert dest <= a < dest + n ==> !InKernelPage(a - dest + src);
    }
  }

  // ------------------------------------------------------------- stores that do not spare it

  /** One byte that the kernel stores at a PCB's argument replaces the argument's first byte. */
  lemma {:induction false} ArgumentOverwritten(mem: Memory, s: Space, id: int, b: byte)
    requires IsTotal(mem) && IsSpace(s) && 0 <= id < MAX_PCBS
    ensures var mem' := Stuffed(mem, s, PcbAddr(id) + ARG_BUFF, [b]);
            IsTotal(mem') && ArgAt(mem', PcbAddr(id)) == ArgAt(mem, PcbAddr(id))[0 := b]
  {
    StuffedOne(mem, s, PcbAddr(id) + ARG_BUFF, b);
    hide Stuffed;
  }

  lemma {:induction false} StuffedOne(mem: Memory, s: Space, va: int, b: byte)
    requires IsTotal(mem) && IsSpace(s) && InKernelPage(va)
    ensures Stuffed(mem, s, va, [b]) == mem[va := b]
  {
    assert At(va, 0) == va && Meaning(s, va) == Phys(va, false);
    ReachedIs(s, va, 1, 1);
    hide Meaning, Reached;
    assert [b][..1] == [b] && [b][..0] == [];
    WrittenMore(mem, s, va, [b], 0);
  }
}
