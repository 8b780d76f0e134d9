/** Processes and their descriptors as the system calls handle them
    (chapOS/student-distrib/system_call.c). */
module Kernel {
  import opened Arithmetic
  import opened Bytes
  import opened CommandLine
  import opened FileSystem
  import opened Machine
  import opened Paging
  import opened Pcbs
  import opened Sizes
  import opened Stores
  import Terminal

  const PROG_IMAGE_VADDR := 0x804_8000
  const FLAG_ACTIVE: dword := 1
  const FLAG_INACTIVE: dword := 0
  const ASCII_ELF := 0x7F454C46

  // ------------------------------------------------------------- process control blocks

  /** Where the processor puts the stack pointer when process id enters the kernel. */
  function StackTop(id: int): int
  {
    MB8 - STACK_8KB * id - 4
  }

  /** esp is inside the kernel stack below top. */
  predicate OnStack(esp: int, top: int)
  {
    top + 4 - STACK_8KB <= esp <= top
  }

  /** Masking a word with 0xFFFFE000 rounds it down to a multiple of 8192. */
  lemma PcbMaskRoundsDown(esp: bv32)
    ensures esp & 0xFFFF_E000 == esp - esp % 0x2000
  {
  }

  lemma {:induction false} MaskFindsPcb(esp: int, id: int)
    requires 0 <= id < MAX_PROCESSES && OnStack(esp, StackTop(id))
    ensures esp - esp % STACK_8KB == PcbAddr(id)
  {
    QuotientIs(esp, STACK_8KB, PcbAddr(id) / STACK_8KB, esp - PcbAddr(id));
  }

  function SlotOf(fd: Fd): Slot
  {
    if fd.flags != FLAG_ACTIVE then Closed
    else
      var kind := if fd.ops == FILE_OPS then FileKind else if fd.ops == DIR_OPS then DirKind else RtcKind;
      Opened(kind, fd.inode, fd.filePos)
  }

  predicate IsFileOps(ops: dword) {
    ops == FILE_OPS || ops == DIR_OPS || ops == RTC_OPS
  }

  function Parent(i: int): int {
    if i == 0 then 0 else i - 1
  }

  predicate FdStands(fd: Fd, slot: Slot)
  {
    SlotOf(fd) == slot && (fd.flags == FLAG_ACTIVE ==> IsFileOps(fd.ops))
  }

  /** The descriptors of a PCB stand for the slots of a process. */
  ghost predicate FdsStand(fds: seq<Fd>, slots: seq<Slot>)
  {
    && |fds| == MAX_FILES && |slots| == NUM_SLOTS
    && fds[0].flags == fds[1].flags == FLAG_ACTIVE && fds[0].ops == STDIN_OPS && fds[1].ops == STDOUT_OPS
    && forall j :: 0 <= j < NUM_SLOTS ==> FdStands(fds[j + 2], slots[j])
  }

  ghost predicate Represents(pcb: Pcb, i: int, procs: seq<Proc>)
    requires 0 <= i < |procs|
  {
    && |pcb.argBuff| == MAX_ARG && CString(pcb.argBuff) == procs[i].arg && |procs[i].arg| < MAX_ARG
    && pcb.procNum == i && Frame(pcb.ksp, pcb.kbp) == procs[i].frame
    && pcb.parentProcNum == Parent(i) && Frame(pcb.parentKsp, pcb.parentKbp) == procs[Parent(i)].frame
    && FdsStand(pcb.fDescs, procs[i].slots)
  }

  /** A PCB that is not in use has no open descriptor from 2 on, whatever else is in it. */
  ghost predicate IsIdle(pcb: Pcb)
  {
    && |pcb.argBuff| == MAX_ARG && |pcb.fDescs| == MAX_FILES
    && forall j :: 2 <= j < MAX_FILES ==> pcb.fDescs[j].flags != FLAG_ACTIVE
  }

  ghost predicate PcbStands(pcbs: seq<Pcb>, i: int, procs: seq<Proc>)
    requires 0 <= i < |pcbs|
  {
    if i < |procs| then Represents(pcbs[i], i, procs) else IsIdle(pcbs[i])
  }

  ghost predicate PcbsStand(pcbs: seq<Pcb>, procs: seq<Proc>)
  {
    |pcbs| == MAX_PROCESSES && forall i :: 0 <= i < MAX_PROCESSES ==> PcbStands(pcbs, i, procs)
  }

  /** Changing the PCB of the newest process. */
  lemma {:induction false} UpdateTop(pcbs: seq<Pcb>, procs: seq<Proc>, pcb: Pcb, proc: Proc)
    requires PcbsStand(pcbs, procs) && 1 <= |procs| <= MAX_PROCESSES && proc.frame == procs[|procs| - 1].frame
    requires Represents(pcb, |procs| - 1, procs[|procs| - 1 := proc])
    ensures PcbsStand(pcbs[|procs| - 1 := pcb], procs[|procs| - 1 := proc])
  {
    var k := |procs| - 1;
    var pcbs', procs' := pcbs[k := pcb], procs[k := proc];
    forall i | 0 <= i < MAX_PROCESSES
      ensures PcbStands(pcbs', i, procs')
    {
      assert PcbStands(pcbs, i, procs);
    }
  }

  lemma {:induction false} PushTop(pcbs: seq<Pcb>, procs: seq<Proc>, pcb: Pcb, proc: Proc)
    requires PcbsStand(pcbs, procs) && |procs| < MAX_PROCESSES
    requires Represents(pcb, |procs|, procs + [proc])
    ensures PcbsStand(pcbs[|procs| := pcb], procs + [proc])
  {
    var k := |procs|;
    var pcbs', procs' := pcbs[k := pcb], procs + [proc];
    forall i | 0 <= i < MAX_PROCESSES
      ensures PcbStands(pcbs', i, procs')
    {
      assert PcbStands(pcbs, i, procs);
    }
  }

  lemma {:induction false} PopTop(pcbs: seq<Pcb>, procs: seq<Proc>, pcb: Pcb)
    requires PcbsStand(pcbs, procs) && 1 <= |procs| <= MAX_PROCESSES && IsIdle(pcb)
    ensures PcbsStand(pcbs[|procs| - 1 := pcb], procs[..|procs| - 1])
  {
    var k := |procs| - 1;
    var pcbs', procs' := pcbs[k := pcb], procs[..k];
    forall i | 0 <= i < MAX_PROCESSES
      ensures PcbStands(pcbs', i, procs')
    {
      assert PcbStands(pcbs, i, procs);
    }
  }

  /** Opening, closing or moving a descriptor of the newest process. */
  lemma {:induction false} ChangeFd(pcbs: seq<Pcb>, procs: seq<Proc>, fd: int, desc: Fd)
    requires PcbsStand(pcbs, procs) && 1 <= |procs| <= MAX_PROCESSES && 2 <= fd < MAX_FILES
    requires FdStands(desc, SlotOf(desc))
    ensures var k := |procs| - 1;
            && |pcbs[k].fDescs| == MAX_FILES && |procs[k].slots| == NUM_SLOTS
            && PcbsStand(pcbs[k := WithFd(pcbs[k], fd, desc)],
                         procs[k := procs[k].(slots := procs[k].slots[fd - 2 := SlotOf(desc)])])
  {
    hide PcbsStand, Represents;
    var k := |procs| - 1;
    TopStands(pcbs, procs);
    var pcb, proc := WithFd(pcbs[k], fd, desc), procs[k].(slots := procs[k].slots[fd - 2 := SlotOf(desc)]);
    TopWithFd(pcbs[k], procs, fd, desc);
    UpdateTop(pcbs, procs, pcb, proc);
  }

  lemma {:induction false} TopStands(pcbs: seq<Pcb>, procs: seq<Proc>)
    requires PcbsStand(pcbs, procs) && 1 <= |procs| <= MAX_PROCESSES
    ensures var k := |procs| - 1;
            |pcbs| == MAX_PROCESSES && Represents(pcbs[k], k, procs)
            && |pcbs[k].fDescs| == MAX_FILES && |procs[k].slots| == NUM_SLOTS
  {
    assert PcbStands(pcbs, |procs| - 1, procs);
  }

  lemma {:induction false} TopRecords(pcbs: seq<Pcb>, procs: seq<Proc>)
    requires PcbsStand(pcbs, procs) && 1 <= |procs| <= MAX_PROCESSES
    ensures var k := |procs| - 1;
            && |pcbs| == MAX_PROCESSES
            && var pcb := pcbs[k];
               && pcb.procNum == k && pcb.parentProcNum == Parent(k) && Frame(pcb.ksp, pcb.kbp) == procs[k].frame
               && |pcb.fDescs| == MAX_FILES && |pcb.argBuff| == MAX_ARG && CString(pcb.argBuff) == procs[k].arg
  {
    assert PcbStands(pcbs, |procs| - 1, procs);
  }

  /** A descriptor of the newest process and the slot it stands for. */
  lemma {:induction false} TopFd(pcbs: seq<Pcb>, procs: seq<Proc>, fd: int)
    requires PcbsStand(pcbs, procs) && 1 <= |procs| <= MAX_PROCESSES
    ensures var k := |procs| - 1;
            && |pcbs| == MAX_PROCESSES && |pcbs[k].fDescs| == MAX_FILES && |procs[k].slots| == NUM_SLOTS
            && var fds := pcbs[k].fDescs;
               && fds[0].flags == fds[1].flags == FLAG_ACTIVE && fds[0].ops == STDIN_OPS && fds[1].ops == STDOUT_OPS
               && (2 <= fd < MAX_FILES ==> FdStands(fds[fd], procs[k].slots[fd - 2]))
  {
    var k := |procs| - 1;
    assert PcbStands(pcbs, k, procs);
    assert 2 <= fd < MAX_FILES ==> FdStands(pcbs[k].fDescs[fd - 2 + 2], procs[k].slots[fd - 2]);
  }

  lemma {:induction false} TopWithFd(pcb: Pcb, procs: seq<Proc>, fd: int, desc: Fd)
    requires procs != [] && Represents(pcb, |procs| - 1, procs) && 2 <= fd < MAX_FILES
    requires FdStands(desc, SlotOf(desc))
    ensures var k := |procs| - 1;
            Represents(WithFd(pcb, fd, desc), k, procs[k := procs[k].(slots := procs[k].slots[fd - 2 := SlotOf(desc)])])
  {
  }

  /** strcpy into the argument buffer. */
  function WithArg(buf: seq<byte>, arg: seq<byte>): (r: seq<byte>)
    requires |buf| == MAX_ARG && |arg| < MAX_ARG
    ensures |r| == MAX_ARG
    ensures NUL !in arg ==> CString(r) == arg
  {
    var r := arg + [NUL] + buf[|arg| + 1..];
    assert NUL !in arg ==> CString(r) == arg by {
      if NUL !in arg {
        CStringIs(r, |arg|);
        assert r[..|arg|] == arg;
      }
    }
    r
  }

  lemma {:induction false} ZeroPcbsStand(mem: Memory)
    requires IsTotal(mem) && forall a :: PcbAddr(MAX_PROCESSES - 1) <= a < MB8 ==> mem[a] == 0
    ensures PcbsStand(PcbsIn(mem), [])
  {
    hide PcbAt;
    forall i | 0 <= i < MAX_PROCESSES
      ensures PcbStands(PcbsIn(mem), i, [])
    {
      ZeroPcb(mem, PcbAddr(i));
    }
  }

  // ------------------------------------------------------------- the kernel

  class Kernel {
    const fs: Image
    const mmu: Mmu
    const procIdFlags: array<int>
    var activeProcNum: int
    var esp0: int
    var mem: Memory              // all of physical memory, with the PCBs in it
    ghost var procs: seq<Proc>
    ghost var space: Space

    ghost predicate HasTables()
      reads this, mmu, mmu.pageDir, mmu.pageTable, mmu.userPageTable
    {
      && mmu.Valid() && Stands(mmu.Now(), space) && procIdFlags.Length == MAX_PROCESSES
      && procIdFlags != mmu.pageDir && procIdFlags != mmu.pageTable && procIdFlags != mmu.userPageTable
      && IsTotal(mem) && IsSystem(fs)
    }

    /** Exactly the ids below n are taken. */
    ghost predicate HasFlags(n: int)
      reads this, procIdFlags
    {
      FlagsAre(procIdFlags[..], n)
    }

    /** The live process ids are 0..k-1, k-1 is active, and every PCB in memory, the stack pointer for
        the next kernel entry and the mapped image agree with the stack of processes. */
    ghost predicate Valid()
      reads this, procIdFlags, mmu, mmu.pageDir, mmu.pageTable, mmu.userPageTable
    {
      && HasTables()
      && |procs| <= MAX_PROCESSES && HasFlags(|procs|)
      && activeProcNum == (if procs == [] then 0 else |procs| - 1)
      && PcbsStand(PcbsIn(mem), procs)
      && (procs != [] ==> IsMachine(State()) && esp0 == StackTop(|procs| - 1))
    }

    /** The processes and the memory of the programs; the kernel's own page does not show. */
    ghost function State(): Machine
      reads this
    {
      Machine(procs, space, Outside(mem))
    }

    constructor (fs: Image, pageTableAddr: int, userPageTableAddr: int, mem: Memory)
      requires pageTableAddr >= 0 && userPageTableAddr >= 0 && pageTableAddr != userPageTableAddr
      requires pageTableAddr % KB4 == 0 && userPageTableAddr % KB4 == 0
      requires IsSystem(fs) && IsTotal(mem) && forall a :: PcbAddr(MAX_PROCESSES - 1) <= a < MB8 ==> mem[a] == 0
      ensures Valid() && procs == [] && this.fs == fs && fresh(mmu.pageDir) && fresh(mmu.pageTable)
              && fresh(mmu.userPageTable) && fresh(procIdFlags)
    {
      this.fs := fs;
      this.mem := mem;
      mmu := new Mmu(pageTableAddr, userPageTableAddr);
      procIdFlags := new int[MAX_PROCESSES](_ => 0);
      activeProcNum, esp0 := 0, MB8;
      procs, space := [], Space(-1, false, -1);
      new;
      hide PcbsIn, PcbsStand;
      ZeroPcbsStand(mem);
      mmu.InitializePaging();
    }

    /** gen_new_proc_id: the lowest free id. */
    method GenNewProcId() returns (id: int)
      requires procIdFlags.Length == MAX_PROCESSES
      modifies procIdFlags
      ensures id == -1 ==> && procIdFlags[..] == old(procIdFlags[..])
                           && forall i :: 0 <= i < MAX_PROCESSES ==> procIdFlags[i] != 0
      ensures id != -1 ==> && 0 <= id < MAX_PROCESSES && procIdFlags[..] == old(procIdFlags[..])[id := 1]
                           && old(procIdFlags[id]) == 0 && forall i :: 0 <= i < id ==> old(procIdFlags[i]) != 0
    {
      for i := 0 to MAX_PROCESSES
        invariant procIdFlags[..] == old(procIdFlags[..])
        invariant forall j :: 0 <= j < i ==> procIdFlags[j] != 0
      {
        if procIdFlags[i] == 0 {
          procIdFlags[i] := 1;
          return i;
        }
      }
      id := -1;
    }

    /** get_pcb_ptr: the stack pointer masked with 0xFFFFE000.  Inside the current kernel stack it
        finds the PCB that active_proc_num addresses. */
    method GetPcbPtr(esp: int) returns (addr: int)
      requires Valid() && procs != [] && OnStack(esp, esp0)
      ensures addr == PcbAddr(activeProcNum)
    {
      MaskFindsPcb(esp, activeProcNum);
      addr := esp - esp % STACK_8KB;
    }

    /** The first half of execute: the command line, the directory and the first bytes of the file. */
    method FindProgram(command: seq<byte>) returns (fits: bool, found: bool, arg: seq<byte>, inode: nat)
      requires IsSystem(fs) && IsText(command)
      ensures fits <==> Fits(command)
      ensures fits ==> (found <==> Named(fs, command).Some?) && arg == SecondToken(command)
      ensures fits && found ==> Program(arg, inode) == Named(fs, command).value
    {
      var name;
      found, inode := false, 0;
      fits, name, arg := Parse(command);
      if !fits {
        return;
      }
      TokensHaveNoNul(command);
      var ret, dentry := ReadDentryByName(fs, name);
      if ret != 0 {
        return;
      }
      inode := dentry.inode;
      found := IsElf(inode);
    }

    /** The test of the first four bytes of a file. */
    method IsElf(inode: nat) returns (yes: bool)
      requires IsSystem(fs) && inode < |fs.inodes|
      ensures yes <==> IsExecutable(fs, inode)
    {
      var buf := new byte[4](_ => NUL);
      var n := ReadData(fs, inode, 0, buf, 4);
      var content: int := 0;
      for i := 0 to 3
        invariant content == Big(buf[..i]) * 0x100
      {
        content := (content + buf[i]) * 0x100;
        assert buf[..i + 1][..i] == buf[..i];
      }
      content := content + buf[3];
      assert buf[..4][..3] == buf[..3] && buf[..4] == buf[..];
      yes := content == ASCII_ELF;
      MagicBytes(buf[..]);
      if n < 4 {
        assert buf[n..][3 - n] == NUL;
        assert buf[..][3] == NUL;
      }
    }

    // ----------------------------------------------------------- stores into a PCB

    method PutFdField(addr: int, fd: int, field: int, w: dword, ghost id: int)
      requires IsTotal(mem) && addr == PcbAddr(id) && 0 <= fd < MAX_FILES && IsFdField(field)
      modifies this`mem
      ensures IsTotal(mem) && Becomes(old(mem), mem, id, WithField(PcbAt(old(mem), addr), fd, field, w))
    {
      hide FieldAddr, PutWord, PcbAt, WithField;
      FdFieldPut(mem, id, fd, field, w);
      Became(mem, PutWord(mem, FieldAddr(addr, fd, field), w), id, WithField(PcbAt(mem, addr), fd, field, w));
      hide Becomes;
      mem := PutWord(mem, FieldAddr(addr, fd, field), w);
    }

    method PutRegister(addr: int, field: int, w: dword, ghost id: int)
      requires IsTotal(mem) && addr == PcbAddr(id) && IsTailField(field)
      modifies this`mem
      ensures IsTotal(mem) && Becomes(old(mem), mem, id, WithTail(PcbAt(old(mem), addr), field, w))
    {
      hide Part, PutWord, PcbAt, WithTail;
      RegisterPut(mem, id, field, w);
      Became(mem, PutWord(mem, Part(addr, field), w), id, WithTail(PcbAt(mem, addr), field, w));
      hide Becomes;
      mem := PutWord(mem, Part(addr, field), w);
    }

    method PutNumber(addr: int, field: int, b: byte, ghost id: int)
      requires IsTotal(mem) && addr == PcbAddr(id) && (field == PROC_NUM || field == PARENT_NUM)
      modifies this`mem
      ensures IsTotal(mem) && Becomes(old(mem), mem, id, WithNumber(PcbAt(old(mem), addr), field, b))
    {
      hide Part, PcbAt, WithNumber;
      NumberPut(mem, id, field, b);
      Became(mem, mem[Part(addr, field) := b], id, WithNumber(PcbAt(mem, addr), field, b));
      hide Becomes;
      mem := mem[Part(addr, field) := b];
    }

    /** strcpy to the argument buffer. */
    method PutArg(addr: int, arg: seq<byte>, ghost id: int)
      requires IsTotal(mem) && addr == PcbAddr(id) && |arg| < MAX_ARG
      modifies this`mem
      ensures IsTotal(mem) && Becomes(old(mem), mem, id, WithArgument(PcbAt(old(mem), addr), arg))
    {
      hide PcbAt;
      ghost var pcb, text := PcbAt(mem, addr), arg + [NUL];
      BecomesSame(mem, id);
      assert Spliced(pcb, text, 0) == pcb;
      hide Becomes;
      for k := 0 to |arg| + 1
        invariant IsTotal(mem) && Becomes(old(mem), mem, id, Spliced(pcb, text, k))
      {
        PutArgumentByte(addr, k, if k < |arg| then arg[k] else NUL, pcb, text, old(mem), id);
      }
      SplicedAll(pcb, arg);
    }

    /** One byte of that copy. */
    method PutArgumentByte(addr: int, k: int, c: byte, ghost pcb: Pcb, ghost text: seq<byte>, ghost mem0: Memory,
                           ghost id: int)
      requires IsTotal(mem) && addr == PcbAddr(id) && 0 <= k < |text| <= MAX_ARG && c == text[k]
      requires Becomes(mem0, mem, id, Spliced(pcb, text, k))
      modifies this`mem
      ensures IsTotal(mem) && Becomes(mem0, mem, id, Spliced(pcb, text, k + 1))
    {
      hide PcbAt;
      Became(mem0, mem, id, Spliced(pcb, text, k));
      SpliceNext(pcb, text, k);
      hide Spliced, WithArgByte;
      ArgBytePut(mem, id, k, c);
      BecomesTwice(mem0, mem, mem[addr + ARG_BUFF + k := c], id, Spliced(pcb, text, k), Spliced(pcb, text, k + 1));
      hide Becomes;
      mem := mem[addr + ARG_BUFF + k := c];
    }

    // ----------------------------------------------------------- execute and halt

    /** Stores bytes at the load address, one by one through the page tables. */
    method StoreImage(buf: array<byte>)
      requires HasTables() && space.image >= 0 && buf.Length <= MB4 - PROG_OFFSET
      modifies this`mem
      ensures HasTables() && mem == Loaded(old(mem), ImageBase(space.image) + PROG_OFFSET, buf[..])
    {
      hide Stands, IsSystem, Loaded;
      ghost var base, bytes := ImageBase(space.image) + PROG_OFFSET, buf[..];
      LoadNothing(mem, base);
      assert bytes[..0] == [];
      for i := 0 to buf.Length
        invariant HasTables() && mem == Loaded(old(mem), base, bytes[..i])
      {
        var target := mmu.Translate(PROG_IMAGE_VADDR + i, space);
        LoadStep(old(mem), base, bytes, i);
        mem := mem[target.addr := buf[i]];
      }
      assert bytes[..buf.Length] == bytes;
    }

    /** The loader: read_data puts a whole file at the load address. */
    method LoadImage(inode: nat)
      requires HasTables() && space.image >= 0 && inode < |fs.inodes|
      modifies this`mem
      ensures HasTables() && mem == Loaded(old(mem), ImageBase(space.image) + PROG_OFFSET, Content(fs, inode))
    {
      hide Stands, Loaded;
      var len := fs.inodes[inode].length;
      var buf := new byte[len](_ => NUL);
      var n := ReadData(fs, inode, 0, buf, len);
      assert n == len && buf[..n] == buf[..];
      WholeFileIsExact(fs, inode);
      StoreImage(buf);
    }

    method FillRegisters(addr: int, id: byte, frame: Frame)
      requires IsTotal(mem) && id < MAX_PROCESSES && addr == PcbAddr(id)
      modifies this`mem
      ensures IsTotal(mem)
      ensures Becomes(old(mem), mem, id, PcbAt(old(mem), addr).(procNum := id, ksp := frame.esp, kbp := frame.ebp))
    {
      hide PcbAt, Becomes;
      ghost var mem0, p0 := mem, PcbAt(mem, addr);
      PutNumber(addr, PROC_NUM, id, id);
      ghost var mem1, p1 := mem, WithNumber(p0, PROC_NUM, id);
      Became(mem0, mem, id, p1);
      PutRegister(addr, KBP, frame.ebp, id);
      ghost var mem2, p2 := mem, WithTail(p1, KBP, frame.ebp);
      Became(mem1, mem, id, p2);
      BecomesTwice(mem0, mem1, mem, id, p1, p2);
      PutRegister(addr, KSP, frame.esp, id);
      BecomesTwice(mem0, mem2, mem, id, p2, WithTail(p2, KSP, frame.esp));
    }

    /** Opens a standard descriptor. */
    method FillStdFd(addr: int, fd: int, ops: dword, ghost id: int)
      requires IsTotal(mem) && addr == PcbAddr(id) && 0 <= fd < MAX_FILES
      modifies this`mem
      ensures IsTotal(mem) && Becomes(old(mem), mem, id, WithStdFd(PcbAt(old(mem), addr), fd, ops))
    {
      hide PcbAt, Becomes;
      ghost var mem0, p0 := mem, PcbAt(mem, addr);
      PutFdField(addr, fd, FD_FLAGS, FLAG_ACTIVE, id);
      ghost var mem1, p1 := mem, WithField(p0, fd, FD_FLAGS, FLAG_ACTIVE);
      Became(mem0, mem, id, p1);
      PutFdField(addr, fd, FD_OPS, ops, id);
      BecomesTwice(mem0, mem1, mem, id, p1, WithField(p1, fd, FD_OPS, ops));
    }

    /** Number, registers, standard descriptors and argument of a new PCB; its descriptors from 2 on
        are left as they are. */
    method FillOwn(id: byte, frame: Frame, arg: seq<byte>)
      requires IsTotal(mem) && id < MAX_PROCESSES && |arg| < MAX_ARG
      modifies this`mem
      ensures IsTotal(mem) && Becomes(old(mem), mem, id, OwnPcb(PcbAt(old(mem), PcbAddr(id)), id, frame, arg))
    {
      hide PcbAt, Becomes, WithStdFd, WithArgument;
      var addr := PcbAddr(id);
      ghost var mem0, p0 := mem, PcbAt(mem, addr);
      FillRegisters(addr, id, frame);
      ghost var mem1, p1 := mem, p0.(procNum := id, ksp := frame.esp, kbp := frame.ebp);
      Became(mem0, mem, id, p1);
      FillStdFd(addr, 0, STDIN_OPS, id);
      ghost var mem2, p2 := mem, WithStdFd(p1, 0, STDIN_OPS);
      Became(mem1, mem, id, p2);
      BecomesTwice(mem0, mem1, mem, id, p1, p2);
      FillStdFd(addr, 1, STDOUT_OPS, id);
      ghost var mem3, p3 := mem, WithStdFd(p2, 1, STDOUT_OPS);
      Became(mem2, mem, id, p3);
      BecomesTwice(mem0, mem2, mem, id, p2, p3);
      PutArg(addr, arg, id);
      BecomesTwice(mem0, mem3, mem, id, p3, WithArgument(p3, arg));
    }

    /** The parent's number and registers, which process 0 takes from itself. */
    method FillParent(id: byte)
      requires IsTotal(mem) && id < MAX_PROCESSES && PcbAt(mem, PcbAddr(id)).procNum == id
      modifies this`mem
      ensures IsTotal(mem)
      ensures var parent := PcbAt(old(mem), PcbAddr(if id == 0 then id else id - 1));
              Becomes(old(mem), mem, id, WithParent(PcbAt(old(mem), PcbAddr(id)), parent))
    {
      hide PcbAt, Becomes;
      var addr := PcbAddr(id);
      var pcb := PcbAt(mem, addr);
      var parent := if id == 0 then pcb else PcbAt(mem, MB8 - STACK_8KB * pcb.procNum);
      ghost var mem0 := mem;
      PutNumber(addr, PARENT_NUM, parent.procNum, id);
      ghost var mem1, p1 := mem, WithNumber(pcb, PARENT_NUM, parent.procNum);
      Became(mem0, mem, id, p1);
      PutRegister(addr, PARENT_KSP, parent.ksp, id);
      ghost var mem2, p2 := mem, WithTail(p1, PARENT_KSP, parent.ksp);
      Became(mem1, mem, id, p2);
      BecomesTwice(mem0, mem1, mem, id, p1, p2);
      PutRegister(addr, PARENT_KBP, parent.kbp, id);
      BecomesTwice(mem0, mem2, mem, id, p2, WithTail(p2, PARENT_KBP, parent.kbp));
    }

    /** The PCB of a new process. */
    method FillPcb(id: byte, frame: Frame, arg: seq<byte>)
      requires IsTotal(mem) && id < MAX_PROCESSES && |arg| < MAX_ARG
      modifies this`mem
      ensures IsTotal(mem) && Becomes(old(mem), mem, id, NewPcb(old(mem), id, frame, arg))
    {
      hide PcbAt, OwnPcb, WithParent, Becomes;
      ghost var mem0, p0 := mem, PcbAt(mem, PcbAddr(id));
      ghost var above := PcbAt(mem, PcbAddr(if id == 0 then id else id - 1));
      FillOwn(id, frame, arg);
      ghost var mem1, own := mem, OwnPcb(p0, id, frame, arg);
      Became(mem0, mem, id, own);
      if id > 0 {
        OtherPcbKept(mem0, mem1, id, own, id - 1);
      }
      OwnNumber(p0, id, frame, arg);
      FillParent(id);
      BecomesTwice(mem0, mem1, mem, id, own, WithParent(own, if id == 0 then own else above));
    }

    /** The part of execute that fills the PCB of a new process and makes it the active one. */
    method AddProcess(id: byte, arg: seq<byte>, frame: Frame)
      requires HasTables() && HasFlags(|procs| + 1) && PcbsStand(PcbsIn(mem), procs) && id == |procs| < MAX_PROCESSES
      requires NUL !in arg && |arg| < MAX_ARG
      requires IsMachine(State().(procs := procs + [Proc(frame, arg, NO_SLOTS)]))
      modifies this`mem, this`activeProcNum, this`procs, this`esp0
      ensures Valid() && State() == old(State()).(procs := old(procs) + [Proc(frame, arg, NO_SLOTS)])
    {
      hide Stands, IsSystem, Represents, IsMachine, PcbsStand, FlagsAre, PcbAt, Outside, PcbsIn, Becomes, NewPcb;
      ghost var proc, mem0 := Proc(frame, arg, NO_SLOTS), mem;
      ghost var pcb := NewPcb(mem, id, frame, arg);
      NewRepresents(mem, procs, id, frame, arg);
      FillPcb(id, frame, arg);
      BecomesChanges(mem0, mem, id, pcb);
      PushTop(PcbsIn(mem0), procs, pcb, proc);
      activeProcNum := id;
      procs := procs + [proc];
      esp0 := MB8 - STACK_8KB * id - 4;
    }

    /** The part of execute that maps the image of a new process and loads it. */
    method MapAndLoad(id: int, inode: nat)
      requires HasTables() && 0 <= id < MAX_PROCESSES && inode < |fs.inodes|
      modifies this`space, this`mem, mmu.pageDir
      ensures HasTables() && space == old(space).(image := id) && procIdFlags[..] == old(procIdFlags[..])
      ensures Outside(mem) == Loaded(Outside(old(mem)), ImageBase(id) + PROG_OFFSET, Content(fs, inode))
      ensures PcbsIn(mem) == PcbsIn(old(mem))
    {
      hide Stands, Loaded, Content, Outside, PcbsIn;
      var _ := mmu.MapUserImgPage(id, space);
      space := space.(image := id);
      OutsideLoaded(mem, ImageBase(id) + PROG_OFFSET, Content(fs, inode));
      LoadImage(inode);
    }

    /** The second half of execute, for a new id. */
    method Install(id: byte, arg: seq<byte>, inode: nat, frame: Frame)
      requires HasTables() && HasFlags(|procs| + 1) && PcbsStand(PcbsIn(mem), procs) && id == |procs| < MAX_PROCESSES
      requires NUL !in arg && |arg| < MAX_ARG && inode < |fs.inodes| && (procs != [] ==> IsMachine(State()))
      modifies this, mmu.pageDir
      ensures Valid() && State() == Pushed(fs, old(State()), Program(arg, inode), frame)
    {
      assert IsSpace(space);
      hide Loaded, Content, Stands, IsMachine, PcbsStand, FlagsAre, Outside, PcbsIn;
      PushKeepsMachine(fs, State(), Program(arg, inode), frame);
      MapAndLoad(id, inode);
      AddProcess(id, arg, frame);
    }

    /** execute, up to the jump into the program, for every command line.  A word that does not fit
        its buffer is found before anything else has changed. */
    method Execute(command: seq<byte>, frame: Frame) returns (fits: bool, entered: bool)
      requires Valid() && IsText(command)
      modifies this, procIdFlags, mmu.pageDir
      ensures fits <==> Fits(command)
      ensures Valid() && State() == if fits then Executed(fs, old(State()), command, frame) else old(State())
      ensures entered <==> |procs| == |old(procs)| + 1
    {
      var found, arg, inode;
      fits, found, arg, inode := FindProgram(command);
      if !fits || !found {
        return fits, false;
      }
      TokensHaveNoNul(command);
      hide Stands, PcbsStand, Loaded, FirstToken, SecondToken, IsExecutable, Outside, PcbsIn;
      ghost var flags := procIdFlags[..];
      var newProcId := GenNewProcId();
      if newProcId == -1 {
        FullFlags(flags, |procs|);
        return true, false;
      }
      NextFlag(flags, |procs|, newProcId);
      assert HasFlags(|procs| + 1);
      Install(newProcId, arg, inode, frame);
      entered := true;
    }

    /** The part of close that works on a PCB. */
    method CloseFd(addr: int, fd: int, ghost id: int) returns (ret: int)
      requires IsTotal(mem) && addr == PcbAddr(id)
      modifies this`mem
      ensures IsTotal(mem) && Becomes(old(mem), mem, id, ClosedFd(PcbAt(old(mem), addr), fd))
      ensures !CanClose(PcbAt(old(mem), addr), fd) ==> ret == -1
      ensures var pcb := PcbAt(old(mem), addr);
              CanClose(pcb, fd) && IsFileOps(pcb.fDescs[fd].ops) ==> ret == 0
    {
      hide PcbAt;
      BecomesSame(mem, id);
      hide Becomes;
      if fd >= MAX_FILES || fd < 0 {
        return -1;
      }
      if fd == 0 || fd == 1 {
        return -1;
      }
      var pcb := PcbAt(mem, addr);
      if pcb.fDescs[fd].flags != FLAG_ACTIVE {
        return -1;
      } else {
        PutFdField(addr, fd, FD_FLAGS, FLAG_INACTIVE, id);
      }
      ret := if IsFileOps(pcb.fDescs[fd].ops) then 0 else -1;
    }

    /** halt's loop over all descriptors.  It cannot close 0 and 1. */
    method CloseAll(addr: int, ghost id: int) returns (ghost pcb: Pcb)
      requires IsTotal(mem) && addr == PcbAddr(id)
      modifies this`mem
      ensures IsTotal(mem) && Becomes(old(mem), mem, id, pcb) && ClosedUpTo(PcbAt(old(mem), addr), pcb, MAX_FILES)
    {
      hide PcbAt;
      ghost var mem0 := mem;
      pcb := PcbAt(mem, addr);
      BecomesSame(mem, id);
      assert ClosedUpTo(pcb, pcb, 0);
      hide Becomes, ClosedUpTo;
      for i := 0 to MAX_FILES
        invariant IsTotal(mem) && Becomes(mem0, mem, id, pcb) && ClosedUpTo(PcbAt(mem0, addr), pcb, i)
      {
        Became(mem0, mem, id, pcb);
        ghost var before := mem;
        CloseNext(addr, i, id);
        ClosedNext(PcbAt(mem0, addr), pcb, i);
        BecomesTwice(mem0, before, mem, id, pcb, ClosedSlot(pcb, i));
        pcb := ClosedSlot(pcb, i);
      }
    }

    /** The body of that loop. */
    method CloseNext(addr: int, i: int, ghost id: int)
      requires IsTotal(mem) && addr == PcbAddr(id) && 0 <= i < MAX_FILES
      modifies this`mem
      ensures IsTotal(mem) && Becomes(old(mem), mem, id, ClosedSlot(PcbAt(old(mem), addr), i))
    {
      hide PcbAt;
      ghost var mem0, p0 := mem, PcbAt(mem, addr);
      BecomesSame(mem, id);
      hide Becomes;
      if PcbAt(mem, addr).fDescs[i].flags == FLAG_ACTIVE {
        var _ := CloseFd(addr, i, id);
      }
      ghost var mem1 := mem;
      assert Becomes(mem0, mem1, id, ClosedFd(p0, i));
      Became(mem0, mem1, id, ClosedFd(p0, i));
      PutFdField(addr, i, FD_OPS, NO_FILE_OPS, id);
      BecomesTwice(mem0, mem1, mem, id, ClosedFd(p0, i), ClosedSlot(p0, i));
    }

    /** halt.  A process with a parent resumes it: back is the frame that execute saved, eax what
        execute returns.  Process 0 is replaced by a new shell. */
    method Halt(status: byte, esp: int, frame: Frame) returns (resumed: bool, eax: int, back: Frame)
      requires Valid() && procs != [] && OnStack(esp, esp0)
      modifies this, procIdFlags, mmu.pageDir
      ensures Valid() && State() == Halted(fs, old(State()), frame)
      ensures resumed <==> |old(procs)| > 1
      ensures resumed ==> back == Running(old(State())).frame && eax == StatusToParent(status)
    {
      var prevActiveProcNum := activeProcNum;
      var addr := GetPcbPtr(esp);
      hide PcbAt, PcbsIn, Outside, PcbsStand, Stands;
      PopState(addr);
      if prevActiveProcNum == 0 {
        ShellFits();
        assert IsText(SHELL);
        var _, _ := Execute(SHELL, frame);
        return false, 0, frame;
      }
      var pcb := PcbAt(mem, addr);
      eax := status;
      back := Frame(pcb.ksp, pcb.kbp);
      if eax == 1 {
        eax := 256;
      }
      resumed := true;
    }

    /** The part of halt that gives back the process id and closes all files. */
    method Release(addr: int)
      requires Valid() && procs != [] && addr == PcbAddr(activeProcNum)
      modifies this`mem, procIdFlags
      ensures var k := |procs| - 1;
              && HasTables() && HasFlags(k) && PcbsStand(PcbsIn(mem), procs[..k]) && Outside(mem) == old(Outside(mem))
              && PcbAt(mem, addr).parentProcNum == Parent(k)
              && Frame(PcbAt(mem, addr).ksp, PcbAt(mem, addr).kbp) == procs[k].frame
    {
      hide Stands, IsSystem, PcbsStand, PcbStands, Represents, FlagsAre, IsMachine, PcbAt, Outside, Becomes;
      ghost var k, mem0, flags := |procs| - 1, mem, procIdFlags[..];
      TopRecords(PcbsIn(mem), procs);
      assert PcbsIn(mem)[k] == PcbAt(mem, addr);
      hide PcbsIn;
      procIdFlags[activeProcNum] := 0;
      PopFlag(flags, k);
      assert procIdFlags[..] == flags[k := 0];
      ghost var pcb := CloseAll(addr, k);
      Became(mem0, mem, k, pcb);
      BecomesChanges(mem0, mem, k, pcb);
      PopTop(PcbsIn(mem0), procs, pcb);
    }

    /** What halt does to the kernel's records before it leaves. */
    method PopState(addr: int)
      requires Valid() && procs != [] && addr == PcbAddr(activeProcNum)
      modifies this, procIdFlags, mmu.pageDir
      ensures Valid()
      ensures Frame(PcbAt(mem, addr).ksp, PcbAt(mem, addr).kbp) == Running(old(State())).frame
      ensures var k := |old(procs)| - 1;
              State() == old(State()).(procs := old(procs)[..k], space := old(space).(image := Parent(k)))
    {
      hide Stands, IsSystem, PcbsStand, FlagsAre, IsMachine, PcbAt, PcbsIn, Outside;
      ghost var k := |procs| - 1;
      if k > 0 {
        PopKeepsMachine(State());
      }
      Release(addr);
      activeProcNum := PcbAt(mem, addr).parentProcNum;
      var _ := mmu.MapUserImgPage(PcbAt(mem, addr).parentProcNum, space);
      esp0 := MB8 - STACK_8KB * activeProcNum - 4;
      procs, space := procs[..k], space.(image := Parent(k));
    }

    // ----------------------------------------------------------- descriptors

    /** Stores into one descriptor of the running process have made it desc. */
    ghost method Commit(fd: int, desc: Fd, before: Memory)
      requires HasTables() && procs != [] && |procs| <= MAX_PROCESSES && HasFlags(|procs|)
      requires activeProcNum == |procs| - 1 && esp0 == StackTop(|procs| - 1)
      requires IsTotal(before) && PcbsStand(PcbsIn(before), procs) && IsMachine(Machine(procs, space, Outside(before)))
      requires 2 <= fd < MAX_FILES && FdStands(desc, SlotOf(desc))
      requires Becomes(before, mem, activeProcNum, WithFd(PcbAt(before, PcbAddr(activeProcNum)), fd, desc))
      modifies this`procs
      ensures Valid() && |old(procs)[|old(procs)| - 1].slots| == NUM_SLOTS
      ensures State() == WithSlot(Machine(old(procs), space, Outside(before)), fd - 2, SlotOf(desc))
    {
      ChangeFd(PcbsIn(before), procs, fd, desc);
      hide PcbsStand, Stands, IsMachine, IsSystem, PcbAt, Outside, Becomes;
      BecomesChanges(before, mem, activeProcNum, WithFd(PcbAt(before, PcbAddr(activeProcNum)), fd, desc));
      SlotKeepsMachine(Machine(procs, space, Outside(before)), fd - 2, SlotOf(desc));
      var k := |procs| - 1;
      procs := procs[k := procs[k].(slots := procs[k].slots[fd - 2 := SlotOf(desc)])];
    }

    /** open's search for a free slot from 2 on; 8 when there is none. */
    method FreeSlot(addr: int) returns (i: int)
      requires Valid() && procs != [] && addr == PcbAddr(activeProcNum)
      ensures i == LowestClosed(Running(State()).slots) + 2
    {
      hide Stands, IsSystem, PcbsStand, Outside, PcbAt;
      ghost var slots := Running(State()).slots;
      TopFd(PcbsIn(mem), procs, 2);
      var fds := PcbAt(mem, addr).fDescs;
      i := 2;
      while i < MAX_FILES && fds[i].flags == FLAG_ACTIVE
        invariant 2 <= i <= MAX_FILES && forall j :: 0 <= j < i - 2 ==> slots[j] != Closed
      {
        TopFd(PcbsIn(mem), procs, i);
        i := i + 1;
      }
      TopFd(PcbsIn(mem), procs, i);
      LowestClosedIs(slots, i - 2);
    }

    /** open: the lowest free slot from 2 on gets the file. */
    method Open(filename: seq<byte>, esp: int) returns (i: int)
      requires Valid() && procs != [] && OnStack(esp, esp0) && NUL !in filename
      modifies this
      ensures Valid() && State() == AfterOpen(fs, old(State()), filename)
      ensures i == OpenResult(fs, old(State()), filename)
    {
      hide Stands, PcbsStand, AfterOpen, OpenResult, PcbAt, PcbsIn, Outside;
      var addr := GetPcbPtr(esp);
      if filename == [] {
        OpenFails(fs, State(), filename);
        return -1;
      }
      var checkDentry, entry := ReadDentryByName(fs, filename);
      if checkDentry == -1 {
        OpenFails(fs, State(), filename);
        return -1;
      }
      i := FreeSlot(addr);
      if i == MAX_FILES {
        OpenFails(fs, State(), filename);
        return -1;
      }
      OpenSucceeds(fs, State(), filename, Lookup(fs.dentries, filename), i);
      OpenAt(addr, i, entry);
    }

    /** The part of open that fills the descriptor. */
    method OpenAt(addr: int, i: int, entry: Dentry)
      requires Valid() && procs != [] && addr == PcbAddr(activeProcNum) && 2 <= i < MAX_FILES && entry.inode < WORD32
      modifies this
      ensures Valid() && State() == WithSlot(old(State()), i - 2, OpenedAs(entry.fileType, entry.inode))
    {
      hide Stands, IsSystem, IsMachine, PcbsStand, PcbAt, PcbsIn, Outside, Becomes, WithFd;
      ghost var before := mem;
      var ops: dword, inode: dword;
      if entry.fileType == 1 {
        ops, inode := DIR_OPS, 0;
      } else if entry.fileType == 2 {
        ops, inode := FILE_OPS, entry.inode;
      } else {
        ops, inode := RTC_OPS, 0;
      }
      FillFd(addr, i, ops, inode, activeProcNum);
      Commit(i, Fd(ops, inode, 0, FLAG_ACTIVE), before);
    }

    /** The stores of open. */
    method FillFd(addr: int, i: int, ops: dword, inode: dword, ghost id: int)
      requires IsTotal(mem) && addr == PcbAddr(id) && 0 <= i < MAX_FILES
      modifies this`mem
      ensures IsTotal(mem)
      ensures Becomes(old(mem), mem, id, WithFd(PcbAt(old(mem), addr), i, Fd(ops, inode, 0, FLAG_ACTIVE)))
    {
      hide PcbAt, Becomes;
      ghost var mem0, p0 := mem, PcbAt(mem, addr);
      PutFdField(addr, i, FD_FLAGS, FLAG_ACTIVE, id);
      ghost var mem1, p1 := mem, WithField(p0, i, FD_FLAGS, FLAG_ACTIVE);
      Became(mem0, mem, id, p1);
      PutFdField(addr, i, FD_POS, 0, id);
      ghost var mem2, p2 := mem, WithField(p1, i, FD_POS, 0);
      Became(mem1, mem, id, p2);
      BecomesTwice(mem0, mem1, mem, id, p1, p2);
      PutFdField(addr, i, FD_OPS, ops, id);
      ghost var mem3, p3 := mem, WithField(p2, i, FD_OPS, ops);
      Became(mem2, mem, id, p3);
      BecomesTwice(mem0, mem2, mem, id, p2, p3);
      PutFdField(addr, i, FD_INODE, inode, id);
      BecomesTwice(mem0, mem3, mem, id, p3, WithField(p3, i, FD_INODE, inode));
      assert WithField(p3, i, FD_INODE, inode) == WithFd(p0, i, Fd(ops, inode, 0, FLAG_ACTIVE));
    }

    /** close */
    method Close(fd: int, esp: int) returns (ret: int)
      requires Valid() && procs != [] && OnStack(esp, esp0)
      modifies this
      ensures Valid() && State() == AfterClose(old(State()), fd)
      ensures ret == if IsOpen(old(State()), fd) then 0 else -1
    {
      hide Stands, IsSystem, IsMachine, PcbsStand, PcbAt, Outside, Becomes;
      var addr := GetPcbPtr(esp);
      TopFd(PcbsIn(mem), procs, fd);
      ghost var before, pcb := mem, PcbAt(mem, addr);
      assert PcbsIn(mem)[activeProcNum] == pcb;
      hide PcbsIn;
      ret := CloseFd(addr, fd, activeProcNum);
      if CanClose(pcb, fd) {
        Commit(fd, pcb.fDescs[fd].(flags := FLAG_INACTIVE), before);
      } else {
        UnchangedPcbs(before, mem, activeProcNum, pcb);
      }
    }

    /** Stores bytes where a program asked, through the page tables and with the kernel's rights, up
        to the first fault. */
    method Fill(buf: int, bytes: seq<byte>) returns (ok: bool)
      requires HasTables()
      modifies this`mem
      ensures HasTables() && mem == Stuffed(old(mem), space, buf, bytes)
      ensures ok <==> AllReached(space, buf, |bytes|)
    {
      hide Stands, IsSystem, Written, Meaning, At;
      assert bytes[..0] == [] && bytes[..|bytes|] == bytes;
      NothingWritten(mem, space, buf);
      for i := 0 to |bytes|
        invariant HasTables() && mem == Written(old(mem), space, buf, bytes[..i])
        invariant forall j :: 0 <= j < i ==> Meaning(space, At(buf, j)).Phys?
      {
        var target := mmu.Translate(At(buf, i), space);
        if target.Fault? {
          ReachedIs(space, buf, |bytes|, i);
          return false;
        }
        WrittenMore(old(mem), space, buf, bytes, i);
        mem := mem[target.addr := bytes[i]];
      }
      ReachedIs(space, buf, |bytes|, |bytes|);
      ok := true;
    }

    /** The same, when the kernel's own page is spared. */
    method Deliver(buf: int, bytes: seq<byte>) returns (ok: bool)
      requires Valid() && procs != [] && SparesKernel(buf, |bytes|)
      modifies this`mem
      ensures Valid() && State() == Filled(old(State()), buf, bytes)
      ensures PcbAt(mem, PcbAddr(activeProcNum)) == PcbAt(old(mem), PcbAddr(activeProcNum))
      ensures ok <==> AllReached(space, buf, |bytes|)
    {
      FillIsLocal(State(), buf, bytes);
      FilledOutside(mem, space, buf, bytes);
      hide Stands, IsSystem, IsMachine, PcbsStand, PcbsIn, PcbAt, Outside, Stuffed, SparesKernel;
      ok := Fill(buf, bytes);
    }

    /** The descriptor with a number, when there is one. */
    method FindDesc(addr: int, fd: int) returns (desc: Fd)
      requires Valid() && procs != [] && addr == PcbAddr(activeProcNum)
      ensures DescStands(State(), fd, desc)
      ensures 0 <= fd < MAX_FILES ==> desc == PcbAt(mem, addr).fDescs[fd]
    {
      hide Stands, IsSystem, IsMachine, PcbsStand, PcbAt, PcbAddr, PcbsIn, Outside, DescStands, FlagsAre, StackTop;
      if fd < 0 || fd >= MAX_FILES {
        desc := Fd(0, 0, 0, 0);
      } else {
        desc := PcbAt(mem, addr).fDescs[fd];
      }
      TopDesc(mem, State(), fd, desc);
    }

    /** read.  What the keyboard delivers is given by the key buffer of the current terminal, and the
        wait for the clock returns 0. */
    method Read(fd: int, buf: int, nbytes: int, keys: seq<byte>, esp: int) returns (n: int)
      requires Valid() && procs != [] && OnStack(esp, esp0) && Harmless(fs, State(), Event.Read(fd, buf, nbytes, keys))
      modifies this
      ensures Valid() && State() == AfterRead(fs, old(State()), fd, buf, nbytes, keys)
      ensures n == ReadResult(fs, old(State()), fd, buf, nbytes, keys).0
    {
      var addr := GetPcbPtr(esp);
      var desc := FindDesc(addr, fd);
      hide Stands, IsSystem, IsMachine, PcbsStand, PcbAt, PcbsIn, Outside, AfterRead, ReadResult, Harmless, DescStands;
      if buf == 0 || fd >= MAX_FILES || fd < 0 || desc.flags != FLAG_ACTIVE {
        NotOpen(State(), fd, desc, buf);
        ReadFails(fs, State(), fd, buf, nbytes, keys);
        return -1;
      }
      n := ReadOpen(addr, fd, desc, buf, nbytes, keys);
    }

    /** read on an open descriptor, by its jump table */
    method ReadOpen(addr: int, fd: int, desc: Fd, buf: int, nbytes: int, keys: seq<byte>) returns (n: int)
      requires Valid() && procs != [] && addr == PcbAddr(activeProcNum) && 0 <= fd < MAX_FILES && buf != 0
      requires desc == PcbAt(mem, addr).fDescs[fd] && desc.flags == FLAG_ACTIVE && DescStands(State(), fd, desc)
      requires Harmless(fs, State(), Event.Read(fd, buf, nbytes, keys))
      modifies this
      ensures Valid() && State() == AfterRead(fs, old(State()), fd, buf, nbytes, keys)
      ensures n == ReadResult(fs, old(State()), fd, buf, nbytes, keys).0
    {
      ReadKinds(State(), fd, desc);
      assert SparesKernel(buf, |ReadResult(fs, State(), fd, buf, nbytes, keys).1|);
      hide Stands, IsMachine, IsSystem, PcbsStand, PcbAt, PcbsIn, Outside, SparesKernel, AfterRead, ReadResult;
      hide Harmless, SlotOf, IsOpen, DescStands;
      if desc.ops == STDIN_OPS {
        ReadsKeys(fs, State(), buf, nbytes, keys);
        n := Terminal.ReadResult(keys, nbytes);
        var _ := Deliver(buf, Terminal.StoredKeys(keys, nbytes));
        return;
      }
      if desc.ops == FILE_OPS || desc.ops == DIR_OPS {
        n := ReadThrough(addr, fd, desc, buf, nbytes, keys);
        return;
      }
      if desc.ops == RTC_OPS {
        ReadsClock(fs, State(), fd, buf, nbytes, keys);
        return 0;
      }
      ReadFails(fs, State(), fd, buf, nbytes, keys);
      n := -1;
    }

    /** read on a file or a directory: fetch the bytes, deliver them, advance the descriptor. */
    method ReadThrough(addr: int, fd: int, desc: Fd, buf: int, nbytes: int, ghost keys: seq<byte>) returns (n: int)
      requires Valid() && procs != [] && addr == PcbAddr(activeProcNum) && 2 <= fd < MAX_FILES && buf != 0
      requires desc == PcbAt(mem, addr).fDescs[fd] && desc.flags == FLAG_ACTIVE
      requires (desc.ops == FILE_OPS || desc.ops == DIR_OPS) && IsOpen(State(), fd)
      requires Running(State()).slots[fd - 2] == SlotOf(desc)
      requires Harmless(fs, State(), Event.Read(fd, buf, nbytes, keys))
      modifies this
      ensures Valid() && State() == AfterRead(fs, old(State()), fd, buf, nbytes, keys)
      ensures n == ReadResult(fs, old(State()), fd, buf, nbytes, keys).0
    {
      hide Stands, IsMachine, PcbsStand, PcbAt, PcbsIn, Outside, SparesKernel, PosAfterRead, Filled;
      ghost var m := State();
      var bytes, pos;
      if desc.ops == FILE_OPS {
        n, bytes, pos := ReadFile(desc, nbytes);
      } else {
        n, bytes, pos := ReadDirectory(desc, nbytes);
      }
      assert (n, bytes) == ReadResult(fs, m, fd, buf, nbytes, keys);
      hide ReadResult;
      var ok := Deliver(buf, bytes);
      if ok {
        MoveFd(addr, fd, desc, pos);
      }
    }

    /** The store of read into its descriptor. */
    method MoveFd(addr: int, fd: int, desc: Fd, pos: dword)
      requires Valid() && procs != [] && addr == PcbAddr(activeProcNum) && 2 <= fd < MAX_FILES
      requires desc == PcbAt(mem, addr).fDescs[fd]
      requires FdStands(desc, SlotOf(desc)) && desc.flags == FLAG_ACTIVE
      modifies this
      ensures Valid() && |old(Running(State())).slots| == NUM_SLOTS
      ensures State() == WithSlot(old(State()), fd - 2, SlotOf(desc).(pos := pos))
    {
      hide Stands, IsMachine, PcbsStand, PcbAt, PcbsIn, Outside, IsSystem, Becomes;
      ghost var before := mem;
      PutFdField(addr, fd, FD_POS, pos, activeProcNum);
      Commit(fd, desc.(filePos := pos), before);
    }

    /** read on a file's descriptor */
    method ReadFile(desc: Fd, nbytes: int) returns (n: int, bytes: seq<byte>, pos: dword)
      requires IsSystem(fs) && desc.flags == FLAG_ACTIVE && desc.ops == FILE_OPS
      ensures pos == PosAfterRead(fs, SlotOf(desc), nbytes)
      ensures if desc.inode < |fs.inodes| then
                && n == Delivered(fs.inodes[desc.inode].length, desc.filePos, nbytes % WORD32)
                && bytes == BytesAt(fs, desc.inode, desc.filePos, n)
              else n == -1 && bytes == []
    {
      var file := new OpenFile(desc.inode, desc.filePos);
      var buf := new byte[nbytes % WORD32](_ => NUL);
      n := file.FileRead(fs, buf, nbytes);
      bytes, pos := if n < 0 then [] else buf[..n], file.filePos;
    }

    /** read on a directory's descriptor */
    method ReadDirectory(desc: Fd, nbytes: int) returns (n: int, bytes: seq<byte>, pos: dword)
      requires IsSystem(fs) && desc.flags == FLAG_ACTIVE && desc.ops == DIR_OPS
      ensures pos == PosAfterRead(fs, SlotOf(desc), nbytes)
      ensures if desc.filePos < MAX_DENTRIES && NameOf(fs.dentries[desc.filePos]) != []
              then n == NAME_SIZE && bytes == Padded(NameOf(fs.dentries[desc.filePos])) else n == 0 && bytes == []
    {
      var dir := new OpenDirectory(desc.filePos);
      var buf := new byte[NAME_SIZE](_ => NUL);
      n := dir.DirRead(fs, buf);
      bytes, pos := buf[..n], dir.filePos;
    }

    /** getargs */
    method GetArgs(buf: int, nbytes: int) returns (ret: int)
      requires Valid() && procs != [] && Harmless(fs, State(), Event.GetArgs(buf, nbytes))
      modifies this
      ensures Valid() && State() == AfterGetArgs(old(State()), buf, nbytes)
      ensures ret == ArgResult(old(State()), buf, nbytes).0
    {
      hide Stands, IsMachine, PcbsStand, PcbAt, Outside, SparesKernel, IsSystem;
      NothingFilled(State(), buf);
      if buf == 0 {
        return -1;
      }
      TopRecords(PcbsIn(mem), procs);
      var arg := CString(PcbAt(mem, MB8 - STACK_8KB * (activeProcNum + 1)).argBuff);
      hide PcbsIn, Filled;
      if nbytes % WORD32 < |arg| {
        return -1;
      }
      var _ := Deliver(buf, arg + [NUL]);
      ret := 0;
    }

    // ----------------------------------------------------------- memory

    /** A store of the running program. */
    method UserStore(va: int, b: byte)
      requires Valid() && procs != [] && 0 <= va < WORD32
      modifies this`mem
      ensures Valid() && State() == Stored(old(State()), va, b)
    {
      StoreIsLocal(State(), va, b);
      UserStoreOutside(mem, space, va, b);
      hide Stands, IsSystem, IsMachine, PcbsStand, PcbsIn, Outside;
      var target := mmu.Translate(va, space);
      if target.Phys? && target.user {
        mem := mem[target.addr := b];
      }
    }

    /** vidmap */
    method Vidmap(screenStart: int) returns (ret: int)
      requires Valid() && procs != []
      modifies this, mmu.pageDir, mmu.userPageTable
      ensures Valid() && State() == AfterVidmap(old(State()), screenStart)
      ensures ret == if USER_IMG_START <= screenStart < USER_IMG_END then USER_IMG_END else -1
    {
      if screenStart < USER_IMG_START || screenStart >= USER_IMG_END {
        return -1;
      }
      VidmapKeepsMachine(State());
      hide Stands, IsSystem, PcbsStand, PcbsIn, Outside, Filled, IsMachine, SparesKernel;
      mmu.NewUserVidPage(USER_IMG_END, space);
      space := space.(vidmap := true);
      RangeSparesKernel(screenStart, 4);
      var _ := Deliver(screenStart, USER_IMG_END_BYTES);
      ret := USER_IMG_END;
    }

    /** The copy between the screen and the page of the terminal that is mapped. */
    method CopyPage(save: bool)
      requires HasTables() && space.term >= 0
      modifies this`mem
      ensures HasTables()
      ensures mem == CopiedPage(old(mem), space.term, save)
    {
      hide Stands, IsSystem, CopiedMem;
      var dest, src := if save then TERM_VIR_ADDR else VIDEO, if save then VIDEO else TERM_VIR_ADDR;
      ghost var page := TERM_PHY_ADDR + space.term * KB4;
      ghost var to, from := if save then page else VIDEO, if save then VIDEO else page;
      CopyNothing(mem, to, from);
      for i := 0 to KB4
        invariant HasTables() && mem == CopiedMem(old(mem), to, from, i)
      {
        var d := mmu.Translate(dest + i, space);
        var s := mmu.Translate(src + i, space);
        CopyStep(old(mem), to, from, i);
        mem := mem[d.addr := mem[s.addr]];
      }
    }

    /** Maps a terminal's page and copies it from or to the screen. */
    method MapAndCopy(termId: int, save: bool)
      requires HasTables() && 0 <= termId < NUM_TERM
      modifies this`mem, this`space, mmu.pageDir, mmu.userPageTable
      ensures HasTables() && space == old(space).(term := termId) && procIdFlags[..] == old(procIdFlags[..])
      ensures PcbsIn(mem) == PcbsIn(old(mem))
      ensures Machine([], space, Outside(mem))
              == AfterTerminal(Machine([], old(space), Outside(old(mem))), termId, save)
    {
      OutsideTerminal(mem, space, termId, save);
      hide Stands, IsSystem, CopiedPage, Outside, PcbsIn, AfterTerminal;
      var _ := mmu.MapTermVid(termId, space);
      space := space.(term := termId);
      CopyPage(save);
    }

    /** What terminal_save and terminal_restore do to memory: map the terminal's page and copy
        4096 bytes from the screen to it or back. */
    method CopyTerminal(termId: int, save: bool) returns (ret: int)
      requires Valid() && procs != [] && termId >= 0
      modifies this, mmu.pageDir, mmu.userPageTable
      ensures Valid() && State() == AfterTerminal(old(State()), termId, save)
      ensures ret == if termId < NUM_TERM then 0 else -1
    {
      if termId >= NUM_TERM {
        return -1;
      }
      TerminalIsLocal(State(), termId, save);
      LocalKeepsMachine(State(), AfterTerminal(State(), termId, save));
      hide Stands, IsSystem, PcbsStand, CopiedPage, Outside, PcbsIn, IsMachine, LocalChange;
      MapAndCopy(termId, save);
      ret := 0;
    }

    // ----------------------------------------------------------- runs

    /** The first execute, at the end of init_terminals.  It starts a process exactly when the file
        system has a shell. */
    method Boot(frame: Frame)
      requires Valid() && procs == []
      modifies this, procIdFlags, mmu.pageDir
      ensures Valid() && State() == Executed(fs, old(State()), SHELL, frame)
      ensures procs != [] <==> Boots(fs)
    {
      hide Stands, PcbsStand, IsMachine, Outside, PcbsIn;
      ShellFits();
      assert IsText(SHELL);
      var _, _ := Execute(SHELL, frame);
    }

    /** Handles one event. */
    method Handle(e: Event)
      requires Valid() && procs != [] && IsRequest(e) && Boots(fs) && Harmless(fs, State(), e)
      modifies this, procIdFlags, mmu.pageDir, mmu.userPageTable
      ensures Valid() && State() == Step(fs, old(State()), e) && procs != []
    {
      ghost var m := State();
      StepIsChange(fs, m, e);
      ChangeKeepsMachine(m, Step(fs, m, e));
      hide IsMachine, PcbsStand, PcbsIn, Outside, Stands, SparesKernel, Change;
      match e
      case Execute(cmd, frame) => var _, _ := Execute(cmd, frame);
      case Halt(status, frame) => var _, _, _ := Halt(status, esp0, frame);
      case Open(name) => var _ := Open(name, esp0);
      case Close(fd) => var _ := Close(fd, esp0);
      case Read(fd, buf, n, keys) => var _ := Read(fd, buf, n, keys, esp0);
      case GetArgs(buf, n) => var _ := GetArgs(buf, n);
      case Vidmap(ptr) => var _ := Vidmap(ptr);
      case Terminal(term, save) => var _ := CopyTerminal(term, save);
      case Store(va, b) => UserStore(va, b);
    }

    /** Over every run of harmless requests the kernel stays valid and keeps to the machine. */
    method Serve(es: seq<Event>)
      requires Valid() && procs != [] && Boots(fs) && forall k :: 0 <= k < |es| ==> IsRequest(es[k])
      requires AllHarmless(fs, State(), es)
      modifies this, procIdFlags, mmu.pageDir, mmu.userPageTable
      ensures Valid() && procs != [] && State() == Run(fs, old(State()), es)
    {
      hide Step, Boots, IsMachine, Harmless;
      ghost var m := State();
      assert es[..|es|] == es && es[..0] == [];
      forall k | 0 <= k <= |es|
        ensures AllHarmless(fs, m, es[..k])
      {
        PrefixIsHarmless(fs, m, es, k);
      }
      for k := 0 to |es|
        invariant Valid() && procs != [] && State() == Run(fs, m, es[..k])
      {
        assert es[..k + 1][..k] == es[..k];
        assert AllHarmless(fs, m, es[..k + 1]);
        Handle(es[k]);
      }
    }
  }

  // ------------------------------------------------------------- what the methods need

  /** A descriptor of the newest process: the terminal at 0 and 1, and what its slot says behind. */
  ghost predicate DescStands(m: Machine, fd: int, desc: Fd)
    requires m.procs != []
  {
    && |Running(m).slots| == NUM_SLOTS
    && (fd == 0 ==> desc.flags == FLAG_ACTIVE && desc.ops == STDIN_OPS)
    && (fd == 1 ==> desc.flags == FLAG_ACTIVE && desc.ops == STDOUT_OPS)
    && (2 <= fd < MAX_FILES ==> FdStands(desc, Running(m).slots[fd - 2]))
  }

  lemma {:induction false} TopDesc(mem: Memory, m: Machine, fd: int, desc: Fd)
    requires IsTotal(mem) && IsMachine(m) && PcbsStand(PcbsIn(mem), m.procs)
    requires 0 <= fd < MAX_FILES ==> desc == PcbAt(mem, PcbAddr(|m.procs| - 1)).fDescs[fd]
    ensures DescStands(m, fd, desc)
  {
    hide PcbAt, PcbsStand, FdStands;
    TopFd(PcbsIn(mem), m.procs, fd);
  }

  lemma {:induction false} NotOpen(m: Machine, fd: int, desc: Fd, buf: int)
    requires m.procs != [] && DescStands(m, fd, desc)
    requires buf == 0 || !(0 <= fd < MAX_FILES) || desc.flags != FLAG_ACTIVE
    ensures buf == 0 || (fd != 0 && !IsOpen(m, fd))
  {
  }

  /** What an open descriptor's jump table says about its number. */
  lemma {:induction false} ReadKinds(m: Machine, fd: int, desc: Fd)
    requires m.procs != [] && DescStands(m, fd, desc) && 0 <= fd < MAX_FILES && desc.flags == FLAG_ACTIVE
    ensures desc.ops == STDIN_OPS <==> fd == 0
    ensures IsFileOps(desc.ops) <==> fd >= 2
    ensures fd >= 2 <==> IsOpen(m, fd)
    ensures fd >= 2 ==> Running(m).slots[fd - 2] == SlotOf(desc)
    ensures desc.ops == RTC_OPS ==> fd >= 2 && Running(m).slots[fd - 2].kind == RtcKind
  {
  }

  predicate CanClose(pcb: Pcb, fd: int) {
    2 <= fd < MAX_FILES && pcb.fDescs[fd].flags == FLAG_ACTIVE
  }

  function ClosedFd(pcb: Pcb, fd: int): Pcb
  {
    if CanClose(pcb, fd) then WithField(pcb, fd, FD_FLAGS, FLAG_INACTIVE) else pcb
  }

  /** What halt does to a descriptor. */
  function ClosedSlot(pcb: Pcb, fd: int): Pcb
    requires 0 <= fd < MAX_FILES
  {
    WithField(ClosedFd(pcb, fd), fd, FD_OPS, NO_FILE_OPS)
  }

  /** Only descriptors differ, and those below n are closed, except 0 and 1. */
  ghost predicate ClosedUpTo(before: Pcb, pcb: Pcb, n: int)
  {
    && pcb == before.(fDescs := pcb.fDescs)
    && forall j :: 2 <= j < n && j < MAX_FILES ==> pcb.fDescs[j].flags != FLAG_ACTIVE
  }

  lemma {:induction false} ClosedNext(before: Pcb, pcb: Pcb, i: int)
    requires ClosedUpTo(before, pcb, i) && 0 <= i < MAX_FILES
    ensures ClosedUpTo(before, ClosedSlot(pcb, i), i + 1)
  {
  }

  lemma {:induction false} UnchangedPcbs(mem: Memory, mem': Memory, id: int, pcb: Pcb)
    requires Becomes(mem, mem', id, pcb) && 0 <= id < MAX_PROCESSES && IsTotal(mem) && pcb == PcbAt(mem, PcbAddr(id))
    ensures IsTotal(mem') && PcbsIn(mem') == PcbsIn(mem) && Outside(mem') == Outside(mem)
  {
    BecomesChanges(mem, mem', id, pcb);
    hide PcbAt, Becomes, Outside;
    assert PcbsIn(mem)[id := pcb] == PcbsIn(mem);
  }

  function WithStdFd(pcb: Pcb, fd: int, ops: dword): Pcb
    requires 0 <= fd < MAX_FILES
  {
    WithField(WithField(pcb, fd, FD_FLAGS, FLAG_ACTIVE), fd, FD_OPS, ops)
  }

  function WithArgument(pcb: Pcb, arg: seq<byte>): Pcb
    requires |arg| < MAX_ARG
  {
    pcb.(argBuff := WithArg(pcb.argBuff, arg))
  }

  function OwnPcb(pcb: Pcb, id: byte, frame: Frame, arg: seq<byte>): Pcb
    requires |arg| < MAX_ARG
  {
    var numbered := pcb.(procNum := id, ksp := frame.esp, kbp := frame.ebp);
    WithArgument(WithStdFd(WithStdFd(numbered, 0, STDIN_OPS), 1, STDOUT_OPS), arg)
  }

  function WithParent(pcb: Pcb, parent: Pcb): Pcb
  {
    pcb.(parentProcNum := parent.procNum, parentKsp := parent.ksp, parentKbp := parent.kbp)
  }

  lemma {:induction false} OwnNumber(pcb: Pcb, id: byte, frame: Frame, arg: seq<byte>)
    requires |arg| < MAX_ARG
    ensures OwnPcb(pcb, id, frame, arg).procNum == id
  {
  }

  lemma {:induction false} NextStands(pcbs: seq<Pcb>, procs: seq<Proc>)
    requires PcbsStand(pcbs, procs) && |procs| < MAX_PROCESSES
    ensures var k := |procs|;
            |pcbs| == MAX_PROCESSES && IsIdle(pcbs[k]) && (k > 0 ==> Represents(pcbs[k - 1], k - 1, procs))
  {
    assert PcbStands(pcbs, |procs|, procs);
    assert |procs| > 0 ==> PcbStands(pcbs, |procs| - 1, procs);
  }

  /** The PCB that execute makes of what is in memory. */
  function NewPcb(mem: Memory, id: byte, frame: Frame, arg: seq<byte>): Pcb
    requires IsTotal(mem) && |arg| < MAX_ARG
  {
    var own := OwnPcb(PcbAt(mem, PcbAddr(id)), id, frame, arg);
    WithParent(own, if id == 0 then own else PcbAt(mem, PcbAddr(id - 1)))
  }

  lemma {:induction false} NewRepresents(mem: Memory, procs: seq<Proc>, id: byte, frame: Frame, arg: seq<byte>)
    requires IsTotal(mem) && PcbsStand(PcbsIn(mem), procs) && id == |procs| < MAX_PROCESSES
    requires NUL !in arg && |arg| < MAX_ARG
    ensures Represents(NewPcb(mem, id, frame, arg), id, procs + [Proc(frame, arg, NO_SLOTS)])
  {
    hide PcbAt, OwnPcb, WithParent;
    NextStands(PcbsIn(mem), procs);
    var p0 := PcbAt(mem, PcbAddr(id));
    var parent := if id == 0 then OwnPcb(p0, id, frame, arg) else PcbAt(mem, PcbAddr(id - 1));
    assert PcbsIn(mem)[id] == p0 && (id > 0 ==> PcbsIn(mem)[id - 1] == parent);
    hide PcbsIn;
    FilledRepresents(p0, parent, id, frame, arg, procs);
  }

  lemma {:induction false} FilledRepresents(pcb: Pcb, parent: Pcb, id: byte, frame: Frame, arg: seq<byte>,
                                            procs: seq<Proc>)
    requires id == |procs| < MAX_PROCESSES && IsIdle(pcb) && NUL !in arg && |arg| < MAX_ARG
    requires if id == 0 then parent == OwnPcb(pcb, id, frame, arg) else Represents(parent, id - 1, procs)
    ensures Represents(WithParent(OwnPcb(pcb, id, frame, arg), parent), id, procs + [Proc(frame, arg, NO_SLOTS)])
  {
  }

  /** The argument buffer with the first k bytes of a text written over it. */
  function Spliced(pcb: Pcb, text: seq<byte>, k: nat): Pcb
    requires k <= |text| <= MAX_ARG
  {
    pcb.(argBuff := text[..k] + pcb.argBuff[k..])
  }

  lemma {:induction false} SpliceNext(pcb: Pcb, text: seq<byte>, k: nat)
    requires k < |text| <= MAX_ARG
    ensures WithArgByte(Spliced(pcb, text, k), k, text[k]) == Spliced(pcb, text, k + 1)
  {
    var a, b := (text[..k] + pcb.argBuff[k..])[k := text[k]], text[..k + 1] + pcb.argBuff[k + 1..];
    assert a == b;
  }

  lemma {:induction false} SplicedAll(pcb: Pcb, arg: seq<byte>)
    requires |arg| < MAX_ARG
    ensures Spliced(pcb, arg + [NUL], |arg| + 1) == WithArgument(pcb, arg)
  {
    assert (arg + [NUL])[..|arg| + 1] == arg + [NUL];
  }

  lemma {:induction false} NothingWritten(mem: Memory, s: Space, va: int)
    ensures Written(mem, s, va, []) == mem
  {
  }

  lemma {:induction false} NothingFilled(m: Machine, buf: int)
    ensures Filled(m, buf, []) == m && AllReached(m.space, buf, 0)
  {
  }

  /** Deliveries that spare the kernel's page are deliveries to the memory of the programs. */
  lemma {:induction false} FilledOutside(mem: Memory, s: Space, buf: int, bytes: seq<byte>)
    requires IsTotal(mem) && IsSpace(s) && SparesKernel(buf, |bytes|)
    ensures IsTotal(Stuffed(mem, s, buf, bytes)) && PcbsIn(Stuffed(mem, s, buf, bytes)) == PcbsIn(mem)
    ensures forall i :: 0 <= i < MAX_PROCESSES ==>
              PcbAt(Stuffed(mem, s, buf, bytes), PcbAddr(i)) == PcbAt(mem, PcbAddr(i))
    ensures Outside(Stuffed(mem, s, buf, bytes)) == Stuffed(Outside(mem), s, buf, bytes)
  {
    var stored := bytes[..Reached(s, buf, |bytes|)];
    assert SparesKernel(buf, |stored|);
    OutsideWritten(mem, s, buf, stored);
    hide PcbAt, Outside, Written;
    assert forall i :: 0 <= i < MAX_PROCESSES ==> PcbsIn(Stuffed(mem, s, buf, bytes))[i] == PcbsIn(mem)[i];
  }

  lemma {:induction false} UserStoreOutside(mem: Memory, s: Space, va: int, b: byte)
    requires IsTotal(mem) && IsSpace(s)
    ensures var target := Meaning(s, va);
            target.Phys? && target.user ==>
              && IsTotal(mem[target.addr := b]) && PcbsIn(mem[target.addr := b]) == PcbsIn(mem)
              && Outside(mem[target.addr := b]) == Outside(mem)[target.addr := b]
  {
    hide PcbsIn;
    var target := Meaning(s, va);
    if target.Phys? && target.user {
      OutsidePut(mem, target.addr, b);
    }
  }

  lemma {:induction false} OutsideTerminal(mem: Memory, s: Space, t: int, save: bool)
    requires IsTotal(mem) && 0 <= t < NUM_TERM
    ensures var mem' := CopiedPage(mem, t, save);
            && IsTotal(mem') && PcbsIn(mem') == PcbsIn(mem)
            && Machine([], s.(term := t), Outside(mem')) == AfterTerminal(Machine([], s, Outside(mem)), t, save)
  {
    hide CopiedMem, Outside, PcbsIn;
    var page := TERM_PHY_ADDR + t * KB4;
    if save {
      OutsideCopied(mem, page, VIDEO, KB4);
    } else {
      OutsideCopied(mem, VIDEO, page, KB4);
    }
  }

  lemma {:induction false} VidmapKeepsMachine(m: Machine)
    requires IsMachine(m)
    ensures IsMachine(m.(space := m.space.(vidmap := true)))
  {
  }

  lemma {:induction false} PrefixIsHarmless(fs: Image, m: Machine, es: seq<Event>, k: nat)
    requires Boots(fs) && IsMachine(m) && AllHarmless(fs, m, es) && k <= |es|
    ensures AllHarmless(fs, m, es[..k])
  {
    hide Harmless, Step, IsMachine, Boots;
    if k < |es| {
      PrefixIsHarmless(fs, m, es[..|es| - 1], k);
      assert es[..|es| - 1][..k] == es[..k];
    } else {
      assert es[..k] == es;
    }
  }

  /** A getargs whose buffer is the argument of another process, in the kernel's page, succeeds and
      breaks the kernel's records: called by a process without an argument, it leaves that process
      without one. */
  lemma {:induction false} UncheckedBufferBreaksRecords(mem: Memory, m: Machine, n: int, id: int)
    requires IsTotal(mem) && IsMachine(m) && 0 <= id < |m.procs| && PcbsStand(PcbsIn(mem), m.procs)
    requires Running(m).arg == [] && m.procs[id].arg != []
    ensures var buf := PcbAddr(id) + ARG_BUFF;
            var (ret, bytes) := ArgResult(m, buf, n);
            var mem' := Stuffed(mem, m.space, buf, bytes);
            ret == 0 && IsTotal(mem') && !PcbsStand(PcbsIn(mem'), m.procs)
  {
    hide PcbsStand, Stuffed, ArgAt, IsMachine, IsTotal;
    var mem' := Stuffed(mem, m.space, PcbAddr(id) + ARG_BUFF, [NUL]);
    assert [] + [NUL] == [NUL];
    AnyMachine(m);
    ArgumentOverwritten(mem, m.space, id, NUL);
    OtherArgument(mem', m.procs, id);
  }

  lemma {:induction false} AnyMachine(m: Machine)
    requires IsMachine(m)
    ensures 1 <= |m.procs| <= MAX_PROCESSES && IsSpace(m.space)
  {
  }

  lemma {:induction false} OtherArgument(mem: Memory, procs: seq<Proc>, id: int)
    requires IsTotal(mem) && 0 <= id < |procs| <= MAX_PROCESSES
    requires ArgAt(mem, PcbAddr(id))[0] == NUL && procs[id].arg != []
    ensures !PcbsStand(PcbsIn(mem), procs)
  {
    hide FdsAt, GetWord, ArgAt;
    var pcb := PcbAt(mem, PcbAddr(id));
    assert CString(pcb.argBuff) == [];
    assert !PcbStands(PcbsIn(mem), id, procs);
  }

  /** A command line is a C string. */
  predicate IsText(command: seq<byte>) {
    forall k :: 0 <= k < |command| ==> command[k] != NUL
  }

  /** What programs can pass: C strings, 32-bit addresses, unsigned terminal numbers. */
  ghost predicate IsRequest(e: Event)
  {
    match e
    case Execute(cmd, frame) => IsText(cmd)
    case Open(name) => NUL !in name
    case Terminal(term, save) => term >= 0
    case Store(va, b) => 0 <= va < WORD32
    case _ => true
  }

  lemma {:induction false} CopyNothing(mem: Memory, to: int, from: int)
    requires IsTotal(mem)
    ensures CopiedMem(mem, to, from, 0) == mem
  {
  }

  lemma {:induction false} CopyStep(mem: Memory, to: int, from: int, i: nat)
    requires IsTotal(mem) && i < KB4 && (to + KB4 <= from || from + KB4 <= to)
    ensures var mem' := CopiedMem(mem, to, from, i);
            from + i in mem' && mem'[to + i := mem'[from + i]] == CopiedMem(mem, to, from, i + 1)
  {
  }

  lemma {:induction false} LoadNothing(mem: Memory, base: int)
    requires IsTotal(mem)
    ensures Loaded(mem, base, []) == mem
  {
  }

  lemma {:induction false} LoadStep(mem: Memory, base: int, content: seq<byte>, i: nat)
    requires i < |content| && IsTotal(mem)
    ensures Loaded(mem, base, content[..i])[base + i := content[i]] == Loaded(mem, base, content[..i + 1])
  {
  }

  lemma {:induction false} PopFlag(flags: seq<int>, k: int)
    requires 0 <= k < MAX_PROCESSES && FlagsAre(flags, k + 1)
    ensures FlagsAre(flags[k := 0], k)
  {
  }

  ghost predicate FlagsAre(flags: seq<int>, n: int)
  {
    |flags| == MAX_PROCESSES && forall i :: 0 <= i < MAX_PROCESSES ==> flags[i] == if i < n then 1 else 0
  }

  lemma {:induction false} FullFlags(flags: seq<int>, n: int)
    requires FlagsAre(flags, n) && 0 <= n <= MAX_PROCESSES
    requires forall i :: 0 <= i < MAX_PROCESSES ==> flags[i] != 0
    ensures n == MAX_PROCESSES
  {
    assert flags[if n < MAX_PROCESSES then n else 0] != 0;
  }

  lemma {:induction false} NextFlag(flags: seq<int>, n: int, id: int)
    requires FlagsAre(flags, n) && 0 <= n <= MAX_PROCESSES && 0 <= id < MAX_PROCESSES
    requires flags[id] == 0 && forall i :: 0 <= i < id ==> flags[i] != 0
    ensures id == n && FlagsAre(flags[id := 1], n + 1)
  {
    assert flags[if n < id then n else id] == 0;
  }

  /** The number that bytes make up, most significant first. */
  function Big(bytes: seq<byte>): int
  {
    if bytes == [] then 0 else Big(bytes[..|bytes| - 1]) * 0x100 + bytes[|bytes| - 1]
  }

  lemma {:induction false} MagicBytes(b: seq<byte>)
    requires |b| == 4
    ensures Big(b) == ASCII_ELF <==> b == ELF_MAGIC
  {
    assert Big(b[..1]) == Big(b[..1][..0]) * 0x100 + b[0];
    assert Big(b[..2]) == Big(b[..2][..1]) * 0x100 + b[1] && b[..2][..1] == b[..1];
    assert Big(b[..3]) == Big(b[..3][..2]) * 0x100 + b[2] && b[..3][..2] == b[..2];
    assert b == [b[0], b[1], b[2], b[3]];
  }

  lemma {:induction false} TokensHaveNoNul(command: seq<byte>)
    requires IsText(command)
    ensures NUL !in FirstToken(command) && NUL !in SecondToken(command)
  {
    NoNulInToken(command);
    NoNulInToken(AfterFirst(command));
  }

  lemma {:induction false} NoNulInToken(s: seq<byte>)
    requires IsText(s)
    ensures NUL !in FirstToken(s) && IsText(AfterFirst(s))
  {
    NoNulAfterSpaces(s);
    assert forall k :: 0 <= k < |FirstToken(s)| ==> FirstToken(s)[k] == SkipSpaces(s)[k];
  }

  lemma {:induction false} NoNulAfterSpaces(s: seq<byte>)
    requires IsText(s)
    ensures IsText(SkipSpaces(s))
  {
    if s != [] && s[0] == SPACE {
      NoNulAfterSpaces(s[1..]);
    }
  }
}
