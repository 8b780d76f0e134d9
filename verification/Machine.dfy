/** What the kernel's processes, descriptors and memory look like from outside: a stack of processes
    over one physical memory.  Kernel.dfy proves that the code keeps to it. */
module Machine {
  import opened Bytes
  import opened CommandLine
  import opened FileSystem
  import opened Paging
  import opened Sizes
  import opened Stores
  import Terminal

  const MAX_PROCESSES := 6
  const NUM_SLOTS := 6                  // descriptors 2..7
  const PROG_OFFSET := 0x4_8000         // where a program starts in its 4MB image
  const SHELL: seq<byte> := [115, 104, 101, 108, 108]
  const ELF_MAGIC: seq<byte> := [0x7F, 0x45, 0x4C, 0x46]

  datatype Option<+T> = None | Some(value: T)

  datatype Kind = FileKind | DirKind | RtcKind

  datatype Slot = Closed | Opened(kind: Kind, inode: nat, pos: nat)

  /** Stack and base pointer of the kernel at the time of an execute. */
  datatype Frame = Frame(esp: dword, ebp: dword)

  /** A process: where its creator resumes, its argument, its descriptors from 2 on. */
  datatype Proc = Proc(frame: Frame, arg: seq<byte>, slots: seq<Slot>)

  /** The processes, the mapped pages and the memory of the programs. */
  datatype Machine = Machine(procs: seq<Proc>, space: Space, mem: Memory)

  ghost predicate IsProc(p: Proc)
  {
    |p.slots| == NUM_SLOTS && |p.arg| < MAX_ARG
  }

  /** One to six processes, the newest of which is running in its own image. */
  ghost predicate IsMachine(m: Machine)
  {
    && 1 <= |m.procs| <= MAX_PROCESSES && (forall i :: 0 <= i < |m.procs| ==> IsProc(m.procs[i]))
    && IsSpace(m.space) && m.space.image == |m.procs| - 1
    && IsOutside(m.mem)
  }

  /** Every entry refers to an inode and every file fits behind its load address. */
  ghost predicate IsSystem(fs: Image)
  {
    && IsImage(fs) && |fs.inodes| <= WORD32
    && (forall i :: 0 <= i < MAX_DENTRIES ==> fs.dentries[i].inode < |fs.inodes|)
    && (forall i :: 0 <= i < |fs.inodes| ==> fs.inodes[i].length <= MB4 - PROG_OFFSET)
  }

  // ------------------------------------------------------------- programs

  datatype Program = Program(arg: seq<byte>, inode: nat)

  ghost predicate IsExecutable(fs: Image, inode: nat)
    requires inode < |fs.inodes|
  {
    Delivered(fs.inodes[inode].length, 0, 4) == 4 && BytesAt(fs, inode, 0, 4) == ELF_MAGIC
  }

  /** The program that a command line names, if it names one. */
  ghost function Named(fs: Image, cmd: seq<byte>): (r: Option<Program>)
    requires IsSystem(fs)
    ensures r.Some? ==> r.value.inode < |fs.inodes|
  {
    var k := Lookup(fs.dentries, FirstToken(cmd));
    if k == MAX_DENTRIES || !IsExecutable(fs, fs.dentries[k].inode) then None
    else Some(Program(SecondToken(cmd), fs.dentries[k].inode))
  }

  const NO_SLOTS: seq<Slot> := [Closed, Closed, Closed, Closed, Closed, Closed]

  /** A new process on top of the stack. */
  ghost function Pushed(fs: Image, m: Machine, p: Program, frame: Frame): Machine
    requires p.inode < |fs.inodes|
  {
    Machine(m.procs + [Proc(frame, p.arg, NO_SLOTS)], m.space.(image := |m.procs|),
            Loaded(m.mem, ImageBase(|m.procs|) + PROG_OFFSET, Content(fs, p.inode)))
  }

  /** execute leaves everything as it was when there is no such program or no free process id. */
  ghost function Executed(fs: Image, m: Machine, cmd: seq<byte>, frame: Frame): Machine
    requires IsSystem(fs)
  {
    var p := Named(fs, cmd);
    if p.None? || |m.procs| == MAX_PROCESSES then m else Pushed(fs, m, p.value, frame)
  }

  /** halt pops the running process; the last one is replaced by a new shell. */
  ghost function Halted(fs: Image, m: Machine, frame: Frame): Machine
    requires IsSystem(fs) && m.procs != []
  {
    var k := |m.procs| - 1;
    if k == 0 then Executed(fs, m.(procs := [], space := m.space.(image := 0)), SHELL, frame)
    else m.(procs := m.procs[..k], space := m.space.(image := k - 1))
  }

  /** What a parent sees as the result of execute: the status byte, with 1 reported as 256. */
  function StatusToParent(status: byte): int
  {
    if status == 1 then 256 else status
  }

  // ------------------------------------------------------------- descriptors

  function LowestClosed(slots: seq<Slot>): (j: nat)
    ensures j <= |slots|
    ensures j < |slots| ==> slots[j] == Closed
    ensures forall i :: 0 <= i < j ==> slots[i] != Closed
  {
    if slots == [] || slots[0] == Closed then 0 else 1 + LowestClosed(slots[1..])
  }

  lemma {:induction false} LowestClosedIs(slots: seq<Slot>, j: nat)
    requires j <= |slots| && (j < |slots| ==> slots[j] == Closed) && forall i :: 0 <= i < j ==> slots[i] != Closed
    ensures LowestClosed(slots) == j
  {
    if j > 0 {
      LowestClosedIs(slots[1..], j - 1);
    }
  }

  function KindOf(fileType: int): Kind
  {
    if fileType == 1 then DirKind else if fileType == 2 then FileKind else RtcKind
  }

  /** A descriptor that was just opened; the inode only counts for files. */
  function OpenedAs(fileType: int, inode: nat): Slot
  {
    var kind := KindOf(fileType);
    Opened(kind, if kind == FileKind then inode else 0, 0)
  }

  ghost function WithSlot(m: Machine, j: nat, s: Slot): Machine
    requires m.procs != [] && j < |m.procs[|m.procs| - 1].slots|
  {
    var k := |m.procs| - 1;
    m.(procs := m.procs[k := m.procs[k].(slots := m.procs[k].slots[j := s])])
  }

  lemma {:induction false} SameSlot(m: Machine, j: nat)
    requires m.procs != [] && j < |Running(m).slots|
    ensures WithSlot(m, j, Running(m).slots[j]) == m
  {
    var k := |m.procs| - 1;
    assert m.procs[k].slots[j := m.procs[k].slots[j]] == m.procs[k].slots;
    assert m.procs[k := m.procs[k]] == m.procs;
  }

  function Running(m: Machine): Proc
    requires m.procs != []
  {
    m.procs[|m.procs| - 1]
  }

  ghost function OpenResult(fs: Image, m: Machine, name: seq<byte>): int
    requires IsSystem(fs) && m.procs != []
  {
    var j := LowestClosed(Running(m).slots);
    if name == [] || Lookup(fs.dentries, name) == MAX_DENTRIES || j == |Running(m).slots| then -1 else j + 2
  }

  ghost function AfterOpen(fs: Image, m: Machine, name: seq<byte>): Machine
    requires IsSystem(fs) && IsMachine(m)
  {
    var fd := OpenResult(fs, m, name);
    if fd == -1 then m
    else
      var entry := fs.dentries[Lookup(fs.dentries, name)];
      WithSlot(m, fd - 2, OpenedAs(entry.fileType, entry.inode))
  }

  lemma {:induction false} OpenFails(fs: Image, m: Machine, name: seq<byte>)
    requires IsSystem(fs) && IsMachine(m)
    requires name == [] || Lookup(fs.dentries, name) == MAX_DENTRIES || LowestClosed(Running(m).slots) == NUM_SLOTS
    ensures OpenResult(fs, m, name) == -1 && AfterOpen(fs, m, name) == m
  {
  }

  lemma {:induction false} OpenSucceeds(fs: Image, m: Machine, name: seq<byte>, k: nat, fd: int)
    requires IsSystem(fs) && IsMachine(m) && name != [] && k == Lookup(fs.dentries, name) && k < MAX_DENTRIES
    requires fd == LowestClosed(Running(m).slots) + 2 && fd < NUM_SLOTS + 2
    ensures OpenResult(fs, m, name) == fd
    ensures AfterOpen(fs, m, name) == WithSlot(m, fd - 2, OpenedAs(fs.dentries[k].fileType, fs.dentries[k].inode))
  {
  }

  /** A valid name fails to open exactly when all six descriptors are taken. */
  lemma {:induction false} OpenFailsWhenFull(fs: Image, m: Machine, name: seq<byte>)
    requires IsSystem(fs) && IsMachine(m) && name != [] && Lookup(fs.dentries, name) < MAX_DENTRIES
    ensures OpenResult(fs, m, name) == -1 <==> forall fd :: 2 <= fd < 8 ==> IsOpen(m, fd)
    ensures OpenResult(fs, m, name) != -1 ==>
              var fd := OpenResult(fs, m, name);
              && 2 <= fd < 8 && !IsOpen(m, fd) && IsOpen(AfterOpen(fs, m, name), fd)
              && forall i :: 2 <= i < fd ==> IsOpen(m, i)
  {
    var slots := Running(m).slots;
    var j := LowestClosed(slots);
    assert forall i :: 2 <= i < j + 2 ==> IsOpen(m, i);
    if j < NUM_SLOTS {
      assert !IsOpen(m, j + 2);
    }
  }

  predicate IsOpen(m: Machine, fd: int)
    requires m.procs != []
  {
    2 <= fd < 2 + |Running(m).slots| && Running(m).slots[fd - 2].Opened?
  }

  ghost function AfterClose(m: Machine, fd: int): Machine
    requires IsMachine(m)
  {
    if IsOpen(m, fd) then WithSlot(m, fd - 2, Closed) else m
  }

  /** The position of a descriptor after a read. */
  ghost function PosAfterRead(fs: Image, s: Slot, n: int): nat
    requires IsSystem(fs) && s.Opened?
  {
    match s.kind
    case FileKind =>
      if s.inode < |fs.inodes| then (s.pos + Delivered(fs.inodes[s.inode].length, s.pos, n % WORD32)) % WORD32
      else (s.pos + WORD32 - 1) % WORD32
    case DirKind => if s.pos < MAX_DENTRIES && NameOf(fs.dentries[s.pos]) != [] then s.pos + 1 else 0
    case RtcKind => s.pos
  }

  /** What a read returns: a count and the bytes that it stores.  The keyboard's line is given by its
      key buffer; the clock delivers nothing. */
  ghost function ReadResult(fs: Image, m: Machine, fd: int, buf: int, n: int, keys: seq<byte>): (int, seq<byte>)
    requires IsSystem(fs) && m.procs != [] && |keys| == NUM_KEYS
  {
    if buf == 0 then (-1, [])
    else if fd == 0 then (Terminal.ReadResult(keys, n), Terminal.StoredKeys(keys, n))
    else if !IsOpen(m, fd) then (-1, [])
    else
      var s := Running(m).slots[fd - 2];
      match s.kind
      case FileKind =>
        if s.inode < |fs.inodes| then
          var d := Delivered(fs.inodes[s.inode].length, s.pos, n % WORD32);
          (d, BytesAt(fs, s.inode, s.pos, d))
        else (-1, [])
      case DirKind =>
        if s.pos < MAX_DENTRIES && NameOf(fs.dentries[s.pos]) != []
        then (NAME_SIZE, Padded(NameOf(fs.dentries[s.pos]))) else (0, [])
      case RtcKind => (0, [])
  }

  /** The kernel stores bytes where the program asked. */
  ghost function Filled(m: Machine, buf: int, bytes: seq<byte>): Machine
  {
    m.(mem := Stuffed(m.mem, m.space, buf, bytes))
  }

  predicate AllReached(s: Space, buf: int, n: nat)
  {
    Reached(s, buf, n) == n
  }

  /** A read advances its descriptor, unless a store faults. */
  ghost function AfterRead(fs: Image, m: Machine, fd: int, buf: int, n: int, keys: seq<byte>): Machine
    requires IsSystem(fs) && IsMachine(m) && |keys| == NUM_KEYS
  {
    var bytes := ReadResult(fs, m, fd, buf, n, keys).1;
    var m1 := Filled(m, buf, bytes);
    if buf != 0 && IsOpen(m, fd) && AllReached(m.space, buf, |bytes|) then
      var s := Running(m).slots[fd - 2];
      WithSlot(m1, fd - 2, s.(pos := PosAfterRead(fs, s, n)))
    else m1
  }

  lemma {:induction false} ReadFails(fs: Image, m: Machine, fd: int, buf: int, n: int, keys: seq<byte>)
    requires IsSystem(fs) && IsMachine(m) && |keys| == NUM_KEYS && (buf == 0 || (fd != 0 && !IsOpen(m, fd)))
    ensures AfterRead(fs, m, fd, buf, n, keys) == m && ReadResult(fs, m, fd, buf, n, keys) == (-1, [])
  {
  }

  lemma {:induction false} ReadsKeys(fs: Image, m: Machine, buf: int, n: int, keys: seq<byte>)
    requires IsSystem(fs) && IsMachine(m) && |keys| == NUM_KEYS && buf != 0
    ensures AfterRead(fs, m, 0, buf, n, keys) == Filled(m, buf, Terminal.StoredKeys(keys, n))
    ensures ReadResult(fs, m, 0, buf, n, keys) == (Terminal.ReadResult(keys, n), Terminal.StoredKeys(keys, n))
  {
  }

  lemma {:induction false} ReadsClock(fs: Image, m: Machine, fd: int, buf: int, n: int, keys: seq<byte>)
    requires IsSystem(fs) && IsMachine(m) && |keys| == NUM_KEYS && buf != 0
    requires IsOpen(m, fd) && Running(m).slots[fd - 2].kind == RtcKind
    ensures AfterRead(fs, m, fd, buf, n, keys) == m && ReadResult(fs, m, fd, buf, n, keys) == (0, [])
  {
    SameSlot(m, fd - 2);
  }

  /** getargs stores the argument and its terminator.  The size is compared as an unsigned word, and
      an argument that just fits takes one byte more. */
  ghost function ArgResult(m: Machine, buf: int, n: int): (int, seq<byte>)
    requires m.procs != []
  {
    if buf == 0 || n % WORD32 < |Running(m).arg| then (-1, []) else (0, Running(m).arg + [NUL])
  }

  /** For every 32-bit size: getargs stays inside the caller's buffer if and only if the size is not
      negative, which it takes for a large one, and not exactly the length of the argument, whose
      terminator it forgets. */
  lemma {:induction false} GetArgsStaysInside(m: Machine, buf: int, n: int)
    requires IsMachine(m) && buf != 0 && -0x8000_0000 <= n < 0x8000_0000
    ensures |ArgResult(m, buf, n).1| <= (if n < 0 then 0 else n) <==> 0 <= n && n != |Running(m).arg|
  {
    assert n % WORD32 == if n < 0 then n + WORD32 else n;
  }

  /** A buffer of exactly the argument's length gets one byte more. */
  lemma {:induction false} JustFittingArgument(m: Machine, buf: int)
    requires IsMachine(m) && buf != 0
    ensures ArgResult(m, buf, |Running(m).arg|) == (0, Running(m).arg + [NUL])
    ensures |ArgResult(m, buf, |Running(m).arg|).1| == |Running(m).arg| + 1
  {
    GetArgsStaysInside(m, buf, |Running(m).arg|);
  }

  ghost function AfterGetArgs(m: Machine, buf: int, n: int): Machine
    requires m.procs != []
  {
    Filled(m, buf, ArgResult(m, buf, n).1)
  }

  // ------------------------------------------------------------- memory

  /** A store by the running program; it faults unless the page is present for users. */
  ghost function Stored(m: Machine, va: int, b: byte): Machine
  {
    match Meaning(m.space, va)
    case Phys(a, user) => if user then m.(mem := m.mem[a := b]) else m
    case Fault => m
  }

  const USER_IMG_END_BYTES: seq<byte> := [0, 0, 0x40, 8]

  /** vidmap maps the video page and stores its address, little-endian, where the program asked. */
  ghost function AfterVidmap(m: Machine, ptr: int): Machine
  {
    if USER_IMG_START <= ptr < USER_IMG_END
    then Filled(m.(space := m.space.(vidmap := true)), ptr, USER_IMG_END_BYTES) else m
  }

  /** Memory after the screen is saved to the page of a terminal, or restored from it. */
  ghost function CopiedPage(mem: Memory, term: int, save: bool): Memory
  {
    var page := TERM_PHY_ADDR + term * KB4;
    if save then CopiedMem(mem, page, VIDEO, KB4) else CopiedMem(mem, VIDEO, page, KB4)
  }

  /** Saving copies the screen to a terminal's page, restoring copies the page to the screen. */
  ghost function AfterTerminal(m: Machine, term: int, save: bool): Machine
  {
    if 0 <= term < NUM_TERM then m.(space := m.space.(term := term), mem := CopiedPage(m.mem, term, save)) else m
  }

  // ------------------------------------------------------------- runs

  datatype Event =
    | Execute(cmd: seq<byte>, frame: Frame)
    | Halt(status: byte, frame: Frame)
    | Open(name: seq<byte>)
    | Close(fd: int)
    | Read(fd: int, buf: int, n: int, keys: seq<byte>)
    | GetArgs(buf: int, n: int)
    | Vidmap(ptr: int)
    | Terminal(term: int, save: bool)
    | Store(va: int, b: byte)

  /** A key buffer has 128 bytes, and the size of a read is a signed word. */
  predicate IsEvent(e: Event) {
    e.Read? ==> |e.keys| == NUM_KEYS && -0x8000_0000 <= e.n < 0x8000_0000
  }

  ghost function Step(fs: Image, m: Machine, e: Event): Machine
    requires IsSystem(fs) && IsMachine(m) && IsEvent(e)
  {
    match e
    case Execute(cmd, frame) => Executed(fs, m, cmd, frame)
    case Halt(status, frame) => Halted(fs, m, frame)
    case Open(name) => AfterOpen(fs, m, name)
    case Close(fd) => AfterClose(m, fd)
    case Read(fd, buf, n, keys) => AfterRead(fs, m, fd, buf, n, keys)
    case GetArgs(buf, n) => AfterGetArgs(m, buf, n)
    case Vidmap(ptr) => AfterVidmap(m, ptr)
    case Terminal(term, save) => AfterTerminal(m, term, save)
    case Store(va, b) => Stored(m, va, b)
  }

  /** What an event must not do: overrun the buffers of execute, or have the kernel store into its
      own page.  The code checks neither. */
  ghost predicate Harmless(fs: Image, m: Machine, e: Event)
    requires IsSystem(fs) && IsMachine(m)
  {
    IsEvent(e) &&
    match e
    case Execute(cmd, frame) => Fits(cmd)
    case Read(fd, buf, n, keys) => SparesKernel(buf, |ReadResult(fs, m, fd, buf, n, keys).1|)
    case GetArgs(buf, n) => SparesKernel(buf, |ArgResult(m, buf, n).1|)
    case _ => true
  }

  /** What a caller can see to: words that fit, and buffers that end below the kernel's page or start
      behind it, whatever the current state. */
  predicate IsPolite(e: Event)
  {
    match e
    case Execute(cmd, frame) => Fits(cmd)
    case Read(fd, buf, n, keys) =>
      IsEvent(e) && IsBuffer(buf, if n % WORD32 < NAME_SIZE then NAME_SIZE else n % WORD32)
    case GetArgs(buf, n) => IsBuffer(buf, n % WORD32 + 1)
    case _ => true
  }

  predicate IsBuffer(buf: int, n: int) {
    0 <= buf && buf + n <= WORD32 && (buf + n <= MB4 || buf >= MB8)
  }

  lemma {:induction false} PoliteIsHarmless(fs: Image, m: Machine, e: Event)
    requires IsSystem(fs) && IsMachine(m) && IsPolite(e)
    ensures Harmless(fs, m, e)
  {
    hide SparesKernel;
    match e
    case Read(fd, buf, n, keys) =>
      ReadIsBounded(fs, m, fd, buf, n, keys);
      RangeSparesKernel(buf, |ReadResult(fs, m, fd, buf, n, keys).1|);
    case GetArgs(buf, n) => RangeSparesKernel(buf, |ArgResult(m, buf, n).1|);
    case _ =>
  }

  /** A read stores no more than was asked for, or one name. */
  lemma {:induction false} ReadIsBounded(fs: Image, m: Machine, fd: int, buf: int, n: int, keys: seq<byte>)
    requires IsSystem(fs) && m.procs != [] && IsEvent(Read(fd, buf, n, keys))
    ensures var stored := |ReadResult(fs, m, fd, buf, n, keys).1|;
            stored <= MB4 - KB4 && (stored <= n % WORD32 || stored == NAME_SIZE)
  {
  }

  lemma ShellFits()
    ensures FirstToken(SHELL) == SHELL && SecondToken(SHELL) == [] && Fits(SHELL)
  {
    assert SkipSpaces(SHELL) == SHELL;
    assert SHELL == SHELL + [];
    TokenOf(SHELL, []);
    assert AfterFirst(SHELL) == [];
  }

  /** The kernel only comes up when the file system has a shell to execute. */
  ghost predicate Boots(fs: Image)
  {
    IsSystem(fs) && Named(fs, SHELL).Some?
  }

  /** Halting the last process leads back to one process exactly when there is a shell. */
  lemma {:induction false} LastHaltRestarts(fs: Image, m: Machine, frame: Frame)
    requires IsSystem(fs) && IsMachine(m) && |m.procs| == 1
    ensures |Halted(fs, m, frame).procs| == (if Boots(fs) then 1 else 0)
    ensures Boots(fs) ==> var p := Halted(fs, m, frame).procs[0];
                          p.frame == frame && p.arg == Named(fs, SHELL).value.arg && p.slots == NO_SLOTS
  {
  }

  // ------------------------------------------------------------- what a step can change

  /** Two memories agree on the frame of process p's image. */
  ghost predicate SameImage(p: int, a: Memory, b: Memory)
  {
    forall x :: ImageBase(p) <= x < ImageBase(p) + MB4 && x in a && x in b ==> a[x] == b[x]
  }

  /** Descriptors of the running process, memory and the two mapped pages differ, and no image of
      another process from 0 to 4. */
  ghost predicate LocalChange(m: Machine, m': Machine)
    requires m.procs != []
  {
    && |m'.procs| == |m.procs| && m'.procs[..|m.procs| - 1] == m.procs[..|m.procs| - 1]
    && IsProc(Running(m')) && Running(m') == Running(m).(slots := Running(m').slots)
    && m'.space.image == m.space.image && IsSpace(m'.space) && IsOutside(m'.mem)
    && forall p :: 0 <= p <= 4 && p != m.space.image ==> SameImage(p, m.mem, m'.mem)
  }

  ghost predicate IsPush(m: Machine, m': Machine)
  {
    && IsMachine(m') && |m'.procs| == |m.procs| + 1 && m'.procs[..|m.procs|] == m.procs
    && forall p :: 0 <= p < |m.procs| ==> SameImage(p, m.mem, m'.mem)
  }

  ghost predicate IsPop(m: Machine, m': Machine)
  {
    |m.procs| >= 2 && m' == m.(procs := m.procs[..|m.procs| - 1], space := m.space.(image := |m.procs| - 2))
  }

  ghost predicate IsRestart(m: Machine, m': Machine)
  {
    |m.procs| == 1 && |m'.procs| == 1 && IsMachine(m')
  }

  ghost predicate Change(m: Machine, m': Machine)
    requires m.procs != []
  {
    LocalChange(m, m') || IsPush(m, m') || IsPop(m, m') || IsRestart(m, m')
  }

  lemma {:induction false} SlotIsLocal(m: Machine, j: nat, s: Slot)
    requires IsMachine(m) && j < NUM_SLOTS
    ensures LocalChange(m, WithSlot(m, j, s))
  {
  }

  lemma {:induction false} NoChange(m: Machine)
    requires IsMachine(m)
    ensures LocalChange(m, m)
  {
  }

  lemma {:induction false} LocalKeepsMachine(m: Machine, m': Machine)
    requires IsMachine(m) && LocalChange(m, m')
    ensures IsMachine(m')
  {
    forall i | 0 <= i < |m'.procs|
      ensures IsProc(m'.procs[i])
    {
      assert i < |m'.procs| - 1 ==>
               m'.procs[i] == m'.procs[..|m.procs| - 1][i] == m.procs[..|m.procs| - 1][i] == m.procs[i];
    }
  }

  lemma {:induction false} LocalChangesAdd(a: Machine, b: Machine, c: Machine)
    requires IsMachine(a) && IsMachine(b) && LocalChange(a, b) && LocalChange(b, c)
    ensures LocalChange(a, c)
  {
    forall p | 0 <= p <= 4 && p != a.space.image
      ensures SameImage(p, a.mem, c.mem)
    {
      assert SameImage(p, a.mem, b.mem) && SameImage(p, b.mem, c.mem);
    }
  }

  /** Only memory and pages other than the image differ. */
  lemma {:induction false} MemoryIsLocal(m: Machine, space: Space, mem: Memory)
    requires IsMachine(m) && IsSpace(space) && space.image == m.space.image && IsOutside(mem)
    requires forall p :: 0 <= p <= 4 && p != m.space.image ==> SameImage(p, m.mem, mem)
    ensures LocalChange(m, m.(space := space, mem := mem))
  {
  }

  lemma {:induction false} PushIsChange(fs: Image, m: Machine, p: Program, frame: Frame)
    requires IsSystem(fs) && p.inode < |fs.inodes| && |m.procs| < MAX_PROCESSES && IsSpace(m.space)
    requires IsOutside(m.mem) && |p.arg| < MAX_ARG && forall i :: 0 <= i < |m.procs| ==> IsProc(m.procs[i])
    ensures IsPush(m, Pushed(fs, m, p, frame))
  {
  }

  lemma {:induction false} PushKeepsMachine(fs: Image, m: Machine, p: Program, frame: Frame)
    requires IsSystem(fs) && p.inode < |fs.inodes| && |m.procs| < MAX_PROCESSES && IsSpace(m.space) && IsOutside(m.mem)
    requires |p.arg| < MAX_ARG && (m.procs == [] || IsMachine(m))
    ensures IsMachine(Pushed(fs, m, p, frame))
  {
    hide Loaded, Content;
    PushIsChange(fs, m, p, frame);
  }

  lemma {:induction false} ExecuteIsChange(fs: Image, m: Machine, cmd: seq<byte>, frame: Frame)
    requires IsSystem(fs) && IsMachine(m) && Fits(cmd)
    ensures Change(m, Executed(fs, m, cmd, frame))
    ensures |Executed(fs, m, cmd, frame).procs| == |m.procs| + 1 ==> IsPush(m, Executed(fs, m, cmd, frame))
  {
    hide IsPush, LocalChange;
    NoChange(m);
    var p := Named(fs, cmd);
    if p.Some? && |m.procs| < MAX_PROCESSES {
      PushIsChange(fs, m, p.value, frame);
    }
  }

  lemma {:induction false} HaltIsChange(fs: Image, m: Machine, frame: Frame)
    requires Boots(fs) && IsMachine(m)
    ensures Change(m, Halted(fs, m, frame))
  {
    ShellFits();
    if |m.procs| == 1 {
      PushIsChange(fs, m.(procs := [], space := m.space.(image := 0)), Named(fs, SHELL).value, frame);
    }
  }

  lemma {:induction false} StoreIsLocal(m: Machine, va: int, b: byte)
    requires IsMachine(m)
    ensures LocalChange(m, Stored(m, va, b))
    ensures IsMachine(Stored(m, va, b))
  {
  }

  lemma {:induction false} FillIsLocal(m: Machine, buf: int, bytes: seq<byte>)
    requires IsMachine(m) && SparesKernel(buf, |bytes|)
    ensures LocalChange(m, Filled(m, buf, bytes)) && IsMachine(Filled(m, buf, bytes))
  {
    var stored := bytes[..Reached(m.space, buf, |bytes|)];
    assert SparesKernel(buf, |stored|);
    var mem := Written(m.mem, m.space, buf, stored);
    WrittenIsOutside(m.mem, m.space, buf, stored);
    hide Written, SparesKernel;
    forall p | 0 <= p <= 4 && p != m.space.image
      ensures SameImage(p, m.mem, mem)
    {
      forall a | InImage(p, a)
        ensures a in m.mem && a in mem ==> m.mem[a] == mem[a]
      {
        WrittenSparesImages(m.mem, m.space, buf, stored, p, a);
      }
    }
    MemoryIsLocal(m, m.space, mem);
    assert Filled(m, buf, bytes) == m.(space := m.space, mem := mem);
    LocalKeepsMachine(m, Filled(m, buf, bytes));
  }

  lemma {:induction false} VidmapIsLocal(m: Machine, ptr: int)
    requires IsMachine(m)
    ensures LocalChange(m, AfterVidmap(m, ptr))
  {
    NoChange(m);
    if USER_IMG_START <= ptr < USER_IMG_END {
      var m0 := m.(space := m.space.(vidmap := true));
      assert LocalChange(m, m0) && IsMachine(m0);
      hide LocalChange, IsMachine, Filled;
      RangeSparesKernel(ptr, 4);
      FillIsLocal(m0, ptr, USER_IMG_END_BYTES);
      LocalChangesAdd(m, m0, Filled(m0, ptr, USER_IMG_END_BYTES));
    }
  }

  lemma {:induction false} TerminalIsLocal(m: Machine, term: int, save: bool)
    requires IsMachine(m)
    ensures LocalChange(m, AfterTerminal(m, term, save))
  {
  }

  lemma {:induction false} OpenIsLocal(fs: Image, m: Machine, name: seq<byte>)
    requires IsSystem(fs) && IsMachine(m)
    ensures LocalChange(m, AfterOpen(fs, m, name))
  {
    NoChange(m);
    hide LocalChange;
    if OpenResult(fs, m, name) != -1 {
      var entry := fs.dentries[Lookup(fs.dentries, name)];
      SlotIsLocal(m, OpenResult(fs, m, name) - 2, OpenedAs(entry.fileType, entry.inode));
    }
  }

  lemma {:induction false} CloseIsLocal(m: Machine, fd: int)
    requires IsMachine(m)
    ensures LocalChange(m, AfterClose(m, fd))
  {
    NoChange(m);
    hide LocalChange;
    if IsOpen(m, fd) {
      SlotIsLocal(m, fd - 2, Closed);
    }
  }

  lemma {:induction false} ReadIsLocal(fs: Image, m: Machine, fd: int, buf: int, n: int, keys: seq<byte>)
    requires IsSystem(fs) && IsMachine(m) && Harmless(fs, m, Read(fd, buf, n, keys))
    ensures LocalChange(m, AfterRead(fs, m, fd, buf, n, keys))
  {
    hide LocalChange, PosAfterRead, SparesKernel, ReadResult;
    var bytes := ReadResult(fs, m, fd, buf, n, keys).1;
    var m1 := Filled(m, buf, bytes);
    FillIsLocal(m, buf, bytes);
    if buf != 0 && IsOpen(m, fd) && AllReached(m.space, buf, |bytes|) {
      var s := Running(m).slots[fd - 2];
      SlotIsLocal(m1, fd - 2, s.(pos := PosAfterRead(fs, s, n)));
      LocalChangesAdd(m, m1, WithSlot(m1, fd - 2, s.(pos := PosAfterRead(fs, s, n))));
    }
  }

  lemma {:induction false} ProcessStepIsChange(fs: Image, m: Machine, e: Event)
    requires Boots(fs) && IsMachine(m) && Harmless(fs, m, e) && (e.Execute? || e.Halt?)
    ensures Change(m, Step(fs, m, e))
  {
    hide Change, Executed, Halted;
    match e
    case Execute(cmd, frame) => ExecuteIsChange(fs, m, cmd, frame);
    case Halt(status, frame) => HaltIsChange(fs, m, frame);
  }

  /** All other events only touch descriptors of the running process, memory and mapped pages. */
  lemma {:induction false} OtherStepIsLocal(fs: Image, m: Machine, e: Event)
    requires IsSystem(fs) && IsMachine(m) && Harmless(fs, m, e) && !e.Execute? && !e.Halt?
    ensures LocalChange(m, Step(fs, m, e))
  {
    hide LocalChange, AfterOpen, AfterClose, AfterRead, AfterVidmap, AfterTerminal, Stored, Filled, ArgResult;
    match e
    case Open(name) => OpenIsLocal(fs, m, name);
    case Close(fd) => CloseIsLocal(m, fd);
    case Read(fd, buf, n, keys) => ReadIsLocal(fs, m, fd, buf, n, keys);
    case GetArgs(buf, n) => FillIsLocal(m, buf, ArgResult(m, buf, n).1);
    case Vidmap(ptr) => VidmapIsLocal(m, ptr);
    case Terminal(term, save) => TerminalIsLocal(m, term, save);
    case Store(va, b) => StoreIsLocal(m, va, b);
  }

  lemma {:induction false} StepIsChange(fs: Image, m: Machine, e: Event)
    requires Boots(fs) && IsMachine(m) && Harmless(fs, m, e)
    ensures Change(m, Step(fs, m, e))
  {
    hide LocalChange, IsPush, IsPop, IsRestart, Step;
    if e.Execute? || e.Halt? {
      ProcessStepIsChange(fs, m, e);
    } else {
      OtherStepIsLocal(fs, m, e);
    }
  }

  lemma {:induction false} ChangeKeepsMachine(m: Machine, m': Machine)
    requires IsMachine(m) && Change(m, m')
    ensures IsMachine(m')
  {
    if LocalChange(m, m') {
      LocalKeepsMachine(m, m');
    }
  }

  lemma {:induction false} PopKeepsMachine(m: Machine)
    requires IsMachine(m) && |m.procs| >= 2
    ensures IsMachine(m.(procs := m.procs[..|m.procs| - 1], space := m.space.(image := |m.procs| - 2)))
  {
  }

  lemma {:induction false} SlotKeepsMachine(m: Machine, j: nat, s: Slot)
    requires IsMachine(m) && j < NUM_SLOTS
    ensures IsMachine(WithSlot(m, j, s))
  {
    SlotIsLocal(m, j, s);
    LocalKeepsMachine(m, WithSlot(m, j, s));
  }

  /** No event of a run overruns execute's buffers or has the kernel store into its own page. */
  ghost predicate AllHarmless(fs: Image, m: Machine, es: seq<Event>)
    requires Boots(fs) && IsMachine(m)
    decreases |es|, 0
  {
    es == [] ||
    (AllHarmless(fs, m, es[..|es| - 1]) && Harmless(fs, Run(fs, m, es[..|es| - 1]), es[|es| - 1]))
  }

  /** Over every such run there are one to six processes and the newest runs in its own image. */
  ghost function Run(fs: Image, m: Machine, es: seq<Event>): (r: Machine)
    requires Boots(fs) && IsMachine(m) && AllHarmless(fs, m, es)
    ensures IsMachine(r)
    decreases |es|, 1
  {
    if es == [] then m
    else
      var before := Run(fs, m, es[..|es| - 1]);
      StepIsChange(fs, before, es[|es| - 1]);
      ChangeKeepsMachine(before, Step(fs, before, es[|es| - 1]));
      Step(fs, before, es[|es| - 1])
  }

  /** Polite programs make harmless runs, whatever the order of their calls. */
  lemma {:induction false} PoliteRunIsHarmless(fs: Image, m: Machine, es: seq<Event>)
    requires Boots(fs) && IsMachine(m) && forall k :: 0 <= k < |es| ==> IsPolite(es[k])
    ensures AllHarmless(fs, m, es)
  {
    hide IsPolite, Harmless, Step;
    if es != [] {
      PoliteRunIsHarmless(fs, m, es[..|es| - 1]);
      PoliteIsHarmless(fs, Run(fs, m, es[..|es| - 1]), es[|es| - 1]);
    }
  }

  // ------------------------------------------------------------- suspended processes

  /** A step that leaves process p suspended changes neither its records nor its image, nor frame
      and argument of the process above it. */
  lemma {:induction false} ChangeSparesSuspended(m: Machine, m': Machine, p: int)
    requires IsMachine(m) && Change(m, m') && 0 <= p && p + 2 <= |m.procs| && p + 2 <= |m'.procs|
    ensures m'.procs[..p + 1] == m.procs[..p + 1] && SameImage(p, m.mem, m'.mem)
    ensures m'.procs[p + 1].frame == m.procs[p + 1].frame && m'.procs[p + 1].arg == m.procs[p + 1].arg
  {
    var k := |m.procs| - 1;
    if LocalChange(m, m') {
      assert m'.procs[..p + 1] == m'.procs[..k][..p + 1] == m.procs[..k][..p + 1];
      assert p + 1 < k ==> m'.procs[p + 1] == m'.procs[..k][p + 1] == m.procs[..k][p + 1];
    } else if IsPush(m, m') {
      assert m'.procs[..p + 1] == m'.procs[..k + 1][..p + 1];
      assert m'.procs[p + 1] == m'.procs[..k + 1][p + 1];
    } else if IsPop(m, m') {
      assert m'.procs[..p + 1] == m.procs[..k][..p + 1];
      assert m'.procs[p + 1] == m.procs[..k][p + 1];
    }
  }

  /** During a run, process p stays suspended under at least one other. */
  ghost predicate Suspended(fs: Image, m: Machine, es: seq<Event>, p: int)
    requires Boots(fs) && IsMachine(m) && AllHarmless(fs, m, es)
  {
    |m.procs| >= p + 2 &&
    (es == [] || (Suspended(fs, m, es[..|es| - 1], p) && |Run(fs, m, es).procs| >= p + 2))
  }

  /** While its children run, execute and halt, a process and its image stay as they are, and so do
      frame and argument of the first child. */
  lemma {:induction false} RunSparesSuspended(fs: Image, m: Machine, es: seq<Event>, p: int)
    requires Boots(fs) && IsMachine(m) && p >= 0 && AllHarmless(fs, m, es) && Suspended(fs, m, es, p)
    ensures var m' := Run(fs, m, es);
            && |m'.procs| >= p + 2 && m'.procs[..p + 1] == m.procs[..p + 1] && SameImage(p, m.mem, m'.mem)
            && m'.procs[p + 1].frame == m.procs[p + 1].frame && m'.procs[p + 1].arg == m.procs[p + 1].arg
  {
    hide Step, Change, Boots, Harmless;
    if es != [] {
      var before := es[..|es| - 1];
      RunSparesSuspended(fs, m, before, p);
      StepIsChange(fs, Run(fs, m, before), es[|es| - 1]);
      ChangeSparesSuspended(Run(fs, m, before), Run(fs, m, es), p);
      ImagesAdd(p, m, Run(fs, m, before), Run(fs, m, es));
    }
  }

  lemma {:induction false} ImagesAdd(p: int, a: Machine, b: Machine, c: Machine)
    requires IsMachine(b) && p >= 0 && SameImage(p, a.mem, b.mem) && SameImage(p, b.mem, c.mem)
    ensures SameImage(p, a.mem, c.mem)
  {
  }

  /** Execute and halt are well bracketed: when the process that an execute created halts, its
      creator resumes at the frame of that execute, with its records, its argument, its descriptors
      and its image as they were, however many processes have come and gone in between; until then
      the created process has had its own argument. */
  lemma {:induction false} ExecuteHaltBrackets(fs: Image, m: Machine, cmd: seq<byte>, frame: Frame, m1: Machine,
                                               es: seq<Event>, m2: Machine, frame': Frame)
    requires Boots(fs) && IsMachine(m) && Fits(cmd) && m1 == Executed(fs, m, cmd, frame) && |m1.procs| == |m.procs| + 1
    requires IsMachine(m1) && AllHarmless(fs, m1, es) && Suspended(fs, m1, es, |m.procs| - 1)
    requires m2 == Run(fs, m1, es) && |m2.procs| == |m.procs| + 1
    ensures var m3 := Halted(fs, m2, frame');
            && Running(m2).frame == frame && Running(m2).arg == SecondToken(cmd)
            && m3.procs == m.procs && m3.space.image == m.space.image
            && SameImage(|m.procs| - 1, m.mem, m3.mem)
  {
    var k := |m.procs|;
    ExecuteIsChange(fs, m, cmd, frame);
    ExecuteSavesFrame(fs, m, cmd, frame);
    assert Running(m1) == m1.procs[k];
    hide *;
    HaltUndoesPush(fs, m, m1, es, m2, frame');
  }

  /** When the process on top of a pushed stack is reached again and halts, the stack is what it
      was before the push. */
  lemma {:induction false} HaltUndoesPush(fs: Image, m: Machine, m1: Machine, es: seq<Event>, m2: Machine, frame: Frame)
    requires Boots(fs) && IsMachine(m) && IsMachine(m1) && IsPush(m, m1)
    requires AllHarmless(fs, m1, es) && Suspended(fs, m1, es, |m.procs| - 1)
    requires m2 == Run(fs, m1, es) && |m2.procs| == |m.procs| + 1
    ensures var m3 := Halted(fs, m2, frame);
            && Running(m2).frame == m1.procs[|m.procs|].frame && Running(m2).arg == m1.procs[|m.procs|].arg
            && m3.procs == m.procs && m3.space.image == m.space.image
            && SameImage(|m.procs| - 1, m.mem, m3.mem)
  {
    var p := |m.procs| - 1;
    assert Running(m2) == m2.procs[p + 1] && m1.procs[..p + 1] == m.procs && SameImage(p, m.mem, m1.mem);
    hide *;
    RunSparesSuspended(fs, m1, es, p);
    ImagesAdd(p, m, m1, m2);
    HaltPops(fs, m, m2, frame);
  }

  lemma {:induction false} ExecuteSavesFrame(fs: Image, m: Machine, cmd: seq<byte>, frame: Frame)
    requires IsSystem(fs) && |Executed(fs, m, cmd, frame).procs| == |m.procs| + 1
    ensures var p := Running(Executed(fs, m, cmd, frame));
            p.frame == frame && p.arg == SecondToken(cmd) && p.slots == NO_SLOTS
  {
  }

  lemma {:induction false} HaltPops(fs: Image, m: Machine, m2: Machine, frame: Frame)
    requires IsSystem(fs) && IsMachine(m) && |m2.procs| == |m.procs| + 1 && m2.procs[..|m.procs|] == m.procs
    ensures var m3 := Halted(fs, m2, frame);
            m3.procs == m.procs && m3.space.image == m.space.image && m3.mem == m2.mem
  {
  }

  // ------------------------------------------------------------- the terminal pages

  /** The frame of process 5 is the only one that holds the terminals' pages. */
  lemma {:induction false} TerminalPagesAreInFrame5(p: int, term: int)
    requires 0 <= p < MAX_PROCESSES && 0 <= term < NUM_TERM
    ensures (exists a :: InImage(p, a) && InTerminalPage(term, a)) <==> p == 5
  {
    var a := TERM_PHY_ADDR + term * KB4;
    assert InTerminalPage(term, a) && (InImage(p, a) <==> p == 5);
  }

  /** The byte of the screen that belongs to an address of a terminal's page. */
  function OnVideo(term: int, a: int): int {
    VIDEO + a - (TERM_PHY_ADDR + term * KB4)
  }

  ghost predicate HoldsScreen(m: Machine, term: int)
    requires IsMachine(m) && 0 <= term < NUM_TERM
  {
    forall a :: InTerminalPage(term, a) ==> m.mem[a] == m.mem[OnVideo(term, a)]
  }

  /** Saving a terminal keeps the running program's image exactly when it is not process 5 or when
      the page already holds the screen. */
  lemma {:induction false} SaveKeepsImageExactly(m: Machine, term: int)
    requires IsMachine(m) && 0 <= term < NUM_TERM
    ensures SameImage(|m.procs| - 1, m.mem, AfterTerminal(m, term, true).mem)
            <==> |m.procs| - 1 != 5 || HoldsScreen(m, term)
  {
    var mem' := AfterTerminal(m, term, true).mem;
    assert forall a :: a in m.mem ==> mem'[a] == if InTerminalPage(term, a) then m.mem[OnVideo(term, a)] else m.mem[a];
    if |m.procs| - 1 == 5 {
      assert forall a :: InTerminalPage(term, a) ==> InImage(5, a);
    }
  }

  /** The page behind terminal t holds the same bytes. */
  ghost predicate PageKept(m: Machine, m': Machine, t: int)
  {
    AreaKept(m.mem, m'.mem, TERM_PHY_ADDR + t * KB4, TERM_PHY_ADDR + (t + 1) * KB4)
  }

  /** Bytes that the kernel stores put something new into the page behind terminal t. */
  ghost predicate PutsIntoPage(m: Machine, buf: int, bytes: seq<byte>, t: int)
    requires IsMachine(m) && 0 <= t < NUM_TERM
  {
    !AddsNothing(m.mem, m.space, buf, bytes[..Reached(m.space, buf, |bytes|)],
                 TERM_PHY_ADDR + t * KB4, TERM_PHY_ADDR + (t + 1) * KB4)
  }

  /** The events that change the page behind terminal t: a save of t, and stores into it, by the
      program or by the kernel, through the mapped slot or, for process 5, through its image. */
  ghost predicate Overwrites(fs: Image, m: Machine, e: Event, t: int)
    requires IsSystem(fs) && IsMachine(m) && IsEvent(e) && 0 <= t < NUM_TERM
  {
    match e
    case Terminal(term, save) => save && term == t && !HoldsScreen(m, t)
    case Store(va, b) =>
      exists a :: InTerminalPage(t, a) && Meaning(m.space, va) == Phys(a, true) && m.mem[a] != b
    case Read(fd, buf, n, keys) => PutsIntoPage(m, buf, ReadResult(fs, m, fd, buf, n, keys).1, t)
    case GetArgs(buf, n) => PutsIntoPage(m, buf, ArgResult(m, buf, n).1, t)
    case Vidmap(ptr) =>
      USER_IMG_START <= ptr < USER_IMG_END
      && PutsIntoPage(m.(space := m.space.(vidmap := true)), ptr, USER_IMG_END_BYTES, t)
    case _ => false
  }

  lemma {:induction false} FillKeepsPageExactly(m: Machine, buf: int, bytes: seq<byte>, t: int)
    requires IsMachine(m) && 0 <= t < NUM_TERM && |bytes| <= MB4 - KB4
    ensures PageKept(m, Filled(m, buf, bytes), t) <==> !PutsIntoPage(m, buf, bytes, t)
  {
    TerminalPageKeptExactly(m.mem, m.space, buf, bytes[..Reached(m.space, buf, |bytes|)], t);
  }

  lemma {:induction false} ProcessesKeepPage(fs: Image, m: Machine, e: Event, t: int)
    requires Boots(fs) && IsMachine(m) && 0 <= t < NUM_TERM && (e.Execute? || e.Halt?)
    ensures PageKept(m, Step(fs, m, e), t)
  {
    hide Named, FirstToken, SecondToken;
  }

  lemma {:induction false} SaveKeepsPageExactly(m: Machine, term: int, save: bool, t: int)
    requires IsMachine(m) && 0 <= t < NUM_TERM
    ensures PageKept(m, AfterTerminal(m, term, save), t) <==> !(save && term == t && !HoldsScreen(m, t))
  {
    var mem' := AfterTerminal(m, term, save).mem;
    if save && term == t {
      assert forall a :: InTerminalPage(t, a) ==> a in mem' && mem'[a] == m.mem[OnVideo(t, a)];
    } else {
      assert forall a :: InTerminalPage(t, a) ==> a in mem' && mem'[a] == m.mem[a];
    }
  }

  lemma {:induction false} StoreKeepsPageExactly(m: Machine, va: int, b: byte, t: int)
    requires IsMachine(m) && 0 <= t < NUM_TERM
    ensures PageKept(m, Stored(m, va, b), t)
            <==> !exists a :: InTerminalPage(t, a) && Meaning(m.space, va) == Phys(a, true) && m.mem[a] != b
  {
    assert forall a :: InTerminalPage(t, a) ==> a in m.mem;
  }

  /** One event leaves the page behind terminal t as it is if and only if it is none of these. */
  lemma {:induction false} PageKeptExactly(fs: Image, m: Machine, e: Event, t: int)
    requires Boots(fs) && IsMachine(m) && Harmless(fs, m, e) && 0 <= t < NUM_TERM
    ensures PageKept(m, Step(fs, m, e), t) <==> !Overwrites(fs, m, e, t)
  {
    hide PageKept, PutsIntoPage, Stored, AfterTerminal, HoldsScreen, IsMachine;
    match e
    case Terminal(term, save) => SaveKeepsPageExactly(m, term, save, t);
    case Store(va, b) => StoreKeepsPageExactly(m, va, b, t);
    case _ => OtherPageKeptExactly(fs, m, e, t);
  }

  lemma {:induction false} OtherPageKeptExactly(fs: Image, m: Machine, e: Event, t: int)
    requires Boots(fs) && IsMachine(m) && Harmless(fs, m, e) && 0 <= t < NUM_TERM && !e.Terminal? && !e.Store?
    ensures PageKept(m, Step(fs, m, e), t) <==> !Overwrites(fs, m, e, t)
  {
    hide PutsIntoPage, Filled, ReadResult, AfterOpen, Executed, Halted;
    match e
    case Read(fd, buf, n, keys) =>
      ReadIsBounded(fs, m, fd, buf, n, keys);
      FillKeepsPageExactly(m, buf, ReadResult(fs, m, fd, buf, n, keys).1, t);
    case GetArgs(buf, n) =>
      FillKeepsPageExactly(m, buf, ArgResult(m, buf, n).1, t);
    case Vidmap(ptr) =>
      FillKeepsPageExactly(m.(space := m.space.(vidmap := true)), ptr, USER_IMG_END_BYTES, t);
    case Open(name) =>
      OpenKeepsMemory(fs, m, name);
    case Close(fd) =>
    case _ =>
      ProcessesKeepPage(fs, m, e, t);
  }

  lemma {:induction false} OpenKeepsMemory(fs: Image, m: Machine, name: seq<byte>)
    requires IsSystem(fs) && IsMachine(m)
    ensures AfterOpen(fs, m, name).mem == m.mem
  {
  }

  /** No event of a run changes the page behind terminal t. */
  ghost predicate NeverOverwritten(fs: Image, m: Machine, es: seq<Event>, t: int)
    requires Boots(fs) && IsMachine(m) && AllHarmless(fs, m, es) && 0 <= t < NUM_TERM
  {
    es == []
    || (NeverOverwritten(fs, m, es[..|es| - 1], t) && !Overwrites(fs, Run(fs, m, es[..|es| - 1]), es[|es| - 1], t))
  }

  lemma {:induction false} RunKeepsPage(fs: Image, m: Machine, es: seq<Event>, t: int)
    requires Boots(fs) && IsMachine(m) && AllHarmless(fs, m, es) && 0 <= t < NUM_TERM
    requires NeverOverwritten(fs, m, es, t)
    ensures PageKept(m, Run(fs, m, es), t)
  {
    hide Step, Overwrites;
    if es != [] {
      var before := es[..|es| - 1];
      RunKeepsPage(fs, m, before, t);
      PageKeptExactly(fs, Run(fs, m, before), es[|es| - 1], t);
    }
  }

  ghost predicate SameScreen(m: Machine, m': Machine)
  {
    AreaKept(m.mem, m'.mem, VIDEO, VIDEO + KB4)
  }

  /** Saving a terminal, running anything, and restoring it brings its screen back if and only if its
      page has the same bytes again. */
  lemma {:induction false} SavedScreenReturns(m: Machine, m2: Machine, t: int)
    requires IsMachine(m) && IsMachine(m2) && 0 <= t < NUM_TERM
    ensures SameScreen(m, AfterTerminal(m2, t, false)) <==> PageKept(AfterTerminal(m, t, true), m2, t)
  {
    var page := TERM_PHY_ADDR + t * KB4;
    var m1, m3 := AfterTerminal(m, t, true), AfterTerminal(m2, t, false);
    assert forall a :: InTerminalPage(t, a) ==> a in m1.mem && m1.mem[a] == m.mem[OnVideo(t, a)];
    assert forall a :: VIDEO <= a < VIDEO + KB4 ==> a in m3.mem && m3.mem[a] == m2.mem[a - VIDEO + page];
    if SameScreen(m, m3) {
      forall a | InTerminalPage(t, a)
        ensures m2.mem[a] == m1.mem[a]
      {
        assert m3.mem[OnVideo(t, a)] == m.mem[OnVideo(t, a)];
      }
    }
    if PageKept(m1, m2, t) {
      forall v | VIDEO <= v < VIDEO + KB4
        ensures m3.mem[v] == m.mem[v]
      {
        assert InTerminalPage(t, v - VIDEO + page) && OnVideo(t, v - VIDEO + page) == v;
      }
    }
  }

  /** So the screen of a terminal survives every run that does not overwrite its page. */
  lemma {:induction false} ScreenSurvivesRun(fs: Image, m: Machine, es: seq<Event>, t: int)
    requires Boots(fs) && IsMachine(m) && IsMachine(AfterTerminal(m, t, true)) && 0 <= t < NUM_TERM
    requires AllHarmless(fs, AfterTerminal(m, t, true), es) && NeverOverwritten(fs, AfterTerminal(m, t, true), es, t)
    ensures SameScreen(m, AfterTerminal(Run(fs, AfterTerminal(m, t, true), es), t, false))
  {
    hide AfterTerminal;
    var m1 := AfterTerminal(m, t, true);
    RunKeepsPage(fs, m1, es, t);
    SavedScreenReturns(m, Run(fs, m1, es), t);
  }
}
